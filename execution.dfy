/** The control-flow graph of one function (points joined by transitions
    labelled with operations) and the textual rendering of variables,
    selectors and embeds. The rendering of a selector doubles as its
    identity when the simplifier renumbers selectors, so the lemmas here
    show that it loses nothing. */
module ExecutionModel {
  import opened Wrappers
  import opened Text
  import opened ExecutionOps

  /** A code point within one function. */
  type ExecutionPoint = int

  datatype ExecutionTransition = ExecutionTransition(toPoint: ExecutionPoint, operation: Operation)

  /** A source position, kept opaque. */
  datatype Position = Position(filename: string, line: int, column: int)

  datatype SourceCodeReferences = SourceCodeReferences(enabled: bool, references: map<ExecutionPoint, Position>)

  /** All possible transitions of one function. */
  datatype Execution = Execution(
    rootPoint: ExecutionPoint,
    transitions: map<ExecutionPoint, seq<ExecutionTransition>>,
    sourceCodeReferences: SourceCodeReferences)

  /** The transitions leaving a point (none when it has no entry). */
  function TransitionsOf(transitions: map<ExecutionPoint, seq<ExecutionTransition>>, p: ExecutionPoint): seq<ExecutionTransition>
  {
    Get(transitions, p, [])
  }

  /** The blank variable renders as "_", any other as "$" and its decimal value. */
  function VarIdString(v: VarId): (s: string)
    ensures v == BlankVarId ==> s == BlankVarName
    ensures v != BlankVarId ==> |s| >= 2 && s[0] == '$' && ParseDecimal(s[1..]) == Some(v)
    ensures s != "" && '.' !in s && ':' !in s
  {
    if v == BlankVarId then BlankVarName
    else
      var s := "$" + Itoa(v);
      ItoaRoundTrip(v);
      assert s[1..] == Itoa(v);
      assert forall i :: 1 <= i < |s| ==> s[i] == '-' || IsDigit(s[i]) by {
        forall i | 1 <= i < |s| ensures s[i] == '-' || IsDigit(s[i]) {
          if v >= 0 { assert s[i] == Itoa(v)[i - 1]; }
          else if i > 1 { assert s[i] == NatDigits(-v)[i - 2]; }
        }
      }
      s
  }

  /** Distinct variables render differently. */
  lemma VarIdStringInjective(a: VarId, b: VarId)
    requires VarIdString(a) == VarIdString(b)
    ensures a == b
  {
    if a != BlankVarId && b != BlankVarId {
      assert Some(a) == ParseDecimal(VarIdString(a)[1..]) == Some(b);
    }
  }

  /** v.x.y renders as the variable followed by the fields, joined by ".". */
  function VarSelectorString(v: VarSelector): (s: string)
    ensures v.selector == [] ==> s == VarIdString(v.varId)
  {
    Join([VarIdString(v.varId)] + v.selector, ".")
  }

  /** Field names that are non-empty and contain neither separator. */
  predicate PlainPath(p: Path)
  {
    PlainParts(p, '.') && PlainParts(p, ':')
  }

  /** A selector rendering never contains ":" when its fields do not. */
  lemma SelectorStringHasNoColon(v: VarSelector)
    requires PlainPath(v.selector)
    ensures PlainParts([VarSelectorString(v)], ':')
  {
    JoinKeepsOut([VarIdString(v.varId)] + v.selector, '.', ':');
  }

  /** Joining parts that avoid a character `d` (with a separator other than
      `d`) gives a string avoiding `d`; the result is non-empty when the
      first part is. */
  lemma {:induction false} JoinKeepsOut(parts: seq<string>, c: char, d: char)
    requires c != d && PlainParts(parts, d)
    ensures d !in Join(parts, [c])
    ensures |parts| > 0 ==> |Join(parts, [c])| >= |parts[0]|
    decreases |parts|
  {
    if |parts| > 1 {
      JoinKeepsOut(parts[1..], c, d);
      assert Join(parts, [c]) == parts[0] + [c] + Join(parts[1..], [c]);
    }
  }

  /** Selectors over plain field names render differently when they differ:
      the rendering is a faithful key for a selector. */
  lemma VarSelectorStringInjective(a: VarSelector, b: VarSelector)
    requires PlainPath(a.selector) && PlainPath(b.selector)
    requires VarSelectorString(a) == VarSelectorString(b)
    ensures a == b
  {
    var xs, ys := [VarIdString(a.varId)] + a.selector, [VarIdString(b.varId)] + b.selector;
    assert PlainParts(xs, '.') && PlainParts(ys, '.');
    JoinInjective(xs, ys, '.');
    assert xs[0] == ys[0] && xs[1..] == a.selector && ys[1..] == b.selector;
    VarIdStringInjective(a.varId, b.varId);
  }

  /** An embed renders as its path fields followed by the selector, joined by ":". */
  function VarEmbedString(e: VarEmbed): (s: string)
    ensures e.path == [] ==> s == VarSelectorString(e.varSelector)
  {
    Join(e.path + [VarSelectorString(e.varSelector)], ":")
  }

  /** Embeds over plain names render differently when they differ. */
  lemma VarEmbedStringInjective(a: VarEmbed, b: VarEmbed)
    requires PlainPath(a.path) && PlainPath(a.varSelector.selector)
    requires PlainPath(b.path) && PlainPath(b.varSelector.selector)
    requires VarEmbedString(a) == VarEmbedString(b)
    ensures a == b
  {
    var xs, ys := a.path + [VarSelectorString(a.varSelector)], b.path + [VarSelectorString(b.varSelector)];
    SelectorStringHasNoColon(a.varSelector);
    SelectorStringHasNoColon(b.varSelector);
    assert PlainParts(xs, ':') && PlainParts(ys, ':');
    JoinInjective(xs, ys, ':');
    assert a.path == xs[..|xs| - 1] && b.path == ys[..|ys| - 1];
    VarSelectorStringInjective(a.varSelector, b.varSelector);
  }
}
