/** The vocabulary of the intermediate representation: selectors (a variable
    and a field path), embeds (a selector placed at a path inside a value),
    compositions (lists of embeds) and the operations that label the edges
    of an execution graph. */
module ExecutionOps {
  import opened Wrappers
  import ExecutionGraph

  type FuncId = int
  /** Declared next to the execution types in the source; kept here so the
      operations can mention it. */
  type VarId = int
  type Path = seq<string>

  /** v.x.y.field */
  datatype VarSelector = VarSelector(varId: VarId, selector: Path)

  /** { name: { value: v.x.y.field } }: the selector sits at `path`. */
  datatype VarEmbed = VarEmbed(path: Path, varSelector: VarSelector)

  type VarComposition = seq<VarEmbed>

  /** The universal sink and source of data. */
  const BlankVarId: VarId := -1
  const BlankVarName: string := "_"

  datatype Operation =
    | AssignSelectorOp(fromSelector: VarSelector, toSelector: VarSelector)
    | UseSelectorsOp(funcId: FuncId, inputs: seq<VarComposition>, outputs: seq<VarId>)
    | ReturnVarsOp(varIds: seq<VarId>)
    | NoOp
    | AssignVarOp(fromVarId: VarId, toVarId: VarId, genChange: ExecutionGraph.GenChangeType)

  /** The struct AssignSelectorOp on its own, as the factorization and the
      simplification pass it around. */
  type AssignSelector = op: Operation | op.AssignSelectorOp?
    witness AssignSelectorOp(VarSelector(BlankVarId, []), VarSelector(BlankVarId, []))

  /** The selector one reads at field path `q` of the value an embed
      describes: defined when the embed's own path is a prefix of `q`; the
      blank variable carries nothing. */
  function At(e: VarEmbed, q: Path): Option<VarSelector>
  {
    if e.varSelector.varId != BlankVarId && |e.path| <= |q| && q[..|e.path|] == e.path
    then Some(VarSelector(e.varSelector.varId, e.varSelector.selector + q[|e.path|..]))
    else None
  }

  /** Reading field `name` of the value an embed describes. */
  function Select(p: VarEmbed, name: string): (r: Option<VarEmbed>)
    ensures r.Some? ==> r.value.varSelector.varId == p.varSelector.varId
    ensures p.path == [] && p.varSelector.varId == BlankVarId ==> r.None?
    ensures |p.path| > 0 && p.path[0] != name ==> r.None?
  {
    if |p.path| > 0 && p.path[0] == name then
      Some(VarEmbed(p.path[1..], p.varSelector))
    else if |p.path| == 0 && p.varSelector.varId != BlankVarId then
      Some(VarEmbed([], VarSelector(p.varSelector.varId, p.varSelector.selector + [name])))
    else None
  }

  /** Select is a field read: whatever lies at `q` below the selected embed
      lies at `name.q` in the original, and a failed selection leaves
      nothing readable under `name`. */
  lemma SelectReadsField(p: VarEmbed, name: string, q: Path)
    ensures Select(p, name).Some? ==> At(Select(p, name).value, q) == At(p, [name] + q)
    ensures Select(p, name).None? ==> At(p, [name] + q) == None
  {
    var nq := [name] + q;
    if |p.path| > 0 && p.path[0] == name {
      var rest := p.path[1..];
      if |rest| <= |q| && q[..|rest|] == rest {
        assert nq[..|p.path|] == p.path;
        assert nq[|p.path|..] == q[|rest|..];
      }
    } else if |p.path| == 0 && p.varSelector.varId != BlankVarId {
      assert nq[..0] == [] && nq[0..] == nq;
      assert p.varSelector.selector + [name] + q == p.varSelector.selector + nq;
    } else if |p.path| > 0 {
      assert |p.path| <= |nq| ==> nq[..|p.path|][0] == name;
    }
  }

  /** Wrap every embed of a composition under field `name`; selecting `name`
      back returns each embed unchanged. */
  function Embed(e: VarComposition, name: string): (r: VarComposition)
    ensures |r| == |e|
    ensures forall i :: 0 <= i < |r| ==> |r[i].path| == |e[i].path| + 1 && r[i].path[0] == name
    ensures forall i :: 0 <= i < |r| ==> Select(r[i], name) == Some(e[i])
  {
    var r := seq(|e|, i requires 0 <= i < |e| => VarEmbed([name] + e[i].path, e[i].varSelector));
    assert forall i :: 0 <= i < |r| ==> r[i].path[1..] == e[i].path;
    r
  }

  /** Embedding under `name` moves every readable field below `name`. */
  lemma EmbedReadsUnderName(e: VarComposition, name: string, i: nat, q: Path)
    requires i < |e|
    ensures At(Embed(e, name)[i], [name] + q) == At(e[i], q)
  {
    SelectReadsField(Embed(e, name)[i], name, q);
  }
}
