/** The lexical scope table the translator threads through a function: a
    stack of frames mapping names to variable ids, one fresh-id counter
    shared by every frame and every copy of the table, and the table of
    known functions. A `Scopes` value is copied freely, as in the source;
    the frames and the counter it refers to are objects that the copies
    share. */
module ScopeTable {
  import opened Wrappers
  import opened ExecutionOps

  const SliceFuncId: FuncId := -1
  const SliceFuncName: string := "$Slice"
  const AppendFuncId: FuncId := -2
  const AppendFuncName: string := "append"

  /** The counter every copy of a scope table draws fresh ids from. */
  class VarIdCounter {
    var last: VarId

    constructor ()
      ensures last == 0
    {
      last := 0;
    }
  }

  /** One lexical frame: the names declared in it. */
  class Frame {
    var vars: map<string, VarId>

    constructor ()
      ensures vars == map[]
    {
      vars := map[];
    }
  }

  datatype Scopes = Scopes(funcs: map<string, FuncId>, vars: seq<Frame>, lastVarId: VarIdCounter)

  /** The contents of a stack of frames, outermost first. */
  ghost function Bindings(frames: seq<Frame>): (r: seq<map<string, VarId>>)
    reads frames
    ensures |r| == |frames| && forall i :: 0 <= i < |frames| ==> r[i] == frames[i].vars
  {
    seq(|frames|, i reads frames requires 0 <= i < |frames| => frames[i].vars)
  }

  /** The innermost binding of `name`, if any. */
  function Lookup(frames: seq<map<string, VarId>>, name: string): Option<VarId>
  {
    if |frames| == 0 then None
    else if name in frames[|frames| - 1] then Some(frames[|frames| - 1][name])
    else Lookup(frames[..|frames| - 1], name)
  }

  /** A table built by NewScopes and PushScope: at least one frame, no frame
      twice, and every bound id was drawn from the counter before. */
  ghost predicate Valid(s: Scopes)
    reads s.vars, s.lastVarId
  {
    && |s.vars| >= 1
    && (forall i, j :: 0 <= i < j < |s.vars| ==> s.vars[i] != s.vars[j])
    && s.lastVarId.last >= 0
    && (forall i, name :: 0 <= i < |s.vars| && name in s.vars[i].vars ==> 0 <= s.vars[i].vars[name] < s.lastVarId.last)
  }

  /** Every id a lookup can return was drawn from the counter, so it is
      never blank and never equal to the next fresh id. */
  lemma {:induction false} LookupBelowCounter(frames: seq<map<string, VarId>>, name: string, last: VarId)
    requires forall i, n :: 0 <= i < |frames| && n in frames[i] ==> 0 <= frames[i][n] < last
    requires Lookup(frames, name).Some?
    ensures 0 <= Lookup(frames, name).value < last
    decreases |frames|
  {
    if name !in frames[|frames| - 1] {
      var front := frames[..|frames| - 1];
      assert forall i, n :: 0 <= i < |front| && n in front[i] ==> front[i][n] == frames[i][n];
      LookupBelowCounter(front, name, last);
    }
  }

  /** Binding `name` leaves every other name's lookup as it was. */
  lemma {:induction false} BindingOtherName(frames: seq<map<string, VarId>>, name: string, other: string, id: VarId)
    requires |frames| >= 1 && other != name
    ensures Lookup(Declare(frames, name, id), other) == Lookup(frames, other)
  {
    var updated := frames[|frames| - 1 := frames[|frames| - 1][name := id]];
    assert updated[..|updated| - 1] == frames[..|frames| - 1];
  }

  /** A fresh empty frame hides nothing. */
  lemma PushedFrameIsTransparent(frames: seq<map<string, VarId>>, name: string)
    ensures Lookup(frames + [map[]], name) == Lookup(frames, name)
  {
    assert (frames + [map[]])[..|frames|] == frames;
  }

  /** One empty frame, the counter at 0. */
  method NewScopes(funcs: map<string, FuncId>) returns (s: Scopes)
    ensures Valid(s) && fresh(s.lastVarId) && fresh(s.vars[0])
    ensures s.funcs == funcs && Bindings(s.vars) == [map[]] && s.lastVarId.last == 0
  {
    var frame := new Frame();
    var counter := new VarIdCounter();
    s := Scopes(funcs, [frame], counter);
  }

  /** Draws the next id from the shared counter. */
  method NewVarId(s: Scopes) returns (id: VarId)
    requires Valid(s)
    modifies s.lastVarId
    ensures Valid(s)
    ensures id == old(s.lastVarId.last) && s.lastVarId.last == id + 1
  {
    id := s.lastVarId.last;
    s.lastVarId.last := s.lastVarId.last + 1;
  }

  /** A fresh id is bound nowhere in the table yet. */
  lemma FreshIdIsUnbound(s: Scopes, name: string)
    requires Valid(s)
    ensures Lookup(Bindings(s.vars), name) != Some(s.lastVarId.last)
    ensures Lookup(Bindings(s.vars), name) != Some(BlankVarId)
  {
    if Lookup(Bindings(s.vars), name).Some? {
      LookupBelowCounter(Bindings(s.vars), name, s.lastVarId.last);
    }
  }

  function TryGetFunc(s: Scopes, name: string): (r: Option<FuncId>)
    ensures r.Some? <==> name in s.funcs
    ensures r.Some? ==> r.value == s.funcs[name]
  {
    if name in s.funcs then Some(s.funcs[name]) else None
  }

  /** Like TryGetFunc, but an unknown function is a failure. */
  function GetFunc(s: Scopes, name: string): (r: Result<FuncId>)
    ensures r.Ok? <==> TryGetFunc(s, name).Some?
    ensures r.Ok? ==> r.value == TryGetFunc(s, name).value
  {
    if name in s.funcs then Ok(s.funcs[name]) else Err("unable to find func in the scope")
  }

  /** Walks the frames from the innermost outwards. */
  method FindVar(s: Scopes, name: string) returns (r: Option<VarId>)
    ensures r == Lookup(Bindings(s.vars), name)
  {
    ghost var frames := Bindings(s.vars);
    var i := |s.vars| - 1;
    assert frames[..i + 1] == frames;
    while i >= 0
      invariant -1 <= i < |s.vars|
      invariant Lookup(frames, name) == Lookup(frames[..i + 1], name)
    {
      if name in s.vars[i].vars {
        return Some(s.vars[i].vars[name]);
      }
      assert frames[..i + 1][..i] == frames[..i];
      i := i - 1;
    }
    return None;
  }

  /** The innermost binding of `name`, or blank when there is none. */
  method GetVarOrBlank(s: Scopes, name: string) returns (id: VarId)
    ensures Lookup(Bindings(s.vars), name).Some? ==> id == Lookup(Bindings(s.vars), name).value
    ensures Lookup(Bindings(s.vars), name).None? ==> id == BlankVarId
  {
    var found := FindVar(s, name);
    id := if found.Some? then found.value else BlankVarId;
  }

  /** The innermost binding of `name`; "_" is blank and any other unbound
      name is a failure. */
  method GetVar(s: Scopes, name: string) returns (r: Result<VarId>)
    ensures name == BlankVarName ==> r == Ok(BlankVarId)
    ensures name != BlankVarName && Lookup(Bindings(s.vars), name).Some? ==> r == Ok(Lookup(Bindings(s.vars), name).value)
    ensures name != BlankVarName && Lookup(Bindings(s.vars), name).None? ==> r.Err?
  {
    if name == BlankVarName {
      return Ok(BlankVarId);
    }
    var found := FindVar(s, name);
    if found.Some? {
      return Ok(found.value);
    }
    return Err("variable not found");
  }

  /** The frames with `name` bound to `id` in the innermost one. */
  function Declare(frames: seq<map<string, VarId>>, name: string, id: VarId): (r: seq<map<string, VarId>>)
    requires |frames| >= 1
    ensures |r| == |frames| && r[..|r| - 1] == frames[..|frames| - 1]
    ensures Lookup(r, name) == Some(id)
  {
    frames[|frames| - 1 := frames[|frames| - 1][name := id]]
  }

  /** Declares `name` in the innermost frame under a fresh id; "_" declares
      nothing and stands for blank. */
  method CreateVar(s: Scopes, name: string) returns (id: VarId)
    requires Valid(s)
    modifies s.lastVarId, s.vars[|s.vars| - 1]
    ensures Valid(s)
    ensures name == BlankVarName ==>
      id == BlankVarId && s.lastVarId.last == old(s.lastVarId.last) && Bindings(s.vars) == old(Bindings(s.vars))
    ensures name != BlankVarName ==>
      id == old(s.lastVarId.last) && s.lastVarId.last == id + 1 &&
      Bindings(s.vars) == Declare(old(Bindings(s.vars)), name, id)
  {
    if name == BlankVarName {
      return BlankVarId;
    }
    id := NewVarId(s);
    var inner := s.vars[|s.vars| - 1];
    inner.vars := inner.vars[name := id];
  }

  /** A table with one more, empty, innermost frame; the outer frames, the
      counter and the function table are the same objects. */
  method PushScope(s: Scopes) returns (t: Scopes)
    requires Valid(s)
    ensures |t.vars| == |s.vars| + 1 && Valid(t) && fresh(t.vars[|s.vars|])
    ensures t.funcs == s.funcs && t.lastVarId == s.lastVarId && t.vars == s.vars + [t.vars[|s.vars|]]
    ensures Bindings(t.vars) == Bindings(s.vars) + [map[]]
  {
    var frame := new Frame();
    t := Scopes(s.funcs, s.vars + [frame], s.lastVarId);
  }

  /** Declaring a name makes it visible at once, under an id bound nowhere
      before, and leaves other names as they were. */
  method DeclareThenLookup(s: Scopes, name: string, other: string) returns (id: VarId, seen: Option<VarId>)
    requires Valid(s) && name != BlankVarName && other != name
    modifies s.lastVarId, s.vars[|s.vars| - 1]
    ensures seen == Some(id) && id == old(s.lastVarId.last)
    ensures Lookup(Bindings(s.vars), other) == old(Lookup(Bindings(s.vars), other))
    ensures forall n :: old(Lookup(Bindings(s.vars), n)) != Some(id)
  {
    forall n ensures Lookup(Bindings(s.vars), n) != Some(s.lastVarId.last) {
      FreshIdIsUnbound(s, n);
    }
    ghost var before := Bindings(s.vars);
    id := CreateVar(s, name);
    BindingOtherName(before, name, other, id);
    seen := FindVar(s, name);
  }

  /** Dropping the innermost frame of a pushed table gives back the table it
      was pushed on, with the counter as it now stands. */
  lemma PoppedScope(s: Scopes, t: Scopes)
    requires Valid(t) && t.lastVarId == s.lastVarId && |s.vars| >= 1
    requires |t.vars| == |s.vars| + 1 && t.vars[..|s.vars|] == s.vars
    ensures Valid(s) && Bindings(s.vars) == Bindings(t.vars)[..|s.vars|]
  {
    assert forall i :: 0 <= i < |s.vars| ==> s.vars[i] == t.vars[i];
  }
}
