/** Summaries of functions: which parts of which inputs flow into which
    parts of each output, and whether the flow changes the generation of the
    underlying array. Two summaries are built in: a three-index slice yields
    the previous generation of its operand, `append` the next one. */
module FuncSpecs {
  import opened ExecutionOps
  import opened ExecutionGraph

  /** The components of one input value. */
  type FuncSingleInput = seq<VarSelector>
  /** All input arguments of the function. */
  type FuncMultiInput = seq<FuncSingleInput>

  /** An output part comes from the embedded input selector (blank when it
      comes from nowhere), with a generation change of -1, 0 or +1. */
  datatype FuncOutputRef = FuncOutputRef(inputArgEmbed: VarEmbed, genChange: GenChangeType)

  /** The components returned in one value. */
  type FuncSingleOutput = seq<FuncOutputRef>
  /** All return values for one outcome. */
  type FuncMultiOutput = seq<FuncSingleOutput>

  /** Every potential outcome of a function. */
  datatype FuncSpec = FuncSpec(inputs: seq<FuncMultiInput>, outputs: seq<FuncMultiOutput>)

  /** The one-input, one-output shape both built-in summaries share: the
      output is the whole of input 0, with generation change `change`. */
  function SingleFlowSpec(change: GenChangeType): FuncSpec
  {
    FuncSpec([[[VarSelector(0, [])]]], [[[FuncOutputRef(VarEmbed([], VarSelector(0, [])), change)]]])
  }

  /** s[low:high:max] */
  function SliceFuncSpec(): (spec: FuncSpec)
    ensures |spec.inputs| == 1 && |spec.inputs[0]| == 1 && spec.inputs[0][0] == [VarSelector(0, [])]
    ensures |spec.outputs| == 1 && |spec.outputs[0]| == 1 && |spec.outputs[0][0]| == 1
    ensures spec.outputs[0][0][0].inputArgEmbed == VarEmbed([], VarSelector(0, []))
    ensures spec.outputs[0][0][0].genChange == PrevGen
  {
    SingleFlowSpec(PrevGen)
  }

  /** append(s, ...) */
  function AppendFuncSpec(): (spec: FuncSpec)
    ensures |spec.inputs| == 1 && |spec.inputs[0]| == 1 && spec.inputs[0][0] == [VarSelector(0, [])]
    ensures |spec.outputs| == 1 && |spec.outputs[0]| == 1 && |spec.outputs[0][0]| == 1
    ensures spec.outputs[0][0][0].inputArgEmbed == VarEmbed([], VarSelector(0, []))
    ensures spec.outputs[0][0][0].genChange == NextGen
  {
    SingleFlowSpec(NextGen)
  }

  /** Every selector some input slot declares. */
  ghost predicate Declared(spec: FuncSpec, v: VarSelector)
  {
    exists i, j, k :: 0 <= i < |spec.inputs| && 0 <= j < |spec.inputs[i]| && 0 <= k < |spec.inputs[i][j]|
      && spec.inputs[i][j][k] == v
  }

  /** Every output reference is blank or points at a declared input selector. */
  ghost predicate WellReferenced(spec: FuncSpec)
  {
    forall i, j, k :: 0 <= i < |spec.outputs| && 0 <= j < |spec.outputs[i]| && 0 <= k < |spec.outputs[i][j]| ==>
      var ref := spec.outputs[i][j][k];
      ref.inputArgEmbed.varSelector.varId == BlankVarId || Declared(spec, ref.inputArgEmbed.varSelector)
  }

  /** Both built-in summaries only refer to inputs they declare, and they
      differ in nothing but the generation change. */
  lemma BuiltinSpecsAreWellReferenced()
    ensures WellReferenced(SliceFuncSpec()) && WellReferenced(AppendFuncSpec())
    ensures SliceFuncSpec().inputs == AppendFuncSpec().inputs
    ensures SliceFuncSpec() != AppendFuncSpec()
    ensures SliceFuncSpec() == SingleFlowSpec(PrevGen) && AppendFuncSpec() == SingleFlowSpec(NextGen)
  {
    var v := VarSelector(0, []);
    assert Declared(SliceFuncSpec(), v) by { assert SliceFuncSpec().inputs[0][0][0] == v; }
    assert Declared(AppendFuncSpec(), v) by { assert AppendFuncSpec().inputs[0][0][0] == v; }
  }
}
