/**
 The calls of `snprintf`: the text of the rebuilt directive and the operands
 that are passed with it belong together.
 */
module SnprintfCall {
  import opened SaturatingSize
  import opened PrintfSyntax
  import opened PrintfDirectives
  import opened DirectiveBuffer
  import opened DirectiveMeaning
  import opened Formatter

  /** Operand i of the call is the argument that the format names at `index`. */
  ghost predicate Passed<V>(operands: seq<V>, i: Size, values: seq<V>, index: Size) {
    if index == ARG_NONE then i == ARG_NONE
    else i < |operands| && index < |values| && operands[i] == values[index]
  }

  /** `snprintf` finds each operand where the rebuilt directive makes it look for it, and no operand is left over. */
  ghost predicate CallIsRight<V>(fmt: string, d: Directive, ty: ArgType, values: seq<V>)
    requires Rereads(fmt, d, ty)
  {
    var st := ParseDirective(Rebuilt(fmt, d, ty), 0, INITIAL).value.1;
    var d', operands := LastOf(st), Operands(d, values);
    && |operands| == |st.args|
    && Passed(operands, d'.width_arg_index, values, d.width_arg_index)
    && Passed(operands, d'.precision_arg_index, values, d.precision_arg_index)
    && Passed(operands, d'.arg_index, values, d.arg_index)
  }

  lemma OperandsInOrder<V>(d: Directive, values: seq<V>)
    requires d.width_arg_index != ARG_NONE ==> d.width_arg_index < |values|
    requires d.precision_arg_index != ARG_NONE ==> d.precision_arg_index < |values|
    requires d.arg_index != ARG_NONE && d.arg_index < |values|
    ensures var n := if d.width_arg_index != ARG_NONE then 1 else 0;
      var m := n + if d.precision_arg_index != ARG_NONE then 1 else 0;
      && |Operands(d, values)| == m + 1 && Operands(d, values)[m] == values[d.arg_index]
      && (n == 1 ==> Operands(d, values)[0] == values[d.width_arg_index])
      && (m > n ==> Operands(d, values)[n] == values[d.precision_arg_index])
  {
  }

  predicate ArgumentsThere(d: Directive, count: nat) {
    && (d.width_arg_index != ARG_NONE ==> d.width_arg_index < count)
    && (d.precision_arg_index != ARG_NONE ==> d.precision_arg_index < count)
    && d.arg_index != ARG_NONE && d.arg_index < count
  }

  lemma CallFollows<V>(fmt: string, d: Directive, ty: ArgType, values: seq<V>)
    requires Rereads(fmt, d, ty) && ArgumentsThere(d, |values|)
    ensures CallIsRight(fmt, d, ty, values)
  {
    hide ParseDirective, Rebuilt, Operands, Slice, Promoted;
    OperandsInOrder(d, values);
  }

  /** So it is for every directive of every format, wherever its arguments are taken from. */
  lemma EveryCallIsRight<V>(fmt: string, k: nat, values: seq<V>)
    requires Parse(fmt, 0, INITIAL).Some? && k < |Parse(fmt, 0, INITIAL).value.1.dirs|
    requires |values| == |Parse(fmt, 0, INITIAL).value.1.args|
    ensures var st := Parse(fmt, 0, INITIAL).value.1;
      var d := st.dirs[k];
      d.conversion != '%' && d.conversion != 'n' ==>
        d.arg_index < |st.args| && Rereads(fmt, d, st.args[d.arg_index])
        && CallIsRight(fmt, d, st.args[d.arg_index], values)
  {
    hide Parse, Rereads, CallIsRight, Trusted, Placed, Bounded;
    var st := Parse(fmt, 0, INITIAL).value.1;
    var d := st.dirs[k];
    RebuildKeepsMeaning(fmt, k);
    ParsedFormat(fmt);
    if d.conversion != '%' && d.conversion != 'n' {
      ArgumentsPresent(d, st.args, st.max_width, st.max_precision);
      CallFollows(fmt, d, st.args[d.arg_index], values);
    }
  }
}
