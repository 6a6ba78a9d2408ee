/**
 `vasnprintf`: literal text and converted arguments appended to a growing
 buffer. `render` stands for a conforming `snprintf` that does not fail: the
 characters a rebuilt directive produces from its operands.
 */
module Formatter {
  import opened Options
  import opened SaturatingSize
  import opened PrintfSyntax
  import opened PrintfDirectives
  import opened PrintfParse
  import opened DirectiveBuffer

  function Operand<V>(values: seq<V>, index: Size): seq<V> {
    if index < |values| && index != ARG_NONE then [values[index]] else []
  }

  /** The arguments of one `snprintf` call: those of `*` first. */
  function Operands<V>(d: Directive, values: seq<V>): seq<V> {
    Operand(values, d.width_arg_index) + Operand(values, d.precision_arg_index) + Operand(values, d.arg_index)
  }

  function TypeAt(args: seq<ArgType>, index: Size): ArgType {
    if index < |args| then args[index] else TypeNone
  }

  /** What one directive adds to the output. */
  function Converted<V>(fmt: string, d: Directive, args: seq<ArgType>, values: seq<V>,
          render: (string, seq<V>) -> string): string {
    if d.conversion == '%' then "%"
    else if d.conversion == 'n' then ""
    else render(Rebuilt(fmt, d, TypeAt(args, d.arg_index)), Operands(d, values))
  }

  /** Where the text before directive k starts. */
  function TextStart(dirs: seq<Directive>, k: nat): nat
    requires k <= |dirs|
  {
    if k == 0 then 0 else dirs[k - 1].dir_end
  }

  /** The output up to the end of the first k directives. */
  function Formatted<V>(fmt: string, dirs: seq<Directive>, args: seq<ArgType>, values: seq<V>,
          render: (string, seq<V>) -> string, k: nat): string
    requires k <= |dirs|
  {
    if k == 0 then ""
    else
      Formatted(fmt, dirs, args, values, render, k - 1) + Slice(fmt, TextStart(dirs, k - 1), dirs[k - 1].dir_start)
      + Converted(fmt, dirs[k - 1], args, values, render)
  }

  /** The whole output of a format that parses to st and ends at end. */
  function Expanded<V>(fmt: string, st: State, end: nat, values: seq<V>, render: (string, seq<V>) -> string): string {
    Formatted(fmt, st.dirs, st.args, values, render, |st.dirs|) + Slice(fmt, TextStart(st.dirs, |st.dirs|), end)
  }

  /** What the `%n` among the first k directives store: the argument's index and the output length there. */
  function Counts<V>(fmt: string, dirs: seq<Directive>, args: seq<ArgType>, values: seq<V>,
          render: (string, seq<V>) -> string, k: nat): seq<(Size, nat)>
    requires k <= |dirs|
  {
    if k == 0 then []
    else
      Counts(fmt, dirs, args, values, render, k - 1)
      + if dirs[k - 1].conversion == 'n'
        then [(dirs[k - 1].arg_index, |Formatted(fmt, dirs, args, values, render, k)|)] else []
  }

  lemma {:induction false} FormattedGrows<V>(fmt: string, dirs: seq<Directive>, args: seq<ArgType>, values: seq<V>,
          render: (string, seq<V>) -> string, j: nat, k: nat)
    requires j <= k <= |dirs|
    ensures |Formatted(fmt, dirs, args, values, render, j)| <= |Formatted(fmt, dirs, args, values, render, k)|
    decreases k
  {
    hide Slice, Converted, TextStart;
    if j < k {
      FormattedGrows(fmt, dirs, args, values, render, j, k - 1);
    }
  }

  /** Step k of the output. */
  lemma FormattedStep<V>(fmt: string, dirs: seq<Directive>, args: seq<ArgType>, values: seq<V>,
          render: (string, seq<V>) -> string, k: nat)
    requires k < |dirs|
    ensures Formatted(fmt, dirs, args, values, render, k + 1) ==
      Formatted(fmt, dirs, args, values, render, k) + Slice(fmt, TextStart(dirs, k), dirs[k].dir_start)
      + Converted(fmt, dirs[k], args, values, render)
  {
    hide Slice, Converted, TextStart;
  }

  /** What directive j stores: the length of the output up to the end of the text before it, at its argument. */
  ghost predicate StoredBy<V>(fmt: string, dirs: seq<Directive>, args: seq<ArgType>, values: seq<V>,
          render: (string, seq<V>) -> string, j: nat, x: (Size, nat))
    requires j < |dirs|
  {
    && dirs[j].conversion == 'n' && x.0 == dirs[j].arg_index
    && x.1 == |Formatted(fmt, dirs, args, values, render, j)|
         + |Slice(fmt, TextStart(dirs, j), dirs[j].dir_start)|
  }

  lemma CountsLast<V>(fmt: string, dirs: seq<Directive>, args: seq<ArgType>, values: seq<V>,
          render: (string, seq<V>) -> string, k: nat)
    requires k < |dirs|
    ensures Counts(fmt, dirs, args, values, render, k + 1) == Counts(fmt, dirs, args, values, render, k)
      + if dirs[k].conversion != 'n' then []
        else [(dirs[k].arg_index, |Formatted(fmt, dirs, args, values, render, k)|
                                  + |Slice(fmt, TextStart(dirs, k), dirs[k].dir_start)|)]
  {
    hide Slice, TextStart;
    FormattedStep(fmt, dirs, args, values, render, k);
  }

  lemma NothingStored<V>(fmt: string, dirs: seq<Directive>, args: seq<ArgType>, values: seq<V>,
          render: (string, seq<V>) -> string)
    ensures Counts(fmt, dirs, args, values, render, 0) == []
  {
  }

  lemma LastStores<V>(fmt: string, dirs: seq<Directive>, args: seq<ArgType>, values: seq<V>,
          render: (string, seq<V>) -> string, k: nat, x: (Size, nat))
    requires k < |dirs|
    ensures x in Counts(fmt, dirs, args, values, render, k + 1) <==>
      x in Counts(fmt, dirs, args, values, render, k) || StoredBy(fmt, dirs, args, values, render, k, x)
  {
    hide Slice, TextStart, Formatted, Counts;
    CountsLast(fmt, dirs, args, values, render, k);
  }

  /** The values stored are exactly those of the `%n` directives. */
  lemma {:induction false} CountsAreExact<V>(fmt: string, dirs: seq<Directive>, args: seq<ArgType>, values: seq<V>,
          render: (string, seq<V>) -> string, k: nat, x: (Size, nat))
    requires k <= |dirs|
    ensures x in Counts(fmt, dirs, args, values, render, k) <==>
      exists j :: 0 <= j < k && StoredBy(fmt, dirs, args, values, render, j, x)
  {
    hide StoredBy, Counts;
    if k == 0 {
      NothingStored(fmt, dirs, args, values, render);
    } else {
      CountsAreExact(fmt, dirs, args, values, render, k - 1, x);
      LastStores(fmt, dirs, args, values, render, k - 1, x);
    }
  }

  lemma FormattedFits<V>(fmt: string, st: State, end: nat, values: seq<V>, render: (string, seq<V>) -> string, k: nat)
    requires k <= |st.dirs|
    ensures |Formatted(fmt, st.dirs, st.args, values, render, k)| <= |Expanded(fmt, st, end, values, render)|
  {
    hide Formatted, Slice, Converted, TextStart;
    FormattedGrows(fmt, st.dirs, st.args, values, render, k, |st.dirs|);
  }

  /** Directive k begins at or after the end of the one before. */
  lemma {:induction false} PlacedInOrder(fmt: string, dirs: seq<Directive>, end: nat, k: nat)
    requires Placed(fmt, dirs, end) && end <= |fmt| && k <= |dirs|
    ensures TextStart(dirs, k) <= (if k < |dirs| then dirs[k].dir_start else end) <= |fmt|
    ensures k < |dirs| ==> dirs[k].dir_start < dirs[k].dir_end <= |fmt|
    decreases |dirs|
  {
    if k < |dirs| {
      var init := dirs[..|dirs| - 1];
      PlacedInOrder(fmt, init, dirs[|dirs| - 1].dir_start, k);
    }
  }

  /** The output buffer; its array stands for the pointer and its allocated size. */
  class Output {
    var result: array<char>
    var length: nat
    var stores: seq<(Size, nat)>

    ghost predicate Valid()
      reads this
    {
      length <= result.Length < SIZE_MAX
    }

    ghost function Text(): string
      requires Valid()
      reads this, result
    {
      result[..length]
    }

    constructor (resultbuf: array<char>)
      requires resultbuf.Length < SIZE_MAX
      ensures Valid() && result == resultbuf && Text() == "" && stores == []
    {
      result, length, stores := resultbuf, 0, [];
    }

    /** ENSURE_ALLOCATION: room for `needed` characters, or false when the size of the allocation overflows. */
    method EnsureAllocation(needed: Size) returns (ok: bool)
      requires Valid()
      modifies this`result
      ensures Valid() && Text() == old(Text()) && (result == old(result) || fresh(result))
      ensures ok ==> result.Length >= needed
      ensures old(result.Length) <= result.Length
      ensures result.Length == old(result.Length)
        || (needed > old(result.Length) && result.Length <= MaxNat(needed, 2 * old(result.Length) + 12))
      ensures !ok ==> needed > old(result.Length) && SIZE_MAX <= MaxNat(needed, 2 * old(result.Length) + 12)
    {
      if needed > result.Length {
        var room := if result.Length > 0 then Xtimes(result.Length, 2) else 12;
        if needed > room {
          room := needed;
        }
        if Overflows(Xtimes(room, 1)) {
          return false;
        }
        var memory := new char[room];
        for i := 0 to length
          invariant unchanged(this) && memory[..i] == result[..i]
        {
          memory[i] := result[i];
        }
        result := memory;
      }
      return true;
    }

    /** `memcpy` to the end of the output. */
    method Append(text: string)
      requires Valid() && length + |text| <= result.Length
      modifies this`length, result
      ensures Valid() && Text() == old(Text()) + text
    {
      ghost var was := Text();
      for i := 0 to |text|
        invariant unchanged(this) && result[..length + i] == was + text[..i]
      {
        result[length + i] := text[i];
      }
      assert text[..|text|] == text;
      length := length + |text|;
    }

    /** Appends the format's text between two pointers. */
    method AppendText(fmt: string, start: nat, end: nat, ghost total: nat, ghost limit: nat) returns (ok: bool)
      requires Valid() && start <= end <= |fmt| && end - start <= SIZE_MAX
      requires length + end - start <= total && Small(result.Length, total, limit)
      modifies this, result
      ensures Valid() && (result == old(result) || fresh(result)) && stores == old(stores)
      ensures Small(result.Length, total, limit)
      ensures ok ==> Text() == old(Text()) + Slice(fmt, start, end)
      ensures !ok ==> TooBig(total)
    {
      ok := true;
      if start != end {
        ok := EnsureAllocation(Xsum(length, end - start));
        if ok {
          Append(fmt[start..end]);
        }
      }
    }

    /** The final reallocation. */
    method Shrink()
      requires Valid() && length < result.Length
      modifies this`result
      ensures Valid() && Text() == old(Text()) && fresh(result)
      ensures result.Length == length + 1 && result[length] == old(result[length])
    {
      var memory := new char[length + 1];
      for i := 0 to length + 1
        invariant unchanged(this) && memory[..i] == result[..i]
      {
        memory[i] := result[i];
      }
      assert memory[..length] == memory[..length + 1][..length];
      assert memory[length] == memory[..length + 1][length];
      result := memory;
    }

    /** A C99 `snprintf` into the free part of the buffer: cut to fit, always ended, and the full count returned. */
    method Snprintf(maxlen: nat, out: string) returns (count: nat)
      requires Valid() && maxlen == result.Length - length && maxlen > 0
      modifies result
      ensures count == |out| && Text() == old(Text())
      ensures count < maxlen ==> result[..length + count] == old(Text()) + out && result[length + count] == '\0'
    {
      count := 0;
      ghost var was := Text();
      while count < |out|
        invariant count <= |out| && unchanged(this) && Text() == was
        invariant count < maxlen ==> result[..length + count] == was + out[..count]
      {
        if count < maxlen - 1 {
          result[length + count] := out[count];
        }
        count := count + 1;
      }
      if count < maxlen {
        result[length + count] := '\0';
        assert out[..count] == out;
      } else {
        result[result.Length - 1] := '\0';
      }
    }

    /** Room for the terminator that `snprintf` needs. */
    method PrepareCount(ghost total: nat, ghost limit: nat) returns (ok: bool)
      requires Valid() && length <= total && Small(result.Length, total, limit)
      modifies this, result
      ensures Valid() && (result == old(result) || fresh(result)) && length == old(length) && stores == old(stores)
      ensures Small(result.Length, total, limit) && Text() == old(Text())
      ensures ok ==> length < result.Length && result[length] == '\0'
      ensures !ok ==> TooBig(total)
    {
      ok := EnsureAllocation(Xsum(length, 1));
      if ok {
        result[length] := '\0';
        assert Text() == old(Text());
      }
    }

    /** Formats one operand, growing the buffer until the result fits. */
    method AppendConverted(out: string, ghost total: nat, ghost limit: nat) returns (ok: bool)
      requires Valid() && |out| < SIZE_MAX && length + |out| <= total && Small(result.Length, total, limit)
      modifies this, result
      ensures Valid() && (result == old(result) || fresh(result)) && stores == old(stores)
      ensures Small(result.Length, total, limit)
      ensures ok ==> Text() == old(Text()) + out
      ensures !ok ==> TooBig(total)
    {
      ok := PrepareCount(total, limit);
      if !ok {
        return;
      }
      while true
        invariant Valid() && length < result.Length && Text() == old(Text()) && length == old(length)
          && stores == old(stores)
        invariant (result == old(result) || fresh(result)) && Small(result.Length, total, limit)
        decreases SIZE_MAX - result.Length
      {
        var maxlen := result.Length - length;
        var count := Snprintf(maxlen, out);
        assert count < maxlen ==> result[length + count] == '\0';
        if count < maxlen {
          length := length + count;
          return true;
        }
        var n := Xmax(Xsum(length, count), Xtimes(result.Length, 2));
        ok := EnsureAllocation(n);
        if !ok {
          return;
        }
      }
    }

    /** A directive that takes an `snprintf` call. */
    method Convert<V>(fmt: string, d: Directive, args: seq<ArgType>, values: seq<V>,
            render: (string, seq<V>) -> string, max_width: Size, max_precision: Size, buf: array<char>,
            ghost total: nat, ghost limit: nat)
      returns (ok: bool)
      requires Valid() && Trusted(d, args, max_width, max_precision) && |values| == |args| && d.dir_end <= |fmt|
      requires d.conversion != '%' && d.conversion != 'n'
      requires buf != result && buf.Length == Needed(max_width, max_precision) && !Overflows(buf.Length)
      requires |Converted(fmt, d, args, values, render)| < SIZE_MAX
      requires length + |Converted(fmt, d, args, values, render)| <= total && Small(result.Length, total, limit)
      modifies this, result, buf
      ensures Valid() && (result == old(result) || fresh(result)) && stores == old(stores)
      ensures Small(result.Length, total, limit)
      ensures ok ==> Text() == old(Text()) + Converted(fmt, d, args, values, render)
      ensures !ok ==> TooBig(total)
    {
      var ty := args[d.arg_index];
      assert Printable(ty) by { ArgumentsPresent(d, args, max_width, max_precision); }
      var p := Rebuild(fmt, d, ty, max_width, max_precision, buf);
      hide Rebuilt, Trusted;
      assert buf[..p + 1] == buf[..p + 4][..p + 1] == Rebuilt(fmt, d, ty);
      var operands: seq<V> := [];
      if d.width_arg_index != ARG_NONE {
        assert args[d.width_arg_index] == Int by { ArgumentsPresent(d, args, max_width, max_precision); }
        operands := operands + [values[d.width_arg_index]];
      }
      if d.precision_arg_index != ARG_NONE {
        assert args[d.precision_arg_index] == Int by { ArgumentsPresent(d, args, max_width, max_precision); }
        operands := operands + [values[d.precision_arg_index]];
      }
      operands := operands + [values[d.arg_index]];
      assert operands == Operands(d, values);
      ok := AppendConverted(render(buf[..p + 1], operands), total, limit);
    }

    /** One directive. Both consistency checks of the source are assertions here. */
    method Execute<V>(fmt: string, d: Directive, args: seq<ArgType>, values: seq<V>,
            render: (string, seq<V>) -> string, max_width: Size, max_precision: Size, buf: array<char>,
            ghost total: nat, ghost limit: nat)
      returns (ok: bool)
      requires Valid() && Trusted(d, args, max_width, max_precision) && |values| == |args| && d.dir_end <= |fmt|
      requires buf != result && buf.Length == Needed(max_width, max_precision) && !Overflows(buf.Length)
      requires |Converted(fmt, d, args, values, render)| < SIZE_MAX
      requires length + |Converted(fmt, d, args, values, render)| <= total && Small(result.Length, total, limit)
      modifies this, result, buf
      ensures Valid() && (result == old(result) || fresh(result)) && Small(result.Length, total, limit)
      ensures ok ==> Text() == old(Text()) + Converted(fmt, d, args, values, render)
      ensures ok ==> stores == old(stores) + if d.conversion == 'n' then [(d.arg_index, length)] else []
      ensures !ok ==> TooBig(total)
    {
      ArgumentsPresent(d, args, max_width, max_precision);
      ok := true;
      if d.conversion == '%' {
        assert d.arg_index == ARG_NONE;
        ok := EnsureAllocation(Xsum(length, 1));
        if ok {
          Append("%");
        }
      } else {
        assert d.arg_index != ARG_NONE;
        if d.conversion == 'n' {
          assert IsCount(args[d.arg_index]);
          stores := stores + [(d.arg_index, length)];
        } else {
          hide Trusted, Converted;
          ok := Convert(fmt, d, args, values, render, max_width, max_precision, buf, total, limit);
        }
      }
    }
  }

  /** The argument types of the `snprintf` calls; any other would abort. */
  predicate Printable(ty: ArgType) {
    !ty.TypeNone? && !IsCount(ty)
  }

  /** The types that `%n` can store to; any other would abort. */
  predicate IsCount(ty: ArgType) {
    ty.CountSChar? || ty.CountShort? || ty.CountInt? || ty.CountLongInt? || ty.CountLongLongInt?
  }

  lemma ArgumentsPresent(d: Directive, args: seq<ArgType>, max_width: nat, max_precision: nat)
    requires Trusted(d, args, max_width, max_precision)
    ensures d.width_arg_index != ARG_NONE ==> d.width_arg_index < |args| && args[d.width_arg_index] == Int
    ensures d.precision_arg_index != ARG_NONE ==> d.precision_arg_index < |args| && args[d.precision_arg_index] == Int
    ensures d.arg_index != ARG_NONE <==> d.conversion != '%'
    ensures d.arg_index != ARG_NONE ==> d.arg_index < |args|
    ensures d.arg_index != ARG_NONE && d.conversion == 'n' ==> IsCount(args[d.arg_index])
    ensures d.arg_index != ARG_NONE && d.conversion != 'n' ==> Printable(args[d.arg_index])
  {
  }

  /** `printf_fetchargs` knows no type for an argument that no directive uses. */
  method FetchArgs(args: array<ArgType>, count: nat) returns (ok: bool)
    requires count <= args.Length
    ensures ok <==> TypeNone !in args[..count]
  {
    for i := 0 to count
      invariant TypeNone !in args[..i]
    {
      if args[i] == TypeNone {
        return false;
      }
    }
    return true;
  }

  /** The format is well formed and leaves no gap in the argument positions. */
  predicate Accepted(fmt: string) {
    var r := Parse(fmt, 0, INITIAL);
    r.Some? && TypeNone !in r.value.1.args
  }

  /** What `snprintf` returns is an `int`. */
  ghost predicate Counted<V(!new)>(render: (string, seq<V>) -> string) {
    forall s, v :: |render(s, v)| < 0x8000_0000
  }

  datatype Outcome = Invalid | OutOfMemory | Done

  /** The allocation stays proportional to the whole output. */
  predicate Small(size: nat, total: nat, limit: nat) {
    size <= limit && 2 * total + 24 <= limit
  }

  predicate TooBig(total: nat) {
    2 * total + 24 >= SIZE_MAX
  }

  /** The output and the stores after k directives. */
  ghost predicate Progress<V>(o: Output, fmt: string, st: State, values: seq<V>, render: (string, seq<V>) -> string,
          k: nat)
    requires k <= |st.dirs|
    reads o, o.result
  {
    && o.Valid() && o.Text() == Formatted(fmt, st.dirs, st.args, values, render, k)
    && o.stores == Counts(fmt, st.dirs, st.args, values, render, k)
  }

  /** The text before directive k and the directive. */
  method FormatOne<V(!new)>(o: Output, fmt: string, d: Directive, ghost st: State, end: nat, args: seq<ArgType>,
          values: seq<V>, render: (string, seq<V>) -> string, max_width: Size, max_precision: Size, buf: array<char>,
          cp: nat, ghost k: nat, ghost limit: nat)
    returns (ok: bool)
    requires k < |st.dirs| && d == st.dirs[k] && args == st.args && |values| == |args|
    requires Progress(o, fmt, st, values, render, k)
    requires cp == TextStart(st.dirs, k) && cp <= d.dir_start <= |fmt| < SIZE_MAX && d.dir_end <= |fmt|
    requires Trusted(d, args, max_width, max_precision) && Counted(render)
    requires buf != o.result && buf.Length == Needed(max_width, max_precision) && !Overflows(buf.Length)
    requires Small(o.result.Length, |Expanded(fmt, st, end, values, render)|, limit)
    modifies o, o.result, buf
    ensures o.Valid() && (o.result == old(o.result) || fresh(o.result))
    ensures Small(o.result.Length, |Expanded(fmt, st, end, values, render)|, limit)
    ensures ok ==> Progress(o, fmt, st, values, render, k + 1)
    ensures !ok ==> TooBig(|Expanded(fmt, st, end, values, render)|)
  {
    hide Counts, Formatted, Converted, Slice, Expanded, Trusted, Counted, TextStart, Needed, TooBig;
    ghost var total := |Expanded(fmt, st, end, values, render)|;
    FormattedStep(fmt, st.dirs, st.args, values, render, k);
    FormattedFits(fmt, st, end, values, render, k + 1);
    CountsStep(fmt, st.dirs, st.args, values, render, k);
    ConvertedCounted(fmt, d, args, values, render);
    TextLength(fmt, cp, d.dir_start);
    ok := o.AppendText(fmt, cp, d.dir_start, total, limit);
    if ok {
      ok := o.Execute(fmt, d, args, values, render, max_width, max_precision, buf, total, limit);
    }
  }

  lemma CountsStep<V>(fmt: string, dirs: seq<Directive>, args: seq<ArgType>, values: seq<V>,
          render: (string, seq<V>) -> string, k: nat)
    requires k < |dirs|
    ensures Counts(fmt, dirs, args, values, render, k + 1) == Counts(fmt, dirs, args, values, render, k)
      + if dirs[k].conversion == 'n'
        then [(dirs[k].arg_index, |Formatted(fmt, dirs, args, values, render, k + 1)|)] else []
  {
    hide Formatted;
  }

  lemma TextLength(fmt: string, start: nat, end: nat)
    requires start <= end <= |fmt|
    ensures |Slice(fmt, start, end)| == end - start
  {
  }

  lemma ConvertedCounted<V(!new)>(fmt: string, d: Directive, args: seq<ArgType>, values: seq<V>,
          render: (string, seq<V>) -> string)
    requires Counted(render)
    ensures |Converted(fmt, d, args, values, render)| < SIZE_MAX
  {
  }

  /** The loop over the directives and the text between them. */
  method FormatAll<V(!new)>(o: Output, fmt: string, p: Parsing, end: nat, values: seq<V>,
          render: (string, seq<V>) -> string, buf: array<char>, ghost limit: nat)
    returns (ok: bool)
    requires o.Valid() && p.Valid() && |fmt| < SIZE_MAX && Counted(render)
    requires Parse(fmt, 0, INITIAL) == Some((end, p.St())) && p.dir[p.d_count].dir_start == end
    requires |values| == p.a_count && Progress(o, fmt, p.St(), values, render, 0)
    requires p.max_width_length <= SIZE_MAX && p.max_precision_length <= SIZE_MAX
    requires buf != o.result && buf.Length == Needed(p.max_width_length, p.max_precision_length)
      && !Overflows(buf.Length)
    requires Small(o.result.Length, |Expanded(fmt, p.St(), end, values, render)|, limit)
    modifies o, o.result, buf
    ensures o.Valid() && (o.result == old(o.result) || fresh(o.result))
    ensures Small(o.result.Length, |Expanded(fmt, p.St(), end, values, render)|, limit)
    ensures ok ==> o.Text() == Expanded(fmt, p.St(), end, values, render)
    ensures ok ==> o.stores == Counts(fmt, p.St().dirs, p.St().args, values, render, p.d_count)
    ensures !ok ==> TooBig(|Expanded(fmt, p.St(), end, values, render)|)
  {
    hide Parse, Expanded, Formatted, Placed, Trusted, Counts;
    ghost var st := p.St();
    ghost var total := |Expanded(fmt, st, end, values, render)|;
    ParsedFormat(fmt);
    var cp, i := 0, 0;
    var args := p.arg[..p.a_count];
    while i < p.d_count
      invariant (o.result == old(o.result) || fresh(o.result)) && Small(o.result.Length, total, limit)
      invariant i <= p.d_count && cp == TextStart(st.dirs, i) && Progress(o, fmt, st, values, render, i)
    {
      PlacedInOrder(fmt, st.dirs, end, i);
      hide Progress;
      ok := FormatOne(o, fmt, p.dir[i], st, end, args, values, render, p.max_width_length, p.max_precision_length, buf,
        cp, i, limit);
      if !ok {
        return;
      }
      cp := p.dir[i].dir_end;
      i := i + 1;
    }
    PlacedInOrder(fmt, st.dirs, end, i);
    LastText(fmt, st, end, values, render);
    ok := o.AppendText(fmt, cp, p.dir[i].dir_start, total, limit);
  }

  lemma LastText<V>(fmt: string, st: State, end: nat, values: seq<V>, render: (string, seq<V>) -> string)
    requires TextStart(st.dirs, |st.dirs|) <= end <= |fmt|
    ensures Expanded(fmt, st, end, values, render) ==
      Formatted(fmt, st.dirs, st.args, values, render, |st.dirs|) + Slice(fmt, TextStart(st.dirs, |st.dirs|), end)
    ensures |Expanded(fmt, st, end, values, render)| ==
      |Formatted(fmt, st.dirs, st.args, values, render, |st.dirs|)| + end - TextStart(st.dirs, |st.dirs|)
  {
    hide Formatted, TextStart;
  }

  /** The final NUL, and the return of what the buffer has too much. */
  method Close(o: Output, resultbuf: array<char>, ghost total: nat, ghost limit: nat) returns (ok: bool)
    requires o.Valid() && o.length <= total && Small(o.result.Length, total, limit)
    modifies o, o.result
    ensures o.Valid() && o.Text() == old(o.Text()) && o.stores == old(o.stores)
    ensures ok ==> o.length < o.result.Length && o.result[o.length] == '\0'
    ensures ok ==> o.result == resultbuf || o.result.Length == o.length + 1
    ensures !ok ==> TooBig(total)
  {
    ok := o.PrepareCount(total, limit);
    if ok && o.result != resultbuf && o.length + 1 < o.result.Length {
      o.Shrink();
    }
  }

  /**
   `vasnprintf`. A format is refused exactly when it is malformed or leaves an
   argument position unused; otherwise the text, its terminator and the counts
   stored by `%n` are right, and memory is the only way to fail.
   */
  method Vasnprintf<V(!new)>(resultbuf: array<char>, fmt: string, values: seq<V>, render: (string, seq<V>) -> string)
    returns (outcome: Outcome, o: Output)
    requires resultbuf.Length < SIZE_MAX && |fmt| < SIZE_MAX && Counted(render)
    requires Accepted(fmt) ==> |values| == |Parse(fmt, 0, INITIAL).value.1.args|
    modifies resultbuf
    ensures outcome.Invalid? <==> !Accepted(fmt)
    ensures outcome.Done? ==> var (end, st) := Parse(fmt, 0, INITIAL).value;
      && o.Valid() && o.Text() == Expanded(fmt, st, end, values, render)
      && o.length < o.result.Length && o.result[o.length] == '\0'
      && o.stores == Counts(fmt, st.dirs, st.args, values, render, |st.dirs|)
    ensures outcome.OutOfMemory? ==> var (end, st) := Parse(fmt, 0, INITIAL).value;
      2 * |fmt| + 13 >= SIZE_MAX || TooBig(|Expanded(fmt, st, end, values, render)|)
  {
    hide Parse, Expanded, Formatted, Placed, Trusted;
    o := new Output(resultbuf);
    var ok, p, end := ParseFormat(fmt);
    if !ok {
      return Invalid, o;
    }
    ok := FetchArgs(p.arg, p.a_count);
    if !ok {
      return Invalid, o;
    }
    ParsedFormat(fmt);
    var buf_neededlength := Needed(p.max_width_length, p.max_precision_length);
    if Overflows(Xtimes(buf_neededlength, 1)) {
      return OutOfMemory, o;
    }
    var buf := new char[buf_neededlength];
    ghost var st := p.St();
    ghost var total := |Expanded(fmt, st, end, values, render)|;
    ghost var limit := MaxNat(resultbuf.Length, 2 * total + 24);
    NothingYet(o, fmt, st, values, render);
    ok := FormatAll(o, fmt, p, end, values, render, buf, limit);
    if !ok {
      return OutOfMemory, o;
    }
    ok := Close(o, resultbuf, total, limit);
    return if ok then Done else OutOfMemory, o;
  }

  lemma NothingYet<V>(o: Output, fmt: string, st: State, values: seq<V>, render: (string, seq<V>) -> string)
    requires o.Valid() && o.Text() == "" && o.stores == []
    ensures Progress(o, fmt, st, values, render, 0)
  {
  }
}
