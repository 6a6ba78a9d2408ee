/**
 `printf_parse`: one pass over the format that fills two growing arrays, proved
 to compute exactly the directives and argument types of PrintfSyntax.Parse.
 */
module PrintfParse {
  import opened CStrings
  import opened Options
  import opened SaturatingSize
  import opened PrintfSyntax
  import opened PrintfDirectives

  /** The saturating loop over decimal digits. */
  method ReadNumber(fmt: string, i: nat, j: nat) returns (n: Size)
    requires i <= j <= |fmt| && forall k :: i <= k < j ==> IsDigit(fmt[k])
    ensures n == Saturated(0, fmt[i..j])
    ensures n == Min(Value(0, fmt[i..j]), SIZE_MAX)
  {
    n := 0;
    var np := i;
    while np < j
      invariant i <= np <= j && Saturated(n, fmt[np..j]) == Saturated(0, fmt[i..j])
    {
      n := Xsum(Xtimes(n, 10), DigitValue(fmt[np]));
      assert fmt[np..j][1..] == fmt[np + 1..j];
      np := np + 1;
    }
    SaturatedIsMin(0, fmt[i..j]);
  }

  method ReadDigits(fmt: string, i: nat) returns (j: nat)
    requires i <= |fmt|
    ensures j == SkipDigits(fmt, i)
  {
    j := i;
    while IsDigit(CharAt(fmt, j))
      invariant i <= j <= |fmt| && SkipDigits(fmt, j) == SkipDigits(fmt, i)
      decreases |fmt| - j
    {
      j := j + 1;
    }
  }

  /** The test for a positional argument. */
  method ReadRef(fmt: string, i: nat) returns (r: Ref)
    requires i <= |fmt|
    ensures r == ScanRef(fmt, i)
  {
    if !IsDigit(CharAt(fmt, i)) {
      return NoRef;
    }
    var np := ReadDigits(fmt, i);
    if CharAt(fmt, np) != '$' {
      return NoRef;
    }
    var n := ReadNumber(fmt, i, np);
    if n == 0 || Overflows(n) {
      return BadRef;
    }
    return ArgRef(n - 1, np + 1);
  }

  method ReadFlags(fmt: string, i: nat) returns (flags: set<char>, j: nat)
    requires i <= |fmt|
    ensures (flags, j) == ScanFlags(fmt, i, {})
  {
    flags, j := {}, i;
    while IsFlag(CharAt(fmt, j))
      invariant i <= j <= |fmt| && ScanFlags(fmt, j, flags) == ScanFlags(fmt, i, {})
      decreases |fmt| - j
    {
      flags := flags + {fmt[j]};
      j := j + 1;
    }
  }

  method ReadSizes(fmt: string, i: nat) returns (flags: nat, j: nat)
    requires i <= |fmt|
    ensures (flags, j) == ScanSizes(fmt, i, 0)
  {
    flags, j := 0, i;
    while j < |fmt| && SizeStep(flags, fmt[j]).Some?
      invariant i <= j <= |fmt| && ScanSizes(fmt, j, flags) == ScanSizes(fmt, i, 0)
    {
      flags := SizeStep(flags, fmt[j]).value;
      j := j + 1;
    }
  }

  /** The results of `printf_parse` while they are built, with its local counters. */
  class Parsing {
    var dir: array<Directive>
    var d_count: nat
    var arg: array<ArgType>
    var a_count: nat
    var arg_posn: Size
    var max_width_length: nat
    var max_precision_length: nat

    ghost predicate Valid()
      reads this
    {
      d_count < dir.Length <= SIZE_MAX && a_count <= arg.Length <= SIZE_MAX
    }

    /** The parser state the fields stand for. */
    ghost function St(): State
      requires Valid()
      reads this, dir, arg
    {
      State(dir[..d_count], arg[..a_count], arg_posn, arg.Length, dir.Length, max_width_length, max_precision_length)
    }

    constructor ()
      ensures Valid() && fresh(dir) && fresh(arg)
      ensures St() == INITIAL
    {
      dir := new Directive[1];
      arg := new ArgType[0];
      d_count, a_count, arg_posn, max_width_length, max_precision_length := 0, 0, 0, 0, 0;
    }

    /** The reallocation in REGISTER_ARG. */
    method GrowArguments(n: Size) returns (ok: bool)
      requires Valid() && n >= arg.Length && n != ARG_NONE
      modifies this
      ensures ok <==> !Overflows(Xtimes(Grown(old(arg.Length), n), SIZEOF_ARGUMENT))
      ensures ok ==>
        Valid() && fresh(arg) && n < arg.Length && St() == old(St()).(a_allocated := Grown(old(arg.Length), n))
      ensures dir == old(dir)
    {
      var a_allocated := Xtimes(arg.Length, 2);
      if a_allocated <= n {
        a_allocated := Xsum(n, 1);
      }
      if Overflows(Xtimes(a_allocated, SIZEOF_ARGUMENT)) {
        return false;
      }
      var memory := new ArgType[a_allocated];
      for i := 0 to a_count
        invariant unchanged(this) && memory[..i] == arg[..i]
      {
        memory[i] := arg[i];
      }
      arg := memory;
      return true;
    }

    /** Marks the arguments up to n as not yet typed. */
    method PadArguments(n: Size)
      requires Valid() && n < arg.Length
      modifies this`a_count, arg
      ensures Valid() && a_count > n && dir[..] == old(dir[..])
      ensures arg[..a_count] == if n < old(a_count) then old(arg[..a_count])
        else old(arg[..a_count]) + Nones(n + 1 - old(a_count))
    {
      ghost var was := arg[..a_count];
      while a_count <= n
        invariant Valid() && dir[..] == old(dir[..])
        invariant a_count <= n + 1 || a_count == old(a_count)
        invariant |was| <= a_count && arg[..a_count] == was + Nones(a_count - |was|)
      {
        arg[a_count] := TypeNone;
        a_count := a_count + 1;
      }
    }

    /** REGISTER_ARG: argument n must have type ty. */
    method RegisterArg(n: Size, ty: ArgType) returns (ok: bool)
      requires Valid() && n != ARG_NONE
      modifies this, arg
      ensures ok <==> Register(old(St()), n, ty).Some?
      ensures ok ==> Valid() && (arg == old(arg) || fresh(arg)) && dir == old(dir)
      ensures ok ==> St() == Register(old(St()), n, ty).value
    {
      ghost var st := St();
      GrownIsEnough(arg.Length, n);
      if n >= arg.Length {
        ok := GrowArguments(n);
        if !ok {
          return;
        }
      }
      ghost var st1 := St();
      assert st1 == st.(a_allocated := Grown(st.a_allocated, n));
      PadArguments(n);
      ghost var args := arg[..a_count];
      assert args == if n < |st.args| then st.args else st.args + Nones(n + 1 - |st.args|);
      if arg[n] == TypeNone {
        arg[n] := ty;
        assert arg[..a_count] == args[n := ty];
        assert St() == st1.(args := args[n := ty]);
        return true;
      }
      return arg[n] == ty;
    }

    /** What every parsing method keeps of the arrays. */
    twostate predicate SameTables()
      reads this
    {
      dir == old(dir) && (arg == old(arg) || fresh(arg))
    }

    /** Registers the next argument in order, unless the position counter has wrapped. */
    method TakeNextArg(ty: ArgType) returns (ok: bool, index: Size)
      requires Valid()
      modifies this, arg
      ensures ok <==> TakeNext(old(St()), ty).Some?
      ensures ok ==> Valid() && SameTables() && TakeNext(old(St()), ty) == Some((index, St()))
    {
      index := arg_posn;
      if index == ARG_NONE {
        return false, index;
      }
      arg_posn := arg_posn + 1;
      ok := RegisterArg(index, ty);
    }

    /** The argument of a `*` that ends at i. */
    method ReadStar(fmt: string, i: nat) returns (ok: bool, index: Size, next: nat)
      requires Valid() && i <= |fmt|
      modifies this, arg
      ensures forall start: int :: ok <==> StarArgument(fmt, i, start, old(St())).Some?
      ensures ok ==> Valid() && SameTables() && next <= |fmt|
      ensures ok ==>
        forall start: int :: StarArgument(fmt, i, start, old(St())) == Some(Piece(start, i, index, next, St()))
    {
      index, next := ARG_NONE, i;
      var r := ReadRef(fmt, i);
      match r
      case BadRef => return false, index, next;
      case ArgRef(n, after) =>
        index, next := n, after;
        ok := RegisterArg(index, Int);
      case NoRef =>
        ok, index := TakeNextArg(Int);
    }

    method ReadWidth(fmt: string, i: nat) returns (ok: bool, start: int, end: int, index: Size, next: nat)
      requires Valid() && i <= |fmt|
      modifies this, arg
      ensures ok <==> ScanWidth(fmt, i, old(St())).Some?
      ensures ok ==> Valid() && SameTables() && next <= |fmt|
      ensures ok ==> ScanWidth(fmt, i, old(St())) == Some(Piece(start, end, index, next, St()))
    {
      hide StarArgument, SkipDigits;
      ok, start, end, index, next := true, NULL, NULL, ARG_NONE, i;
      if CharAt(fmt, i) == '*' {
        start, end := i, i + 1;
        if max_width_length < 1 {
          max_width_length := 1;
        }
        ghost var st := St();
        ok, index, next := ReadStar(fmt, i + 1);
        assert ScanWidth(fmt, i, old(St())) == StarArgument(fmt, i + 1, start, st);
      } else if IsDigit(CharAt(fmt, i)) {
        start := i;
        next := ReadDigits(fmt, i);
        end := next;
        if max_width_length < next - i {
          max_width_length := next - i;
        }
      }
    }

    method ReadPrecision(fmt: string, i: nat) returns (ok: bool, start: int, end: int, index: Size, next: nat)
      requires Valid() && i <= |fmt|
      modifies this, arg
      ensures ok <==> ScanPrecision(fmt, i, old(St())).Some?
      ensures ok ==> Valid() && SameTables() && next <= |fmt|
      ensures ok ==> ScanPrecision(fmt, i, old(St())) == Some(Piece(start, end, index, next, St()))
    {
      hide StarArgument, SkipDigits;
      ok, start, end, index, next := true, NULL, NULL, ARG_NONE, i;
      if CharAt(fmt, i) == '.' {
        start := i;
        if CharAt(fmt, i + 1) == '*' {
          end := i + 2;
          if max_precision_length < 2 {
            max_precision_length := 2;
          }
          ghost var st := St();
          ok, index, next := ReadStar(fmt, i + 2);
          assert ScanPrecision(fmt, i, old(St())) == StarArgument(fmt, i + 2, start, st);
        } else {
          next := ReadDigits(fmt, i + 1);
          end := next;
          if max_precision_length < next - i {
            max_precision_length := next - i;
          }
        }
      }
    }

    /** The reallocation after a directive. */
    method GrowTable() returns (ok: bool)
      requires 0 < d_count <= dir.Length <= SIZE_MAX && a_count <= arg.Length <= SIZE_MAX
      modifies this
      ensures arg == old(arg) && (dir == old(dir) || fresh(dir))
      ensures var st := State(old(dir[..d_count]), arg[..old(a_count)], old(arg_posn), arg.Length, old(dir.Length),
                              old(max_width_length), old(max_precision_length));
        && (ok <==> GrowDirectives(st).Some?)
        && (ok ==> Valid() && GrowDirectives(st) == Some(St()))
    {
      if d_count < dir.Length {
        return true;
      }
      var d_allocated := Xtimes(dir.Length, 2);
      if Overflows(Xtimes(d_allocated, SIZEOF_DIRECTIVE)) {
        return false;
      }
      var memory := new Directive[d_allocated];
      for i := 0 to d_count
        invariant unchanged(this) && memory[..i] == dir[..i]
      {
        memory[i] := dir[i];
      }
      dir := memory;
      return true;
    }

    /** The argument of the conversion itself, explicit or the next one. */
    method TakeConversionArg(explicit: Ref, ty: ArgType) returns (ok: bool, index: Size)
      requires Valid() && (explicit.ArgRef? ==> explicit.index < ARG_NONE)
      modifies this, arg
      ensures ok <==> TakeArgument(explicit, old(St()), ty).Some?
      ensures ok ==> Valid() && SameTables() && TakeArgument(explicit, old(St()), ty) == Some((index, St()))
    {
      ok, index := true, ARG_NONE;
      if ty != TypeNone {
        if explicit.ArgRef? {
          index := explicit.index;
          ok := RegisterArg(index, ty);
        } else {
          ok, index := TakeNextArg(ty);
        }
      }
    }

    /** Stores a directive in the free entry and makes sure that there is another one. */
    method Store(d: Directive) returns (ok: bool)
      requires Valid()
      modifies this, dir
      ensures var r := GrowDirectives(old(St()).(dirs := old(St()).dirs + [d]));
        (ok <==> r.Some?) && (ok ==> Valid() && r == Some(St()))
      ensures arg == old(arg) && (dir == old(dir) || fresh(dir))
    {
      ghost var st := St();
      dir[d_count] := d;
      assert dir[..d_count + 1] == st.dirs + [d];
      d_count := d_count + 1;
      ok := GrowTable();
    }

    /** Size specifiers, conversion character and argument of the directive at i; stores it. */
    method Finish(fmt: string, i: nat, explicit: Ref, flags: set<char>, ws: int, we: int, wi: Size, ps: int, pe: int,
            pi: Size, from: nat, ghost w: Piece)
      returns (ok: bool, next: nat)
      requires Valid() && from <= |fmt| && (explicit.ArgRef? ==> explicit.index < ARG_NONE)
      requires w.start == ws && w.end == we && w.index == wi
      modifies this, dir, arg
      ensures var r := FinishDirective(fmt, i, explicit, flags, w, Piece(ps, pe, pi, from, old(St())));
        && (ok <==> r.Some?)
        && (ok ==> Valid() && next <= |fmt| && r == Some((next, St())))
      ensures ok ==> (dir == old(dir) || fresh(dir)) && (arg == old(arg) || fresh(arg))
    {
      hide ScanSizes, BySize, TakeArgument, GrowDirectives;
      next := from;
      var sizes, k := ReadSizes(fmt, from);
      var conv := Conversion(CharAt(fmt, k), sizes);
      if conv.None? {
        return false, next;
      }
      EndIsNoConversion(fmt, k, sizes);
      var (c, ty) := conv.value;
      hide Conversion;
      var index: Size;
      ok, index := TakeConversionArg(explicit, ty);
      if !ok {
        return false, next;
      }
      var d := Directive(i, k + 1, flags, ws, we, wi, ps, pe, pi, c, index);
      ok := Store(d);
      next := k + 1;
    }

    /** The directive whose percent sign is at i. */
    method ReadDirective(fmt: string, i: nat) returns (ok: bool, next: nat)
      requires Valid() && i < |fmt|
      modifies this, dir, arg
      ensures ok <==> ParseDirective(fmt, i, old(St())).Some?
      ensures ok ==> Valid() && next <= |fmt| && ParseDirective(fmt, i, old(St())) == Some((next, St()))
      ensures ok ==> (dir == old(dir) || fresh(dir)) && (arg == old(arg) || fresh(arg))
    {
      hide ScanRef, ScanFlags, ScanWidth, ScanPrecision, FinishDirective;
      next := i;
      var explicit := ReadRef(fmt, i + 1);
      if explicit.BadRef? {
        return false, next;
      }
      var flags, j := ReadFlags(fmt, if explicit.ArgRef? then explicit.next else i + 1);
      var ws, we, wi, ps, pe, pi;
      ok, ws, we, wi, j := ReadWidth(fmt, j);
      if !ok {
        return false, next;
      }
      ghost var w := Piece(ws, we, wi, j, St());
      ok, ps, pe, pi, j := ReadPrecision(fmt, j);
      if !ok {
        return false, next;
      }
      ok, next := Finish(fmt, i, explicit, flags, ws, we, wi, ps, pe, pi, j, w);
    }

    /** The loop over the format; the entry after the last directive marks the end of the format. */
    method ReadFormat(fmt: string) returns (ok: bool, end: nat)
      requires Valid() && St() == INITIAL
      modifies this, dir, arg
      ensures ok <==> Parse(fmt, 0, INITIAL).Some?
      ensures ok ==> Valid() && Parse(fmt, 0, INITIAL) == Some((end, St()))
      ensures ok ==> dir[d_count].dir_start == end
    {
      hide ParseDirective;
      var cp: nat := 0;
      while cp < |fmt| && fmt[cp] != '\0'
        invariant Valid() && cp <= |fmt| && Parse(fmt, cp, St()) == Parse(fmt, 0, INITIAL)
        invariant (dir == old(dir) || fresh(dir)) && (arg == old(arg) || fresh(arg))
        decreases |fmt| - cp
      {
        if fmt[cp] == '%' {
          ok, cp := ReadDirective(fmt, cp);
          if !ok {
            return false, 0;
          }
        } else {
          cp := cp + 1;
        }
      }
      ghost var st := St();
      dir[d_count] := CLOSING.(dir_start := cp);
      assert dir[..d_count] == st.dirs;
      return true, cp;
    }
  }

  /** The entry after the last directive; only its start is ever read. */
  const CLOSING := Directive(0, 0, {}, NULL, NULL, ARG_NONE, NULL, NULL, ARG_NONE, '\0', ARG_NONE)

  lemma EndIsNoConversion(fmt: string, k: nat, sizes: nat)
    requires k <= |fmt| && Conversion(CharAt(fmt, k), sizes).Some?
    ensures k < |fmt|
  {
  }

  /** Parses a format into fresh tables that the formatter can trust. */
  method ParseFormat(fmt: string) returns (ok: bool, p: Parsing, end: nat)
    ensures fresh(p) && (ok <==> Parse(fmt, 0, INITIAL).Some?)
    ensures ok ==> p.Valid() && Parse(fmt, 0, INITIAL) == Some((end, p.St())) && p.dir[p.d_count].dir_start == end
    ensures ok ==> CharAt(fmt, end) == '\0' && Placed(fmt, p.dir[..p.d_count], end)
    ensures ok ==> forall k :: 0 <= k < p.d_count ==>
      Trusted(p.dir[k], p.arg[..p.a_count], p.max_width_length, p.max_precision_length)
  {
    p := new Parsing();
    ok, end := p.ReadFormat(fmt);
    if ok {
      hide Parse, Trusted;
      ParsedFormat(fmt);
      assert forall k :: 0 <= k < p.d_count ==> p.dir[k] == p.St().dirs[k];
    }
  }
}
