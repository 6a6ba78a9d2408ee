/**
 Format strings as `printf_parse` reads them: the directives found, and the
 table of argument types they demand. Sizes are those of an LP64 machine with
 `long long`, `long double`, `wint_t` and `wchar_t`.
 */
module PrintfSyntax {
  import opened CStrings
  import opened Options
  import opened SaturatingSize

  /** ARG_NONE: no argument is consumed. */
  const ARG_NONE: Size := SIZE_MAX

  /** A pointer that points nowhere. */
  const NULL := -1

  const SIZEOF_ARGUMENT: Size := 32
  const SIZEOF_DIRECTIVE: Size := 88

  datatype ArgType =
    | TypeNone
    | SChar | UChar | Short | UShort | Int | UInt | LongInt | ULongInt | LongLongInt | ULongLongInt
    | Double | LongDouble | Char | WideChar | Str | WideString | Pointer
    | CountSChar | CountShort | CountInt | CountLongInt | CountLongLongInt

  /** A parsed directive; positions are offsets in the format. */
  datatype Directive = Directive(
    dir_start: nat, dir_end: nat, flags: set<char>,
    width_start: int, width_end: int, width_arg_index: Size,
    precision_start: int, precision_end: int, precision_arg_index: Size,
    conversion: char, arg_index: Size)

  /** What the parser has accumulated; the allocation sizes decide when memory computations overflow. */
  datatype State = State(
    dirs: seq<Directive>, args: seq<ArgType>, arg_posn: Size,
    a_allocated: Size, d_allocated: Size, max_width: nat, max_precision: nat)

  /** The end of the digits that start at i. */
  function SkipDigits(fmt: string, i: nat): (j: nat)
    requires i <= |fmt|
    ensures i <= j <= |fmt| && !IsDigit(CharAt(fmt, j))
    ensures forall k :: i <= k < j ==> IsDigit(fmt[k])
    decreases |fmt| - i
  {
    if IsDigit(CharAt(fmt, i)) then SkipDigits(fmt, i + 1) else i
  }

  /** The number that the digits of s append to n. */
  function Value(n: nat, s: string): nat
    requires forall c :: c in s ==> IsDigit(c)
    decreases |s|
  {
    if s == [] then n else Value(n * 10 + DigitValue(s[0]), s[1..])
  }

  /** The same with checked sizes. */
  function Saturated(n: Size, s: string): Size
    requires forall c :: c in s ==> IsDigit(c)
    decreases |s|
  {
    if s == [] then n else Saturated(Xsum(Xtimes(n, 10), DigitValue(s[0])), s[1..])
  }

  /** The saturating loop yields the true value, or SIZE_MAX when it does not fit, for any number of digits. */
  lemma {:induction false} SaturatedIsMin(v: nat, s: string)
    requires forall c :: c in s ==> IsDigit(c)
    ensures Saturated(Min(v, SIZE_MAX), s) == Min(Value(v, s), SIZE_MAX)
    decreases |s|
  {
    if s != [] {
      SaturatedIsMin(v * 10 + DigitValue(s[0]), s[1..]);
    }
  }

  /** An explicit argument position `digits$` at i. */
  datatype Ref = NoRef | BadRef | ArgRef(index: Size, next: nat)

  function ScanRef(fmt: string, i: nat): (r: Ref)
    requires i <= |fmt|
    ensures r.ArgRef? ==> i < r.next <= |fmt| && r.index < ARG_NONE - 1
  {
    var j := SkipDigits(fmt, i);
    if j == i || CharAt(fmt, j) != '$' then NoRef
    else
      var n := Saturated(0, fmt[i..j]);
      if n == 0 || Overflows(n) then BadRef else ArgRef(n - 1, j + 1)
  }

  predicate IsFlag(c: char) {
    c == '\'' || c == '-' || c == '+' || c == ' ' || c == '#' || c == '0'
  }

  function ScanFlags(fmt: string, i: nat, flags: set<char>): (r: (set<char>, nat))
    requires i <= |fmt|
    ensures i <= r.1 <= |fmt| && flags <= r.0 && forall c :: c in r.0 ==> c in flags || IsFlag(c)
    decreases |fmt| - i
  {
    if IsFlag(CharAt(fmt, i)) then ScanFlags(fmt, i + 1, flags + {fmt[i]}) else (flags, i)
  }

  function Nones(n: nat): (s: seq<ArgType>)
    ensures |s| == n && forall i :: 0 <= i < n ==> s[i] == TypeNone
  {
    seq(n, _ => TypeNone)
  }

  /** The allocation that makes room for argument n. */
  function Grown(a_allocated: Size, n: Size): Size {
    if n < a_allocated then a_allocated
    else
      var twice := Xtimes(a_allocated, 2);
      if twice <= n then Xsum(n, 1) else twice
  }

  /** REGISTER_ARG: argument n must have type ty. */
  function Register(st: State, n: Size, ty: ArgType): Option<State> {
    var a_allocated := Grown(st.a_allocated, n);
    if n >= st.a_allocated && Overflows(Xtimes(a_allocated, SIZEOF_ARGUMENT)) then None
    else
      var args := if n < |st.args| then st.args else st.args + Nones(n + 1 - |st.args|);
      if args[n] == TypeNone then Some(st.(args := args[n := ty], a_allocated := a_allocated))
      else if args[n] == ty then Some(st.(args := args, a_allocated := a_allocated))
      else None
  }

  /** The next argument in order. */
  function TakeNext(st: State, ty: ArgType): Option<(Size, State)> {
    if st.arg_posn == ARG_NONE then None
    else
      match Register(st.(arg_posn := st.arg_posn + 1), st.arg_posn, ty)
      case None => None
      case Some(st') => Some((st.arg_posn, st'))
  }

  function TakeAt(st: State, n: Size, ty: ArgType): Option<(Size, State)> {
    match Register(st, n, ty)
    case None => None
    case Some(st') => Some((n, st'))
  }

  /** A width or precision: where it stands, the argument it takes, and where parsing goes on. */
  datatype Piece = Piece(start: int, end: int, index: Size, next: nat, st: State)

  /** The argument of a `*` that ends at i. */
  function StarArgument(fmt: string, i: nat, start: int, st: State): (r: Option<Piece>)
    requires i <= |fmt|
    ensures r.Some? ==> i <= r.value.next <= |fmt| && r.value.start == start && r.value.end == i
  {
    match ScanRef(fmt, i)
    case BadRef => None
    case ArgRef(n, next) =>
      (match TakeAt(st, n, Int)
       case None => None
       case Some((index, st')) => Some(Piece(start, i, index, next, st')))
    case NoRef =>
      match TakeNext(st, Int)
      case None => None
      case Some((index, st')) => Some(Piece(start, i, index, i, st'))
  }

  function MaxNat(a: nat, b: nat): nat { if a < b then b else a }

  function ScanWidth(fmt: string, i: nat, st: State): (r: Option<Piece>)
    requires i <= |fmt|
    ensures r.Some? ==> i <= r.value.next <= |fmt|
  {
    if CharAt(fmt, i) == '*' then
      StarArgument(fmt, i + 1, i, st.(max_width := MaxNat(st.max_width, 1)))
    else
      var j := SkipDigits(fmt, i);
      if j == i then Some(Piece(NULL, NULL, ARG_NONE, i, st))
      else Some(Piece(i, j, ARG_NONE, j, st.(max_width := MaxNat(st.max_width, j - i))))
  }

  function ScanPrecision(fmt: string, i: nat, st: State): (r: Option<Piece>)
    requires i <= |fmt|
    ensures r.Some? ==> i <= r.value.next <= |fmt|
  {
    if CharAt(fmt, i) != '.' then Some(Piece(NULL, NULL, ARG_NONE, i, st))
    else if CharAt(fmt, i + 1) == '*' then
      StarArgument(fmt, i + 2, i, st.(max_precision := MaxNat(st.max_precision, 2)))
    else
      var j := SkipDigits(fmt, i + 1);
      Some(Piece(i, j, ARG_NONE, j, st.(max_precision := MaxNat(st.max_precision, j - i))))
  }

  /** The effect of one size specifier on the local `flags` word: bits 1, 2, 4, then multiples of 8. */
  function SizeStep(flags: nat, c: char): Option<nat> {
    if c == 'h' then
      Some(if flags % 2 == 0 then flags + 1 else if flags / 2 % 2 == 0 then flags + 2 else flags)
    else if c == 'L' then Some(if flags / 4 % 2 == 0 then flags + 4 else flags)
    else if c == 'l' || c == 'j' || c == 'z' || c == 'Z' || c == 't' then Some(flags + 8)
    else None
  }

  function ScanSizes(fmt: string, i: nat, flags: nat): (r: (nat, nat))
    requires i <= |fmt|
    ensures i <= r.1 <= |fmt|
    decreases |fmt| - i
  {
    match SizeStep(flags, CharAt(fmt, i))
    case None => (flags, i)
    case Some(f) => if i < |fmt| then ScanSizes(fmt, i + 1, f) else (flags, i)
  }

  /** The larger integer types by size flags. */
  function BySize(flags: nat, longlong: ArgType, long: ArgType, schar: ArgType, short: ArgType,
          plain: ArgType): ArgType {
    if flags >= 16 || flags / 4 % 2 == 1 then longlong
    else if flags >= 8 then long
    else if flags / 2 % 2 == 1 then schar
    else if flags % 2 == 1 then short
    else plain
  }

  /** The conversion character as stored, and the type of argument it takes. */
  function Conversion(c: char, flags: nat): Option<(char, ArgType)> {
    if c == 'd' || c == 'i' then Some((c, BySize(flags, LongLongInt, LongInt, SChar, Short, Int)))
    else if c == 'o' || c == 'u' || c == 'x' || c == 'X' then
      Some((c, BySize(flags, ULongLongInt, ULongInt, UChar, UShort, UInt)))
    else if c == 'f' || c == 'F' || c == 'e' || c == 'E' || c == 'g' || c == 'G' || c == 'a' || c == 'A' then
      Some((c, if flags >= 16 || flags / 4 % 2 == 1 then LongDouble else Double))
    else if c == 'c' then Some((c, if flags >= 8 then WideChar else Char))
    else if c == 'C' then Some(('c', WideChar))
    else if c == 's' then Some((c, if flags >= 8 then WideString else Str))
    else if c == 'S' then Some(('s', WideString))
    else if c == 'p' then Some((c, Pointer))
    else if c == 'n' then Some((c, BySize(flags, CountLongLongInt, CountLongInt, CountSChar, CountShort, CountInt)))
    else if c == '%' then Some((c, TypeNone))
    else None
  }

  /** The argument of the conversion itself. */
  function TakeArgument(explicit: Ref, st: State, ty: ArgType): Option<(Size, State)> {
    if ty == TypeNone then Some((ARG_NONE, st))
    else if explicit.ArgRef? then TakeAt(st, explicit.index, ty)
    else TakeNext(st, ty)
  }

  /** The growth of the directive table after one more entry. */
  function GrowDirectives(st: State): Option<State> {
    if |st.dirs| < st.d_allocated then Some(st)
    else
      var d_allocated := Xtimes(st.d_allocated, 2);
      if Overflows(Xtimes(d_allocated, SIZEOF_DIRECTIVE)) then None else Some(st.(d_allocated := d_allocated))
  }

  /** The end of a directive: size specifiers, conversion, and its argument. */
  function FinishDirective(fmt: string, i: nat, explicit: Ref, flags: set<char>, w: Piece,
          p: Piece): (r: Option<(nat, State)>)
    requires p.next <= |fmt|
    ensures r.Some? ==> p.next < r.value.0 <= |fmt|
  {
    var (sizes, k) := ScanSizes(fmt, p.next, 0);
    match Conversion(CharAt(fmt, k), sizes)
    case None => None
    case Some((c, ty)) =>
      if k == |fmt| then None
      else
        match TakeArgument(explicit, p.st, ty)
        case None => None
        case Some((index, st')) =>
          var d := Directive(i, k + 1, flags, w.start, w.end, w.index, p.start, p.end, p.index, c, index);
          match GrowDirectives(st'.(dirs := st'.dirs + [d]))
          case None => None
          case Some(st'') => Some((k + 1, st''))
  }

  /** The directive whose percent sign is at i. */
  function ParseDirective(fmt: string, i: nat, st: State): (r: Option<(nat, State)>)
    requires i < |fmt|
    ensures r.Some? ==> i < r.value.0 <= |fmt|
  {
    var explicit := ScanRef(fmt, i + 1);
    if explicit.BadRef? then None
    else
      var (flags, j) := ScanFlags(fmt, if explicit.ArgRef? then explicit.next else i + 1, {});
      match ScanWidth(fmt, j, st)
      case None => None
      case Some(w) =>
        match ScanPrecision(fmt, w.next, w.st)
        case None => None
        case Some(p) => FinishDirective(fmt, i, explicit, flags, w, p)
  }

  /** The whole format, from i on: the final state and the end of the format, or an error. */
  function Parse(fmt: string, i: nat, st: State): (r: Option<(nat, State)>)
    requires i <= |fmt|
    ensures r.Some? ==> i <= r.value.0 <= |fmt| && CharAt(fmt, r.value.0) == '\0'
    decreases |fmt| - i
  {
    if CharAt(fmt, i) == '\0' then Some((i, st))
    else if fmt[i] != '%' then Parse(fmt, i + 1, st)
    else
      match ParseDirective(fmt, i, st)
      case None => None
      case Some((next, st')) => Parse(fmt, next, st')
  }

  const INITIAL: State := State([], [], 0, 0, 1, 0, 0)
}
