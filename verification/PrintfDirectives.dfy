/**
 What a successful parse guarantees to the code that trusts it: where the
 directives are, and that every argument they refer to exists with the type
 they demand.
 */
module PrintfDirectives {
  import opened CStrings
  import opened Options
  import opened SaturatingSize
  import opened PrintfSyntax

  predicate NoPercent(fmt: string, i: nat, j: nat) {
    forall k :: i <= k < j && k < |fmt| ==> fmt[k] != '%'
  }

  /**
   The directives are disjoint, in order, each opened by a percent sign, and the text between them and
   up to `end` has none.
   */
  ghost predicate Placed(fmt: string, dirs: seq<Directive>, end: nat)
    decreases |dirs|
  {
    if dirs == [] then NoPercent(fmt, 0, end)
    else
      var d := dirs[|dirs| - 1];
      && d.dir_start < d.dir_end <= end && d.dir_end <= |fmt| && fmt[d.dir_start] == '%'
      && NoPercent(fmt, d.dir_end, end)
      && Placed(fmt, dirs[..|dirs| - 1], d.dir_start)
  }

  /** The types a conversion may demand. */
  predicate TypeFits(conversion: char, ty: ArgType) {
    match conversion
    case 'd' => ty.LongLongInt? || ty.LongInt? || ty.SChar? || ty.Short? || ty.Int?
    case 'i' => ty.LongLongInt? || ty.LongInt? || ty.SChar? || ty.Short? || ty.Int?
    case 'o' => ty.ULongLongInt? || ty.ULongInt? || ty.UChar? || ty.UShort? || ty.UInt?
    case 'u' => ty.ULongLongInt? || ty.ULongInt? || ty.UChar? || ty.UShort? || ty.UInt?
    case 'x' => ty.ULongLongInt? || ty.ULongInt? || ty.UChar? || ty.UShort? || ty.UInt?
    case 'X' => ty.ULongLongInt? || ty.ULongInt? || ty.UChar? || ty.UShort? || ty.UInt?
    case 'c' => ty.Char? || ty.WideChar?
    case 's' => ty.Str? || ty.WideString?
    case 'p' => ty.Pointer?
    case 'n' => ty.CountLongLongInt? || ty.CountLongInt? || ty.CountSChar? || ty.CountShort? || ty.CountInt?
    case '%' => ty.TypeNone?
    case _ => ty.Double? || ty.LongDouble?
  }

  lemma ConversionFits(c: char, flags: nat)
    requires Conversion(c, flags).Some?
    ensures TypeFits(Conversion(c, flags).value.0, Conversion(c, flags).value.1)
    ensures Conversion(c, flags).value.1 == TypeNone <==> Conversion(c, flags).value.0 == '%'
  {
  }

  /** Argument `index`, if one is taken, is in the table with type ty. */
  predicate Has(args: seq<ArgType>, index: Size, ty: ArgType) {
    index != ARG_NONE ==> index < |args| && args[index] == ty
  }

  /** The width or precision at start..end lies inside the directive and within the recorded maximum. */
  predicate Within(d: Directive, start: int, end: int, limit: nat) {
    (start == NULL && end == NULL) || (d.dir_start < start < end <= d.dir_end && end - start <= limit)
  }

  /** What the caller of the parser trusts about one directive. */
  ghost predicate Trusted(d: Directive, args: seq<ArgType>, max_width: nat, max_precision: nat) {
    && (forall c :: c in d.flags ==> IsFlag(c))
    && Within(d, d.width_start, d.width_end, max_width) && Within(d, d.precision_start, d.precision_end, max_precision)
    && Has(args, d.width_arg_index, Int) && Has(args, d.precision_arg_index, Int)
    && (d.conversion == '%' <==> d.arg_index == ARG_NONE)
    && (d.arg_index != ARG_NONE ==> d.arg_index < |args| && TypeFits(d.conversion, args[d.arg_index]))
  }

  /** The argument table fits its allocation, and the directive table has room for the closing entry. */
  predicate Fits(st: State) {
    |st.args| <= st.a_allocated && |st.dirs| < st.d_allocated
  }

  ghost predicate Good(fmt: string, i: nat, st: State) {
    && Fits(st) && Placed(fmt, st.dirs, i)
    && forall k :: 0 <= k < |st.dirs| ==> Trusted(st.dirs[k], st.args, st.max_width, st.max_precision)
  }

  /** Later arguments do not disturb earlier ones. */
  predicate Extends(a: seq<ArgType>, b: seq<ArgType>) {
    |a| <= |b| && forall i :: 0 <= i < |a| && a[i] != TypeNone ==> b[i] == a[i]
  }

  /** st' is st with more arguments and larger maxima, and nothing else new. */
  ghost predicate Grows(st: State, st': State) {
    && st'.dirs == st.dirs && st'.d_allocated == st.d_allocated
    && Extends(st.args, st'.args) && (Fits(st) ==> Fits(st'))
    && st.max_width <= st'.max_width && st.max_precision <= st'.max_precision
  }

  lemma GrowsTransitively(a: State, b: State, c: State)
    requires Grows(a, b) && Grows(b, c)
    ensures Grows(a, c)
  {
  }

  lemma RegisterGrows(st: State, n: Size, ty: ArgType)
    requires Register(st, n, ty).Some? && ty != TypeNone && n != ARG_NONE
    ensures Grows(st, Register(st, n, ty).value) && Has(Register(st, n, ty).value.args, n, ty)
  {
    var args := if n < |st.args| then st.args else st.args + Nones(n + 1 - |st.args|);
    assert Extends(st.args, args);
    GrownIsEnough(st.a_allocated, n);
  }

  lemma GrownIsEnough(a: Size, n: Size)
    requires n != ARG_NONE
    ensures Grown(a, n) >= a && Grown(a, n) > n
  {
  }

  lemma HasStays(st: State, st': State, index: Size, ty: ArgType)
    requires Grows(st, st') && Has(st.args, index, ty) && ty != TypeNone
    ensures Has(st'.args, index, ty)
  {
  }

  /** What scanning a width or precision gives. */
  ghost predicate PieceOk(i: nat, st: State, p: Piece) {
    && Grows(st, p.st) && Has(p.st.args, p.index, Int)
    && ((p.start == NULL && p.end == NULL) || i <= p.start < p.end <= p.next)
  }

  lemma StarGrows(fmt: string, i: nat, start: nat, st: State)
    requires start < i <= |fmt| && StarArgument(fmt, i, start, st).Some?
    ensures PieceOk(start, st, StarArgument(fmt, i, start, st).value)
    ensures st.max_width == StarArgument(fmt, i, start, st).value.st.max_width
    ensures st.max_precision == StarArgument(fmt, i, start, st).value.st.max_precision
  {
    var st1 := if st.arg_posn == ARG_NONE then st else st.(arg_posn := st.arg_posn + 1);
    match ScanRef(fmt, i)
    case BadRef =>
    case ArgRef(n, _) => RegisterGrows(st, n, Int);
    case NoRef => RegisterGrows(st1, st.arg_posn, Int);
  }

  lemma WidthGrows(fmt: string, i: nat, st: State)
    requires i <= |fmt| && ScanWidth(fmt, i, st).Some?
    ensures var w := ScanWidth(fmt, i, st).value; PieceOk(i, st, w) && w.end - w.start <= w.st.max_width
  {
    hide StarArgument;
    if CharAt(fmt, i) == '*' {
      StarGrows(fmt, i + 1, i, st.(max_width := MaxNat(st.max_width, 1)));
    }
  }

  lemma PrecisionGrows(fmt: string, i: nat, st: State)
    requires i <= |fmt| && ScanPrecision(fmt, i, st).Some?
    ensures var p := ScanPrecision(fmt, i, st).value; PieceOk(i, st, p) && p.end - p.start <= p.st.max_precision
  {
    hide StarArgument;
    if CharAt(fmt, i) == '.' && CharAt(fmt, i + 1) == '*' {
      StarGrows(fmt, i + 2, i, st.(max_precision := MaxNat(st.max_precision, 2)));
    }
  }

  lemma ArgumentGrows(explicit: Ref, st: State, ty: ArgType)
    requires TakeArgument(explicit, st, ty).Some? && (explicit.ArgRef? ==> explicit.index < ARG_NONE)
    ensures var (index, st') := TakeArgument(explicit, st, ty).value;
      Grows(st, st') && (index == ARG_NONE <==> ty == TypeNone) && Has(st'.args, index, ty)
  {
    if ty != TypeNone {
      if explicit.ArgRef? {
        RegisterGrows(st, explicit.index, ty);
      } else {
        RegisterGrows(st.(arg_posn := st.arg_posn + 1), st.arg_posn, ty);
      }
    }
  }

  /** Directives parsed before stay trusted while the tables grow. */
  lemma TrustedStays(d: Directive, st: State, st': State)
    requires Grows(st, st') && Trusted(d, st.args, st.max_width, st.max_precision)
    ensures Trusted(d, st'.args, st'.max_width, st'.max_precision)
  {
    assert d.arg_index != ARG_NONE ==> st.args[d.arg_index] != TypeNone;
  }

  lemma DirectivesGrow(st: State)
    requires GrowDirectives(st).Some? && 0 < |st.dirs| <= st.d_allocated
    ensures var st' := GrowDirectives(st).value;
      st'.(d_allocated := st.d_allocated) == st && |st'.dirs| < st'.d_allocated
  {
  }

  /** Directive d, added to st, makes st'. */
  ghost predicate Adds(st: State, d: Directive, st': State) {
    && st'.dirs == st.dirs + [d] && Fits(st') && Grows(st, st'.(dirs := st.dirs, d_allocated := st.d_allocated))
    && Trusted(d, st'.args, st'.max_width, st'.max_precision)
  }

  lemma FinishAdds(fmt: string, i: nat, explicit: Ref, flags: set<char>, w: Piece, p: Piece, st: State, next: nat,
          st': State)
    returns (d: Directive)
    requires i < p.next <= |fmt| && FinishDirective(fmt, i, explicit, flags, w, p) == Some((next, st'))
    requires (explicit.ArgRef? ==> explicit.index < ARG_NONE) && (forall c :: c in flags ==> IsFlag(c))
    requires Fits(st) && PieceOk(i + 1, st, w) && PieceOk(i + 1, w.st, p) && w.next <= p.next
    requires w.end - w.start <= w.st.max_width && p.end - p.start <= p.st.max_precision
    ensures d.dir_start == i && d.dir_end == next && Adds(st, d, st')
  {
    var (sizes, k) := ScanSizes(fmt, p.next, 0);
    var (c, ty) := Conversion(CharAt(fmt, k), sizes).value;
    ConversionFits(CharAt(fmt, k), sizes);
    ArgumentGrows(explicit, p.st, ty);
    var (index, last) := TakeArgument(explicit, p.st, ty).value;
    d := Directive(i, k + 1, flags, w.start, w.end, w.index, p.start, p.end, p.index, c, index);
    DirectivesGrow(last.(dirs := last.dirs + [d]));
    hide ScanSizes, Conversion, TakeArgument, TypeFits, GrowDirectives;
    GrowsTransitively(w.st, p.st, last);
    GrowsTransitively(st, w.st, last);
    HasStays(w.st, last, w.index, Int);
    HasStays(p.st, last, p.index, Int);
  }

  lemma DirectiveAdds(fmt: string, i: nat, st: State) returns (d: Directive)
    requires i < |fmt| && ParseDirective(fmt, i, st).Some? && Fits(st)
    ensures var (next, st') := ParseDirective(fmt, i, st).value;
      d.dir_start == i && d.dir_end == next && Adds(st, d, st')
  {
    var explicit := ScanRef(fmt, i + 1);
    var (flags, j) := ScanFlags(fmt, if explicit.ArgRef? then explicit.next else i + 1, {});
    WidthGrows(fmt, j, st);
    var w := ScanWidth(fmt, j, st).value;
    PrecisionGrows(fmt, w.next, w.st);
    var p := ScanPrecision(fmt, w.next, w.st).value;
    hide ScanRef, ScanFlags, ScanWidth, ScanPrecision, FinishDirective;
    d := FinishAdds(fmt, i, explicit, flags, w, p, st, ParseDirective(fmt, i, st).value.0,
      ParseDirective(fmt, i, st).value.1);
  }

  lemma DirectiveKeepsGood(fmt: string, i: nat, st: State)
    requires i < |fmt| && fmt[i] == '%' && Good(fmt, i, st) && ParseDirective(fmt, i, st).Some?
    ensures Good(fmt, ParseDirective(fmt, i, st).value.0, ParseDirective(fmt, i, st).value.1)
  {
    var (next, st') := ParseDirective(fmt, i, st).value;
    var d := DirectiveAdds(fmt, i, st);
    hide ParseDirective, Trusted, TypeFits;
    forall k | 0 <= k < |st'.dirs| ensures Trusted(st'.dirs[k], st'.args, st'.max_width, st'.max_precision) {
      if k < |st.dirs| {
        TrustedStays(st.dirs[k], st, st'.(dirs := st.dirs, d_allocated := st.d_allocated));
      }
    }
    assert st'.dirs[..|st'.dirs| - 1] == st.dirs;
  }

  lemma PlacedStretches(fmt: string, dirs: seq<Directive>, i: nat)
    requires Placed(fmt, dirs, i) && i < |fmt| && fmt[i] != '%'
    ensures Placed(fmt, dirs, i + 1)
  {
  }

  /** The parser keeps all it promises, to the end of the format. */
  lemma {:induction false} ParseKeepsGood(fmt: string, i: nat, st: State)
    requires i <= |fmt| && Good(fmt, i, st) && Parse(fmt, i, st).Some?
    ensures Good(fmt, Parse(fmt, i, st).value.0, Parse(fmt, i, st).value.1)
    decreases |fmt| - i
  {
    hide ParseDirective, Trusted;
    if CharAt(fmt, i) != '\0' {
      if fmt[i] != '%' {
        PlacedStretches(fmt, st.dirs, i);
        ParseKeepsGood(fmt, i + 1, st);
      } else {
        DirectiveKeepsGood(fmt, i, st);
        var (next, st') := ParseDirective(fmt, i, st).value;
        ParseKeepsGood(fmt, next, st');
      }
    }
  }

  /** The recorded maxima are lengths of pieces of the format. */
  predicate Bounded(fmt: string, st: State) {
    st.max_width <= |fmt| && st.max_precision <= |fmt|
  }

  lemma FinishKeepsMaxima(fmt: string, i: nat, explicit: Ref, flags: set<char>, w: Piece, p: Piece)
    requires p.next <= |fmt| && FinishDirective(fmt, i, explicit, flags, w, p).Some?
    ensures FinishDirective(fmt, i, explicit, flags, w, p).value.1.max_width == p.st.max_width
    ensures FinishDirective(fmt, i, explicit, flags, w, p).value.1.max_precision == p.st.max_precision
  {
    hide ScanSizes, Conversion;
  }

  lemma DirectiveKeepsBounded(fmt: string, i: nat, st: State)
    requires i < |fmt| && Bounded(fmt, st) && ParseDirective(fmt, i, st).Some?
    ensures Bounded(fmt, ParseDirective(fmt, i, st).value.1)
  {
    hide ScanRef, ScanFlags, ScanWidth, ScanPrecision, FinishDirective;
    var explicit := ScanRef(fmt, i + 1);
    var (flags, j) := ScanFlags(fmt, if explicit.ArgRef? then explicit.next else i + 1, {});
    WidthKeepsBounded(fmt, j, st);
    var w := ScanWidth(fmt, j, st).value;
    PrecisionKeepsBounded(fmt, w.next, w.st);
    var p := ScanPrecision(fmt, w.next, w.st).value;
    FinishKeepsMaxima(fmt, i, explicit, flags, w, p);
  }

  lemma WidthKeepsBounded(fmt: string, i: nat, st: State)
    requires i <= |fmt| && Bounded(fmt, st) && ScanWidth(fmt, i, st).Some?
    ensures Bounded(fmt, ScanWidth(fmt, i, st).value.st)
  {
    hide StarArgument;
    if CharAt(fmt, i) == '*' {
      StarGrows(fmt, i + 1, i, st.(max_width := MaxNat(st.max_width, 1)));
    }
  }

  lemma PrecisionKeepsBounded(fmt: string, i: nat, st: State)
    requires i <= |fmt| && Bounded(fmt, st) && ScanPrecision(fmt, i, st).Some?
    ensures Bounded(fmt, ScanPrecision(fmt, i, st).value.st)
  {
    hide StarArgument;
    if CharAt(fmt, i) == '.' && CharAt(fmt, i + 1) == '*' {
      StarGrows(fmt, i + 2, i, st.(max_precision := MaxNat(st.max_precision, 2)));
    }
  }

  lemma {:induction false} ParseKeepsBounded(fmt: string, i: nat, st: State)
    requires i <= |fmt| && Bounded(fmt, st) && Parse(fmt, i, st).Some?
    ensures Bounded(fmt, Parse(fmt, i, st).value.1)
    decreases |fmt| - i
  {
    hide ParseDirective;
    if CharAt(fmt, i) != '\0' {
      if fmt[i] != '%' {
        ParseKeepsBounded(fmt, i + 1, st);
      } else {
        DirectiveKeepsBounded(fmt, i, st);
        var (next, st') := ParseDirective(fmt, i, st).value;
        ParseKeepsBounded(fmt, next, st');
      }
    }
  }

  /** A format that parses: everything the caller trusts, in one statement. */
  lemma ParsedFormat(fmt: string)
    requires Parse(fmt, 0, INITIAL).Some?
    ensures var (end, st) := Parse(fmt, 0, INITIAL).value;
      && CharAt(fmt, end) == '\0' && Placed(fmt, st.dirs, end) && Bounded(fmt, st)
      && forall k :: 0 <= k < |st.dirs| ==> Trusted(st.dirs[k], st.args, st.max_width, st.max_precision)
  {
    assert Good(fmt, 0, INITIAL);
    ParseKeepsGood(fmt, 0, INITIAL);
    ParseKeepsBounded(fmt, 0, INITIAL);
  }
}
