/**
 Rebuilding a directive for `snprintf` keeps its meaning: read again, the text
 has the same flags, width, precision and conversion, and asks for the argument
 type that default promotion makes of the original one.
 */
module DirectiveMeaning {
  import opened CStrings
  import opened Options
  import opened PrintfSyntax
  import opened PrintfDirectives
  import opened DirectiveBuffer

  predicate AllDigits(s: string) { forall i :: 0 <= i < |s| ==> IsDigit(s[i]) }

  /** What a width can look like in the format, and whether it takes an argument. */
  predicate WidthText(s: string, star: bool) {
    if star then s == "*" else AllDigits(s) && (s != "" ==> s[0] != '0')
  }

  predicate PrecisionText(s: string, star: bool) {
    if star then s == ".*" else s == "" || (s[0] == '.' && AllDigits(s[1..]))
  }

  /** The pieces of a directive are well formed. */
  predicate Readable(fmt: string, d: Directive) {
    && WidthText(Slice(fmt, d.width_start, d.width_end), d.width_arg_index != ARG_NONE)
    && PrecisionText(Slice(fmt, d.precision_start, d.precision_end), d.precision_arg_index != ARG_NONE)
    && forall c :: c in d.flags ==> IsFlag(c)
  }

  lemma ScannedWidth(fmt: string, i: nat, st: State)
    requires i <= |fmt| && !IsFlag(CharAt(fmt, i)) && ScanWidth(fmt, i, st).Some?
    ensures var w := ScanWidth(fmt, i, st).value; WidthText(Slice(fmt, w.start, w.end), w.index != ARG_NONE)
  {
    if CharAt(fmt, i) == '*' {
      assert fmt[i..i + 1] == "*";
      StarTakesArgument(fmt, i + 1, i, st.(max_width := MaxNat(st.max_width, 1)));
    }
  }

  lemma StarTakesArgument(fmt: string, i: nat, start: int, st: State)
    requires i <= |fmt| && StarArgument(fmt, i, start, st).Some?
    ensures StarArgument(fmt, i, start, st).value.index != ARG_NONE
  {
    hide Register;
  }

  lemma ScannedPrecision(fmt: string, i: nat, st: State)
    requires i <= |fmt| && ScanPrecision(fmt, i, st).Some?
    ensures var p := ScanPrecision(fmt, i, st).value; PrecisionText(Slice(fmt, p.start, p.end), p.index != ARG_NONE)
  {
    if CharAt(fmt, i) == '.' {
      if CharAt(fmt, i + 1) == '*' {
        assert fmt[i..i + 2] == ".*";
        StarTakesArgument(fmt, i + 2, i, st.(max_precision := MaxNat(st.max_precision, 2)));
      } else {
        var j := SkipDigits(fmt, i + 1);
        assert fmt[i..j][1..] == fmt[i + 1..j];
      }
    }
  }

  lemma {:induction false} FlagsEnd(fmt: string, i: nat, flags: set<char>)
    requires i <= |fmt|
    ensures !IsFlag(CharAt(fmt, ScanFlags(fmt, i, flags).1))
    decreases |fmt| - i
  {
    if IsFlag(CharAt(fmt, i)) {
      FlagsEnd(fmt, i + 1, flags + {fmt[i]});
    }
  }

  /** The directive that a parse adds. */
  function LastOf(st: State): Directive
    requires st.dirs != []
  {
    st.dirs[|st.dirs| - 1]
  }

  lemma FinishedDirective(fmt: string, i: nat, explicit: Ref, flags: set<char>, w: Piece, p: Piece)
    requires p.next <= |fmt| && FinishDirective(fmt, i, explicit, flags, w, p).Some?
    ensures FinishDirective(fmt, i, explicit, flags, w, p).value.1.dirs != []
    ensures var d := LastOf(FinishDirective(fmt, i, explicit, flags, w, p).value.1);
      && d.flags == flags && d.width_start == w.start && d.width_end == w.end && d.width_arg_index == w.index
      && d.precision_start == p.start && d.precision_end == p.end && d.precision_arg_index == p.index
  {
    hide ScanSizes, Conversion, TakeArgument;
  }

  /** Every directive that is parsed has well-formed pieces. */
  lemma ParsedIsReadable(fmt: string, i: nat, st: State)
    requires i < |fmt| && ParseDirective(fmt, i, st).Some?
    ensures ParseDirective(fmt, i, st).value.1.dirs != [] && Readable(fmt, LastOf(ParseDirective(fmt, i, st).value.1))
  {
    hide ScanRef, ScanFlags, ScanWidth, ScanPrecision, FinishDirective, WidthText, PrecisionText, Slice;
    var explicit := ScanRef(fmt, i + 1);
    var start := if explicit.ArgRef? then explicit.next else i + 1;
    var (flags, j) := ScanFlags(fmt, start, {});
    FlagsEnd(fmt, start, {});
    ScannedWidth(fmt, j, st);
    var w := ScanWidth(fmt, j, st).value;
    ScannedPrecision(fmt, w.next, w.st);
    var p := ScanPrecision(fmt, w.next, w.st).value;
    FinishedDirective(fmt, i, explicit, flags, w, p);
  }

  /** Default argument promotion. */
  function Promoted(ty: ArgType): ArgType {
    match ty
    case SChar => Int
    case Short => Int
    case UChar => UInt
    case UShort => UInt
    case _ => ty
  }

  /** What the modifier of a type adds up to. */
  function SizeFlags(ty: ArgType): nat {
    match ty
    case LongLongInt => 16
    case ULongLongInt => 16
    case LongInt => 8
    case ULongInt => 8
    case WideChar => 8
    case WideString => 8
    case LongDouble => 4
    case _ => 0
  }

  /** Some conversion in a format is stored as c, takes ty, and is passed to `snprintf`. */
  ghost predicate Convertible(c: char, ty: ArgType) {
    c != '%' && c != 'n' && exists c0, sizes :: Conversion(c0, sizes) == Some((c, ty))
  }

  /** The characters that stand before a conversion. */
  predicate IsPrefixChar(c: char) {
    IsFlag(c) || IsDigit(c) || c == '*' || c == '.' || c == 'l' || c == 'L'
  }

  predicate IsInteger(c: char) {
    c == 'd' || c == 'i' || c == 'o' || c == 'u' || c == 'x' || c == 'X'
  }

  lemma IntegerAgain(c: char, sizes: nat)
    requires IsInteger(c)
    ensures Conversion(c, sizes).Some?
    ensures var (_, ty) := Conversion(c, sizes).value;
      Conversion(c, SizeFlags(ty)) == Some((c, Promoted(ty))) && Promoted(ty) != TypeNone
  {
  }

  lemma OtherAgain(c0: char, sizes: nat)
    requires !IsInteger(c0) && c0 != '%' && c0 != 'n' && Conversion(c0, sizes).Some?
    ensures var (c, ty) := Conversion(c0, sizes).value;
      Conversion(c, SizeFlags(ty)) == Some((c, Promoted(ty))) && Promoted(ty) != TypeNone
  {
  }

  lemma ConvertedAgain(c: char, ty: ArgType)
    requires Convertible(c, ty)
    ensures Conversion(c, SizeFlags(ty)) == Some((c, Promoted(ty))) && Promoted(ty) != TypeNone
  {
    hide BySize, SizeFlags, Promoted;
    var c0, sizes :| Conversion(c0, sizes) == Some((c, ty));
    if IsInteger(c0) {
      IntegerAgain(c0, sizes);
    } else {
      OtherAgain(c0, sizes);
    }
  }

  predicate IsSizeChar(c: char) {
    c == 'h' || c == 'L' || c == 'l' || c == 'j' || c == 'z' || c == 'Z' || c == 't'
  }

  /** The argument type of an integer conversion by its modifier, where `long long` is wider than `long`. */
  lemma IntegerModifiers(text: string, i: nat, m: string, c: char, longlong: ArgType, long: ArgType, schar: ArgType,
          short: ArgType, plain: ArgType)
    requires i <= |text| && text[i..] == m + [c] && (IsInteger(c) || c == 'n')
    requires (longlong, long, schar, short, plain) ==
      if c == 'n' then (CountLongLongInt, CountLongInt, CountSChar, CountShort, CountInt)
      else if c == 'd' || c == 'i' then (LongLongInt, LongInt, SChar, Short, Int)
      else (ULongLongInt, ULongInt, UChar, UShort, UInt)
    ensures m == "" ==> TypeRead(text, i, m, c, plain)
    ensures m == "h" ==> TypeRead(text, i, m, c, short)
    ensures m == "hh" ==> TypeRead(text, i, m, c, schar)
    ensures m == "l" || m == "j" || m == "z" || m == "Z" || m == "t" ==> TypeRead(text, i, m, c, long)
    ensures m == "ll" || m == "L" ==> TypeRead(text, i, m, c, longlong)
  {
    assert |m| <= 2 ==> forall k :: 0 <= k <= |m| ==> text[i + k] == text[i..][k];
    if |m| == 1 && IsSizeChar(m[0]) {
      OneModifier(text, i, c);
    } else if m == "hh" || m == "ll" {
      TwoModifiers(text, i, c);
    } else if m == "" {
      assert ScanSizes(text, i, 0) == (0, i);
    }
    hide ScanSizes;
  }

  /** Size specifiers and conversion at i are read as m and c, and ask for ty. */
  predicate TypeRead(text: string, i: nat, m: string, c: char, ty: ArgType)
    requires i <= |text|
  {
    var (flags, k) := ScanSizes(text, i, 0);
    k == i + |m| && Conversion(c, flags) == Some((c, ty))
  }

  lemma OneModifier(text: string, i: nat, c: char)
    requires i + 2 <= |text| && text[i + 1] == c && (IsInteger(c) || c == 'n') && SizeStep(0, text[i]).Some?
    ensures ScanSizes(text, i, 0) == (SizeStep(0, text[i]).value, i + 1)
  {
    var f := SizeStep(0, text[i]).value;
    assert SizeStep(f, c) == None;
    assert ScanSizes(text, i + 1, f) == (f, i + 1);
  }

  lemma TwoModifiers(text: string, i: nat, c: char)
    requires i + 3 <= |text| && text[i + 2] == c && (IsInteger(c) || c == 'n')
    requires text[i] == text[i + 1] && (text[i] == 'h' || text[i] == 'l')
    ensures ScanSizes(text, i, 0) == (if text[i] == 'h' then 3 else 16, i + 2)
  {
    var f := if text[i] == 'h' then 3 else 16;
    assert SizeStep(f, c) == None;
    assert ScanSizes(text, i + 2, f) == (f, i + 2);
    assert ScanSizes(text, i + 1, SizeStep(0, text[i]).value) == (f, i + 2);
  }

  lemma ConversionChar(c: char, sizes: nat)
    requires Conversion(c, sizes).Some?
    ensures var letter := Conversion(c, sizes).value.0; !IsSizeChar(letter) && letter != '$' && !IsPrefixChar(letter)
  {
    hide BySize;
  }

  lemma ConversionIsNoPrefix(c: char, ty: ArgType)
    requires Convertible(c, ty)
    ensures SizeStep(SizeFlags(ty), c) == None && c != '$' && !IsPrefixChar(c)
  {
    var c0, sizes :| Conversion(c0, sizes) == Some((c, ty));
    ConversionChar(c0, sizes);
    hide Conversion, SizeFlags, IsPrefixChar;
  }

  lemma {:induction false} DigitsRead(text: string, i: nat, ds: string, rest: string)
    requires i <= |text| && text[i..] == ds + rest && AllDigits(ds) && rest != "" && !IsDigit(rest[0])
    ensures SkipDigits(text, i) == i + |ds|
    decreases |ds|
  {
    if ds != "" {
      assert text[i] == text[i..][0] && text[i + 1..] == text[i..][1..] == ds[1..] + rest;
      DigitsRead(text, i + 1, ds[1..], rest);
    } else {
      assert text[i] == text[i..][0];
    }
  }

  function Chars(s: string): set<char> { set c | c in s }

  lemma {:induction false} FlagsRead(text: string, i: nat, fs: string, rest: string, flags: set<char>)
    requires i <= |text| && text[i..] == fs + rest && (forall c :: c in fs ==> IsFlag(c)) && rest != ""
      && !IsFlag(rest[0])
    ensures ScanFlags(text, i, flags) == (flags + Chars(fs), i + |fs|)
    decreases |fs|
  {
    if fs != "" {
      assert text[i] == text[i..][0] && text[i + 1..] == text[i..][1..] == fs[1..] + rest;
      assert fs[0] in fs && fs == [fs[0]] + fs[1..];
      FlagsRead(text, i + 1, fs[1..], rest, flags + {fs[0]});
      assert flags + Chars(fs) == flags + {fs[0]} + Chars(fs[1..]);
    } else {
      assert text[i] == text[i..][0];
      assert flags + Chars(fs) == flags;
    }
  }

  lemma FlagTextTells(flags: set<char>)
    requires forall c :: c in flags ==> IsFlag(c)
    ensures Chars(FlagText(flags)) == flags && forall c :: c in FlagText(flags) ==> IsFlag(c)
  {
    forall c ensures c in FlagText(flags) <==> c in flags {
    }
  }

  lemma NoReference(text: string, i: nat)
    requires i <= |text| && '$' !in text
    ensures ScanRef(text, i) == NoRef
  {
  }

  /** n arguments so far, numbered in order. */
  predicate Counted(st: State, n: nat) {
    n == |st.args| == st.arg_posn <= 3 && st.a_allocated <= 8 && st.dirs == [] && st.d_allocated == 1
  }

  lemma NextIsCounted(st: State, n: nat, ty: ArgType)
    requires Counted(st, n) && n < 3 && ty != TypeNone
    ensures TakeNext(st, ty).Some? && TakeNext(st, ty).value.0 == n && Counted(TakeNext(st, ty).value.1, n + 1)
    ensures TakeNext(st, ty).value.1.args == st.args + [ty]
  {
    assert (st.args + Nones(1))[n := ty] == st.args + [ty];
  }

  /** A width or precision has been read from the text as it stands there. */
  predicate PieceRead(text: string, i: nat, s: string, star: bool, n: nat, p: Piece) {
    && Slice(text, p.start, p.end) == s && p.index == (if star then n else ARG_NONE) && p.next == i + |s|
    && Counted(p.st, if star then n + 1 else n)
  }

  lemma WidthRead(text: string, i: nat, s: string, star: bool, rest: string, st: State, n: nat)
    requires i <= |text| && text[i..] == s + rest && WidthText(s, star) && '$' !in text
    requires rest != "" && !IsDigit(rest[0]) && rest[0] != '*' && Counted(st, n) && n < 2
    ensures ScanWidth(text, i, st).Some? && PieceRead(text, i, s, star, n, ScanWidth(text, i, st).value)
  {
    assert text[i] == (s + rest)[0];
    assert text[i..i + |s|] == text[i..][..|s|] == s;
    if star {
      var st1 := st.(max_width := MaxNat(st.max_width, 1));
      NoReference(text, i + 1);
      NextIsCounted(st1, n, Int);
      hide TakeNext, ScanRef;
    } else {
      DigitsRead(text, i, s, rest);
    }
  }

  lemma PrecisionRead(text: string, i: nat, s: string, star: bool, rest: string, st: State, n: nat)
    requires i <= |text| && text[i..] == s + rest && PrecisionText(s, star) && '$' !in text
    requires rest != "" && !IsDigit(rest[0]) && rest[0] != '*' && rest[0] != '.' && Counted(st, n) && n < 2
    ensures ScanPrecision(text, i, st).Some? && PieceRead(text, i, s, star, n, ScanPrecision(text, i, st).value)
  {
    assert text[i] == (s + rest)[0];
    assert text[i..i + |s|] == text[i..][..|s|] == s;
    if star {
      var st1 := st.(max_precision := MaxNat(st.max_precision, 2));
      assert text[i + 1] == text[i..][1];
      NoReference(text, i + 2);
      NextIsCounted(st1, n, Int);
      hide TakeNext, ScanRef;
    } else if s != "" {
      assert text[i + 1] == text[i..][1];
      assert text[i + 1..] == text[i..][1..] == s[1..] + rest;
      DigitsRead(text, i + 1, s[1..], rest);
    }
  }

  lemma SizesRead(text: string, i: nat, c: char, ty: ArgType)
    requires i <= |text| && text[i..] == SizeModifier(ty) + [c] && SizeStep(SizeFlags(ty), c) == None
    ensures ScanSizes(text, i, 0) == (SizeFlags(ty), i + |SizeModifier(ty)|) && text[i + |SizeModifier(ty)|] == c
  {
    var m := SizeModifier(ty);
    assert forall k :: 0 <= k <= |m| ==> text[i + k] == text[i..][k];
    if |m| == 2 {
      assert ScanSizes(text, i, 0) == ScanSizes(text, i + 1, 8) == ScanSizes(text, i + 2, 16);
    } else if |m| == 1 {
      assert ScanSizes(text, i, 0) == ScanSizes(text, i + 1, SizeFlags(ty));
    }
  }

  /** The arguments of `*`, width before precision, stand before the argument of the conversion. */
  predicate InOrder(d: Directive, star: bool, star': bool, count: nat) {
    var first := if star then 1 else 0;
    var second := first + if star' then 1 else 0;
    && d.width_arg_index == (if star then 0 else ARG_NONE)
    && d.precision_arg_index == (if star' then first else ARG_NONE)
    && d.arg_index == second && count == second + 1
  }

  /** d' asks `snprintf` for what d asked for, with an argument of the promoted type behind those of `*`. */
  ghost predicate SameMeaning(fmt: string, d: Directive, ty: ArgType, text: string, d': Directive, args: seq<ArgType>) {
    && d'.flags == d.flags && d'.conversion == d.conversion
    && Slice(text, d'.width_start, d'.width_end) == Slice(fmt, d.width_start, d.width_end)
    && Slice(text, d'.precision_start, d'.precision_end) == Slice(fmt, d.precision_start, d.precision_end)
    && InOrder(d', d.width_arg_index != ARG_NONE, d.precision_arg_index != ARG_NONE, |args|)
    && d'.arg_index < |args| && args[d'.arg_index] == Promoted(ty)
  }

  /** The rebuilt text is one directive, and means the same. */
  ghost predicate Rereads(fmt: string, d: Directive, ty: ArgType) {
    var text := Rebuilt(fmt, d, ty);
    var r := ParseDirective(text, 0, INITIAL);
    && r.Some? && r.value.0 == |text| && r.value.1.dirs != []
    && SameMeaning(fmt, d, ty, text, LastOf(r.value.1), r.value.1.args)
  }

  lemma FinishRead(text: string, flags: set<char>, w: Piece, p: Piece, c: char, ty: ArgType, n: nat)
    requires p.next <= |text| && text[p.next..] == SizeModifier(ty) + [c] && Convertible(c, ty) && Counted(p.st, n)
      && n < 3
    ensures FinishDirective(text, 0, NoRef, flags, w, p).Some?
    ensures var (next, st) := FinishDirective(text, 0, NoRef, flags, w, p).value; next == |text| && st.dirs != []
    ensures var st := FinishDirective(text, 0, NoRef, flags, w, p).value.1;
      LastOf(st).conversion == c && LastOf(st).arg_index == n && |st.args| == n + 1 && st.args[n] == Promoted(ty)
  {
    hide ScanSizes, Conversion, SizeStep, TakeNext, SizeModifier, SizeFlags, Promoted;
    ConvertedAgain(c, ty);
    ConversionIsNoPrefix(c, ty);
    SizesRead(text, p.next, c, ty);
    NextIsCounted(p.st, n, Promoted(ty));
  }

  lemma InFive(a: string, f: string, w: string, p: string, m: string, c: string)
    ensures a + f + w + p + m + c == a + (f + (w + (p + (m + c))))
  {
  }

  lemma FlagsArePlain(s: string)
    requires forall c :: c in s ==> IsFlag(c)
    ensures Plain(s)
  {
  }

  lemma PiecesArePlain(w: string, star: bool, p: string, star': bool)
    requires WidthText(w, star) && PrecisionText(p, star')
    ensures Plain(w) && Plain(p)
  {
    if p != "" && !star' {
      assert p == [p[0]] + p[1..];
    }
  }

  /** What stands behind the precision: a modifier and the conversion. */
  lemma EndBegins(c: char, ty: ArgType)
    requires Convertible(c, ty)
    ensures var rest := SizeModifier(ty) + [c];
      Plain(rest) && rest != "" && !IsFlag(rest[0]) && !IsDigit(rest[0]) && rest[0] != '*' && rest[0] != '.'
  {
    hide Convertible;
    ConversionIsNoPrefix(c, ty);
  }

  lemma PlainConcat(s: string, t: string)
    requires Plain(s) && Plain(t)
    ensures Plain(s + t)
  {
  }

  predicate Plain(s: string) { '$' !in s }

  /** The first character behind the flags is not one; behind the width it is no digit. */
  lemma PartsBegin(w: string, star: bool, p: string, star': bool, rest: string)
    requires WidthText(w, star) && PrecisionText(p, star') && rest != ""
    requires !IsFlag(rest[0]) && !IsDigit(rest[0]) && rest[0] != '*'
    ensures p + rest != "" && !IsFlag((p + rest)[0]) && !IsDigit((p + rest)[0]) && (p + rest)[0] != '*'
    ensures w + (p + rest) != "" && !IsFlag((w + (p + rest))[0])
  {
    assert (p + rest)[0] == if p == "" then rest[0] else p[0];
    assert (w + (p + rest))[0] == if w == "" then (p + rest)[0] else w[0];
  }

  lemma TextAt(a: string, b: string, i: nat)
    requires i == |a|
    ensures i <= |a + b| && (a + b)[i..] == b
  {
  }

  /** The rebuilt text is a directive that means the same as the original. */
  lemma RebuiltIsReread(fmt: string, d: Directive, ty: ArgType)
    requires Readable(fmt, d) && Convertible(d.conversion, ty)
    ensures Rereads(fmt, d, ty)
  {
    hide FlagText, Slice, SizeModifier, Convertible, ScanRef, ScanFlags, ScanWidth, ScanPrecision, FinishDirective,
      WidthText, PrecisionText, IsFlag, Counted, Promoted, Plain, Chars;
    var text := Rebuilt(fmt, d, ty);
    var star, star' := d.width_arg_index != ARG_NONE, d.precision_arg_index != ARG_NONE;
    var f, w, p := FlagText(d.flags), Slice(fmt, d.width_start, d.width_end),
      Slice(fmt, d.precision_start, d.precision_end);
    var rest := SizeModifier(ty) + [d.conversion];
    InFive("%", f, w, p, SizeModifier(ty), [d.conversion]);
    EndBegins(d.conversion, ty);
    PartsBegin(w, star, p, star', rest);
    FlagTextTells(d.flags);
    FlagsArePlain(f);
    PiecesArePlain(w, star, p, star');
    PlainRebuilt(f, w, p, rest);
    RereadPieces(text, f, w, star, p, star', rest, d.conversion, ty);
  }

  lemma PlainRebuilt(f: string, w: string, p: string, rest: string)
    requires Plain(f) && Plain(w) && Plain(p) && Plain(rest)
    ensures Plain("%" + (f + (w + (p + rest))))
  {
    PlainConcat(p, rest);
    PlainConcat(w, p + rest);
    PlainConcat(f, w + (p + rest));
    PlainConcat("%", f + (w + (p + rest)));
  }

  lemma InitialCounted()
    ensures Counted(INITIAL, 0)
  {
  }

  /** A text in five parts is read part by part. */
  lemma RereadPieces(text: string, f: string, w: string, star: bool, p: string, star': bool, rest: string, c: char,
          ty: ArgType)
    requires text == "%" + (f + (w + (p + rest))) && Plain(text) && rest == SizeModifier(ty) + [c] && Convertible(c, ty)
    requires (forall x :: x in f ==> IsFlag(x)) && WidthText(w, star) && PrecisionText(p, star')
    requires !IsFlag(rest[0]) && !IsDigit(rest[0]) && rest[0] != '*' && rest[0] != '.'
    ensures ParseDirective(text, 0, INITIAL).Some? && ParseDirective(text, 0, INITIAL).value.0 == |text|
    ensures ParseDirective(text, 0, INITIAL).value.1.dirs != []
    ensures var (_, st) := ParseDirective(text, 0, INITIAL).value; var d := LastOf(st);
      && d.flags == Chars(f) && d.conversion == c
      && Slice(text, d.width_start, d.width_end) == w && Slice(text, d.precision_start, d.precision_end) == p
      && InOrder(d, star, star', |st.args|) && d.arg_index < |st.args| && st.args[d.arg_index] == Promoted(ty)
  {
    hide Slice, SizeModifier, Convertible, ScanRef, ScanFlags, ScanWidth, ScanPrecision, FinishDirective,
      WidthText, PrecisionText, IsFlag, Counted, Promoted, Chars;
    PartsBegin(w, star, p, star', rest);
    NoReference(text, 1);
    TextAt("%", f + (w + (p + rest)), 1);
    FlagsRead(text, 1, f, w + (p + rest), {});
    assert {} + Chars(f) == Chars(f);
    var i, n := 1 + |f|, if star then 1 else 0;
    assert text == ("%" + f) + (w + (p + rest));
    TextAt("%" + f, w + (p + rest), i);
    InitialCounted();
    WidthRead(text, i, w, star, p + rest, INITIAL, 0);
    var wp := ScanWidth(text, i, INITIAL).value;
    assert text == ("%" + f + w) + (p + rest);
    TextAt("%" + f + w, p + rest, wp.next);
    PrecisionRead(text, wp.next, p, star', rest, wp.st, n);
    var pp := ScanPrecision(text, wp.next, wp.st).value;
    assert text == ("%" + f + w + p) + rest;
    TextAt("%" + f + w + p, rest, pp.next);
    FinishRead(text, Chars(f), wp, pp, c, ty, if star' then n + 1 else n);
    FinishedDirective(text, 0, NoRef, Chars(f), wp, pp);
  }

  /** A directive whose pieces can be read again, and whose argument has a type its conversion takes. */
  ghost predicate Meaningful(fmt: string, d: Directive, args: seq<ArgType>) {
    && Readable(fmt, d)
    && (d.conversion != '%' && d.conversion != 'n' ==>
      d.arg_index < |args| && Convertible(d.conversion, args[d.arg_index]))
  }

  ghost predicate AllMeaningful(fmt: string, st: State) {
    forall k :: 0 <= k < |st.dirs| ==> Meaningful(fmt, st.dirs[k], st.args)
  }

  lemma FinishedConverts(fmt: string, i: nat, explicit: Ref, flags: set<char>, w: Piece, p: Piece)
    requires p.next <= |fmt| && FinishDirective(fmt, i, explicit, flags, w, p).Some?
    requires explicit.ArgRef? ==> explicit.index < ARG_NONE
    ensures var st := FinishDirective(fmt, i, explicit, flags, w, p).value.1; st.dirs != []
    ensures var st := FinishDirective(fmt, i, explicit, flags, w, p).value.1; var d := LastOf(st);
      d.conversion != '%' && d.conversion != 'n' ==>
        d.arg_index < |st.args| && Convertible(d.conversion, st.args[d.arg_index])
  {
    hide ScanSizes, Conversion, TakeArgument;
    var (sizes, k) := ScanSizes(fmt, p.next, 0);
    var (c, ty) := Conversion(CharAt(fmt, k), sizes).value;
    ConversionFits(CharAt(fmt, k), sizes);
    ArgumentGrows(explicit, p.st, ty);
    if c != '%' && c != 'n' {
      assert Convertible(c, ty);
    }
  }

  lemma ParsedConverts(fmt: string, i: nat, st: State)
    requires i < |fmt| && ParseDirective(fmt, i, st).Some?
    ensures var st' := ParseDirective(fmt, i, st).value.1; st'.dirs != [] && Meaningful(fmt, LastOf(st'), st'.args)
  {
    hide ScanRef, ScanFlags, ScanWidth, ScanPrecision, FinishDirective, Readable, Convertible;
    ParsedIsReadable(fmt, i, st);
    var explicit := ScanRef(fmt, i + 1);
    var start := if explicit.ArgRef? then explicit.next else i + 1;
    var (flags, j) := ScanFlags(fmt, start, {});
    var w := ScanWidth(fmt, j, st).value;
    var p := ScanPrecision(fmt, w.next, w.st).value;
    FinishedConverts(fmt, i, explicit, flags, w, p);
  }

  lemma MeaningStays(fmt: string, d: Directive, args: seq<ArgType>, args': seq<ArgType>)
    requires Meaningful(fmt, d, args) && Extends(args, args')
    ensures Meaningful(fmt, d, args')
  {
    hide Readable, Conversion;
    if d.conversion != '%' && d.conversion != 'n' {
      ConvertibleHasType(d.conversion, args[d.arg_index]);
    }
  }

  lemma ConvertibleHasType(c: char, ty: ArgType)
    requires Convertible(c, ty)
    ensures ty != TypeNone
  {
    ConvertedAgain(c, ty);
  }

  lemma DirectiveKeepsMeaning(fmt: string, i: nat, st: State)
    requires i < |fmt| && ParseDirective(fmt, i, st).Some? && Fits(st) && AllMeaningful(fmt, st)
    ensures Fits(ParseDirective(fmt, i, st).value.1) && AllMeaningful(fmt, ParseDirective(fmt, i, st).value.1)
  {
    hide ParseDirective, Meaningful, Trusted;
    ParsedConverts(fmt, i, st);
    var st' := ParseDirective(fmt, i, st).value.1;
    var d := DirectiveAdds(fmt, i, st);
    forall k | 0 <= k < |st'.dirs| ensures Meaningful(fmt, st'.dirs[k], st'.args) {
      if k < |st.dirs| {
        MeaningStays(fmt, st.dirs[k], st.args, st'.args);
      }
    }
  }

  lemma {:induction false} ParseKeepsMeaning(fmt: string, i: nat, st: State)
    requires i <= |fmt| && Parse(fmt, i, st).Some? && Fits(st) && AllMeaningful(fmt, st)
    ensures AllMeaningful(fmt, Parse(fmt, i, st).value.1)
    decreases |fmt| - i
  {
    hide ParseDirective, AllMeaningful, Fits;
    if CharAt(fmt, i) != '\0' {
      if fmt[i] != '%' {
        ParseKeepsMeaning(fmt, i + 1, st);
      } else {
        DirectiveKeepsMeaning(fmt, i, st);
        var (next, st') := ParseDirective(fmt, i, st).value;
        ParseKeepsMeaning(fmt, next, st');
      }
    }
  }

  /** Every directive of every format that parses means the same to `snprintf` as it does in the format. */
  lemma RebuildKeepsMeaning(fmt: string, k: nat)
    requires Parse(fmt, 0, INITIAL).Some? && k < |Parse(fmt, 0, INITIAL).value.1.dirs|
    ensures var st := Parse(fmt, 0, INITIAL).value.1;
      var d := st.dirs[k];
      d.conversion != '%' && d.conversion != 'n' ==> d.arg_index < |st.args| && Rereads(fmt, d, st.args[d.arg_index])
  {
    hide Parse, Rereads, Readable, Convertible;
    ParseKeepsMeaning(fmt, 0, INITIAL);
    var st := Parse(fmt, 0, INITIAL).value.1;
    var d := st.dirs[k];
    assert Meaningful(fmt, d, st.args);
    if d.conversion != '%' && d.conversion != 'n' {
      RebuiltIsReread(fmt, d, st.args[d.arg_index]);
    }
  }
}
