/**
 What the parser of format strings makes of the texts that the C standard gives
 a meaning to: modifiers and conversions, and directives whose arguments are
 named by position.
 */
module PrintfReading {
  import opened CStrings
  import opened Options
  import opened SaturatingSize
  import opened PrintfSyntax
  import opened DirectiveBuffer
  import opened DirectiveMeaning

  lemma FlagsAreKnown(c: char)
    ensures IsFlag(c) <==> c in "'-+ #0"
  {
  }

  /** The argument type of a conversion that is not an integer, by its modifier. */
  lemma OtherModifiers(text: string, i: nat, m: string, c: char)
    requires i <= |text| && text[i..] == m + [c]
    ensures c in "fFeEgGaA" && m == "" ==> TypeRead(text, i, m, c, Double)
    ensures c in "fFeEgGaA" && m == "L" ==> TypeRead(text, i, m, c, LongDouble)
    ensures c == 'c' && m == "" ==> TypeRead(text, i, m, c, Char)
    ensures c == 'c' && m == "l" ==> TypeRead(text, i, m, c, WideChar)
    ensures c == 's' && m == "" ==> TypeRead(text, i, m, c, Str)
    ensures c == 's' && m == "l" ==> TypeRead(text, i, m, c, WideString)
    ensures c == 'p' && m == "" ==> TypeRead(text, i, m, c, Pointer)
    ensures c == '%' && m == "" ==> TypeRead(text, i, m, c, TypeNone)
  {
    assert |m| <= 1 ==> forall k :: 0 <= k <= |m| ==> text[i + k] == text[i..][k];
    if !IsSizeChar(c) {
      if m == "" {
        assert ScanSizes(text, i, 0) == (0, i);
      } else if m == "L" || m == "l" {
        var f := SizeStep(0, m[0]).value;
        assert ScanSizes(text, i + 1, f) == (f, i + 1);
      }
    }
    hide ScanSizes;
  }

  /** A character that is no conversion is refused, whatever its modifier. */
  lemma UnknownIsRefused(c: char, flags: nat)
    ensures Conversion(c, flags).None? <==> c !in "diouxXfFeEgGaAcCsSpn%"
  {
    hide BySize;
  }

  /** A small table takes any new position, and an old one exactly for the type it has. */
  lemma RegisterIsExact(st: State, n: Size, ty: ArgType)
    requires ty != TypeNone && n < 0x1_0000_0000 && st.a_allocated < 0x1_0000_0000
    ensures Register(st, n, ty).Some? <==> n >= |st.args| || st.args[n] == TypeNone || st.args[n] == ty
    ensures Register(st, n, ty).Some? ==>
      var st' := Register(st, n, ty).value;
      && |st'.args| == (if n < |st.args| then |st.args| else n + 1) && st'.args[n] == ty
      && (forall i :: 0 <= i < |st'.args| && i != n ==> st'.args[i] == if i < |st.args| then st.args[i] else TypeNone)
      && st' == st.(args := st'.args, a_allocated := st'.a_allocated) && st'.a_allocated <= 0x2_0000_0000
  {
  }

  lemma {:induction false} ValueLast(n: nat, s: string, c: char)
    requires IsDigit(c) && forall x :: x in s ==> IsDigit(x)
    ensures forall x :: x in s + [c] ==> IsDigit(x)
    ensures Value(n, s + [c]) == Value(n, s) * 10 + DigitValue(c)
    decreases |s|
  {
    if s == "" {
      assert (s + [c])[1..] == "" && s + [c] == [c];
    } else {
      assert s[0] in s && (forall x :: x in s[1..] ==> x in s);
      assert (s + [c])[1..] == s[1..] + [c];
      ValueLast(n * 10 + DigitValue(s[0]), s[1..], c);
    }
  }

  lemma {:induction false} ValueOfDecimal(n: nat)
    ensures Value(0, Decimal(n)) == n
  {
    if n < 10 {
      ValueLast(0, [], DigitChar(n));
      assert [] + [DigitChar(n)] == [DigitChar(n)] == Decimal(n);
    } else {
      ValueOfDecimal(n / 10);
      ValueLast(0, Decimal(n / 10), DigitChar(n % 10));
    }
  }

  lemma DigitsThenDollar(text: string, i: nat, ds: string, rest: string)
    requires i <= |text| && text[i..] == ds + ("$" + rest) && AllDigits(ds)
    ensures SkipDigits(text, i) == i + |ds| < |text| && text[i + |ds|] == '$' && text[i..i + |ds|] == ds
    ensures text[i + |ds| + 1..] == rest
  {
    DigitsRead(text, i, ds, "$" + rest);
    assert text[i..i + |ds|] == text[i..][..|ds|];
    assert text[i + |ds|] == text[i..][|ds|];
    assert text[i + |ds| + 1..] == text[i..][|ds| + 1..];
  }

  /** A position `n$`, counted from 1, names argument n - 1; position 0 is refused. */
  lemma PositionRead(text: string, i: nat, n: nat, rest: string)
    requires i <= |text| && text[i..] == Decimal(n) + ("$" + rest)
    ensures ScanRef(text, i) ==
      if n == 0 || n >= SIZE_MAX then BadRef else ArgRef(n - 1, i + |Decimal(n)| + 1)
    ensures i + |Decimal(n)| + 1 <= |text| && text[i + |Decimal(n)| + 1..] == rest
  {
    hide SkipDigits, Decimal, Saturated, ScanRef;
    var ds := Decimal(n);
    assert AllDigits(ds) by { MembersAreDigits(ds); }
    DigitsThenDollar(text, i, ds, rest);
    SaturatedDecimal(n);
    RefOfDigits(text, i, ds);
  }

  lemma MembersAreDigits(ds: string)
    requires forall c :: c in ds ==> IsDigit(c)
    ensures AllDigits(ds)
  {
    assert forall k :: 0 <= k < |ds| ==> ds[k] in ds;
  }

  lemma SaturatedDecimal(n: nat)
    ensures Saturated(0, Decimal(n)) == Min(n, SIZE_MAX)
  {
    ValueOfDecimal(n);
    SaturatedIsMin(0, Decimal(n));
    hide Saturated, Decimal, Value;
  }

  lemma RefOfDigits(text: string, i: nat, ds: string)
    requires ds != "" && (forall c :: c in ds ==> IsDigit(c))
    requires i + |ds| < |text| && SkipDigits(text, i) == i + |ds| && text[i + |ds|] == '$' && text[i..i + |ds|] == ds
    ensures var n := Saturated(0, ds);
      ScanRef(text, i) == if n == 0 || n == SIZE_MAX then BadRef else ArgRef(n - 1, i + |ds| + 1)
  {
    hide SkipDigits, Saturated;
  }

  /** The table of argument types after a `*` with a position. */
  lemma StarRead(text: string, i: nat, start: int, st: State, n: nat, rest: string)
    requires i <= |text| && text[i..] == Decimal(n) + ("$" + rest) && 0 < n < 0x1_0000_0000
    requires st.a_allocated < 0x1_0000_0000 && (n > |st.args| || st.args[n - 1] == TypeNone || st.args[n - 1] == Int)
    ensures Register(st, n - 1, Int).Some?
    ensures StarArgument(text, i, start, st)
      == Some(Piece(start, i, n - 1, i + |Decimal(n)| + 1, Register(st, n - 1, Int).value))
  {
    hide ScanRef, Register, Decimal;
    PositionRead(text, i, n, rest);
    RegisterIsExact(st, n - 1, Int);
  }

  lemma AfterOne(text: string, i: nat, c: char, rest: string)
    requires i <= |text| && text[i..] == [c] + rest
    ensures i < |text| && text[i] == c && text[i + 1..] == rest
  {
    assert text[i] == text[i..][0] && text[i + 1..] == text[i..][1..];
  }

  /** No directive yet, and the table has `int` at the places of w and p, counted from 1, and no other type. */
  predicate OnlyInts(st: State, w: nat, p: nat, size: Size) {
    && st.dirs == [] && st.d_allocated == 1 && st.a_allocated <= size
    && 0 < w <= |st.args| && 0 < p <= |st.args|
    && forall k :: 0 <= k < |st.args| ==> st.args[k] == if k == w - 1 || k == p - 1 then Int else TypeNone
  }

  /** Position n has been read behind a `*`. */
  predicate StarAt(p: Piece, n: nat, text: string, rest: string) {
    p.index == n - 1 && p.next <= |text| && text[p.next..] == rest
  }

  lemma WidthAt(text: string, i: nat, st: State, w: nat, rest: string)
    requires i <= |text| && text[i..] == "*" + (Decimal(w) + ("$" + rest)) && 0 < w < 0x1000_0000
    requires st.args == [] && st.dirs == [] && st.d_allocated == 1 && st.a_allocated <= 8
    ensures ScanWidth(text, i, st).Some?
    ensures var p := ScanWidth(text, i, st).value; StarAt(p, w, text, rest) && OnlyInts(p.st, w, w, 0x1000_0000)
  {
    AfterOne(text, i, '*', Decimal(w) + ("$" + rest));
    var st1 := st.(max_width := MaxNat(st.max_width, 1));
    StarRead(text, i + 1, i, st1, w, rest);
    PositionRead(text, i + 1, w, rest);
    RegisterIsExact(st1, w - 1, Int);
    GrowsLittle(st1, w - 1, Int);
    hide StarArgument, Decimal, ScanRef, Register;
  }

  /** The allocation stays within the largest position, or a first table of eight. */
  lemma GrowsLittle(st: State, n: Size, ty: ArgType)
    requires Register(st, n, ty).Some? && st.a_allocated <= 0x1000_0000 && n < 0x1000_0000
    ensures Register(st, n, ty).value.a_allocated <= 0x2000_0000
    ensures st.a_allocated <= 8 ==> Register(st, n, ty).value.a_allocated <= 0x1000_0000
  {
  }

  lemma PrecisionAt(text: string, i: nat, st: State, w: nat, p: nat, rest: string)
    requires i <= |text| && text[i..] == "." + ("*" + (Decimal(p) + ("$" + rest))) && 0 < p < 0x1000_0000
    requires OnlyInts(st, w, w, 0x1000_0000)
    ensures ScanPrecision(text, i, st).Some?
    ensures var q := ScanPrecision(text, i, st).value; StarAt(q, p, text, rest) && OnlyInts(q.st, w, p, 0x2000_0000)
  {
    AfterOne(text, i, '.', "*" + (Decimal(p) + ("$" + rest)));
    AfterOne(text, i + 1, '*', Decimal(p) + ("$" + rest));
    var st1 := st.(max_precision := MaxNat(st.max_precision, 2));
    PrecisionTyped(st1, w, p);
    hide StarArgument, Decimal, ScanRef, Register, OnlyInts;
    StarRead(text, i + 2, i, st1, p, rest);
    PositionRead(text, i + 2, p, rest);
  }

  lemma PrecisionTyped(st: State, w: nat, p: nat)
    requires OnlyInts(st, w, w, 0x1000_0000) && 0 < p < 0x1000_0000
    ensures p > |st.args| || st.args[p - 1] == TypeNone || st.args[p - 1] == Int
    ensures st.a_allocated < 0x1_0000_0000
    ensures Register(st, p - 1, Int).Some? && OnlyInts(Register(st, p - 1, Int).value, w, p, 0x2000_0000)
  {
    hide Register;
    RegisterIsExact(st, p - 1, Int);
    GrowsLittle(st, p - 1, Int);
  }

  /** Modifier and conversion behind the pieces, for an argument at position a. */
  lemma FinishAt(text: string, ref: Ref, flags: set<char>, wp: Piece, pp: Piece, w: nat, p: nat, a: nat, c: char,
          ty: ArgType)
    requires pp.next <= |text| && text[pp.next..] == SizeModifier(ty) + [c] && Convertible(c, ty)
    requires OnlyInts(pp.st, w, p, 0x2000_0000) && 0 < a < 0x1000_0000 && a != w && a != p
    requires ref.ArgRef? && ref.index == a - 1
    ensures FinishDirective(text, 0, ref, flags, wp, pp).Some?
    ensures var (next, st) := FinishDirective(text, 0, ref, flags, wp, pp).value;
      && next == |text| && st.dirs != [] && LastOf(st).conversion == c && LastOf(st).arg_index == a - 1
      && w <= |st.args| && p <= |st.args| && a <= |st.args|
      && st.args[w - 1] == Int && st.args[p - 1] == Int && st.args[a - 1] == Promoted(ty)
  {
    ConvertedAgain(c, ty);
    ConversionIsNoPrefix(c, ty);
    SizesRead(text, pp.next, c, ty);
    RegisterIsExact(pp.st, a - 1, Promoted(ty));
    hide ScanSizes, Conversion, SizeStep, Register, SizeModifier, SizeFlags, Promoted, Convertible;
  }

  /** A directive whose arguments are all named by position. */
  function Numbered(a: nat, f: string, w: nat, p: nat, ty: ArgType, c: char): string {
    "%" + (Decimal(a) + ("$" + (f + ("*" + (Decimal(w) + ("$" + ("." + ("*" + (Decimal(p) + ("$"
    + (SizeModifier(ty) + [c])))))))))))
  }

  lemma NumberedHead(text: string, a: nat, f: string, rest: string)
    requires text == "%" + (Decimal(a) + ("$" + (f + rest))) && 0 < a < 0x1000_0000
    requires (forall x :: x in f ==> IsFlag(x)) && rest != "" && !IsFlag(rest[0])
    ensures ScanRef(text, 1) == ArgRef(a - 1, 2 + |Decimal(a)|)
    ensures 2 + |Decimal(a)| + |f| <= |text| && text[2 + |Decimal(a)| + |f|..] == rest
    ensures ScanFlags(text, 2 + |Decimal(a)|, {}) == (Chars(f), 2 + |Decimal(a)| + |f|)
  {
    hide Decimal, ScanRef, ScanFlags, IsFlag, Chars;
    AfterOne(text, 0, '%', Decimal(a) + ("$" + (f + rest)));
    PositionRead(text, 1, a, f + rest);
    var j := 2 + |Decimal(a)|;
    FlagsRead(text, j, f, rest, {});
    assert {} + Chars(f) == Chars(f);
    assert text[j + |f|..] == text[j..][|f|..] == rest;
  }

  /** The directive d has its flags, and takes width, precision and argument from the positions named. */
  predicate TakesFrom(st: State, flags: set<char>, c: char, w: nat, p: nat, a: nat, ty: ArgType)
    requires w > 0 && p > 0 && a > 0
  {
    && st.dirs != [] && LastOf(st).flags == flags && LastOf(st).conversion == c
    && LastOf(st).width_arg_index == w - 1 && LastOf(st).precision_arg_index == p - 1 && LastOf(st).arg_index == a - 1
    && w <= |st.args| && p <= |st.args| && a <= |st.args|
    && st.args[w - 1] == Int && st.args[p - 1] == Int && st.args[a - 1] == Promoted(ty)
  }

  lemma NumberedTail(text: string, i: nat, ref: Ref, flags: set<char>, w: nat, p: nat, a: nat, ty: ArgType, c: char)
    requires 0 < a < 0x1000_0000 && 0 < w < 0x1000_0000 && 0 < p < 0x1000_0000 && a != w && a != p
    requires i <= |text| && Convertible(c, ty) && ref.ArgRef? && ref.index == a - 1
    requires text[i..] ==
      "*" + (Decimal(w) + ("$" + ("." + ("*" + (Decimal(p) + ("$" + (SizeModifier(ty) + [c])))))))
    ensures ScanWidth(text, i, INITIAL).Some?
    ensures var wp := ScanWidth(text, i, INITIAL).value; ScanPrecision(text, wp.next, wp.st).Some?
    ensures var wp := ScanWidth(text, i, INITIAL).value; var pp := ScanPrecision(text, wp.next, wp.st).value;
      var r := FinishDirective(text, 0, ref, flags, wp, pp);
      r.Some? && r.value.0 == |text| && TakesFrom(r.value.1, flags, c, w, p, a, ty)
  {
    hide Decimal, SizeModifier, Convertible, ScanWidth, ScanPrecision, FinishDirective, OnlyInts, Promoted;
    var t4 := SizeModifier(ty) + [c];
    var t3 := "." + ("*" + (Decimal(p) + ("$" + t4)));
    WidthAt(text, i, INITIAL, w, t3);
    var wp := ScanWidth(text, i, INITIAL).value;
    PrecisionAt(text, wp.next, wp.st, w, p, t4);
    var pp := ScanPrecision(text, wp.next, wp.st).value;
    FinishAt(text, ref, flags, wp, pp, w, p, a, c, ty);
    FinishedDirective(text, 0, ref, flags, wp, pp);
  }

  /** It takes width, precision and argument from the positions it names. */
  lemma NumberedIsRead(a: nat, f: string, w: nat, p: nat, ty: ArgType, c: char)
    requires 0 < a < 0x1000_0000 && 0 < w < 0x1000_0000 && 0 < p < 0x1000_0000 && a != w && a != p
    requires (forall x :: x in f ==> IsFlag(x)) && Convertible(c, ty)
    ensures var text := Numbered(a, f, w, p, ty, c);
      var r := ParseDirective(text, 0, INITIAL);
      r.Some? && r.value.0 == |text| && TakesFrom(r.value.1, Chars(f), c, w, p, a, ty)
  {
    hide Decimal, SizeModifier, Convertible, ScanRef, ScanFlags, ScanWidth, ScanPrecision, FinishDirective,
      Chars, TakesFrom, IsFlag;
    var text := Numbered(a, f, w, p, ty, c);
    var rest := "*" + (Decimal(w) + ("$" + ("." + ("*" + (Decimal(p) + ("$" + (SizeModifier(ty) + [c])))))));
    assert !IsFlag(rest[0]) by { FlagsAreKnown('*'); }
    NumberedHead(text, a, f, rest);
    NumberedTail(text, 2 + |Decimal(a)| + |f|, ArgRef(a - 1, 2 + |Decimal(a)|), Chars(f), w, p, a, ty, c);
  }
}
