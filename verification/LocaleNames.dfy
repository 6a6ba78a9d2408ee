/**
 The file name of a locale request, and the requests it inherits from.
 */
module LocaleNames {
  import opened LocaleMasks
  import opened Argz

  const PATH_SEPARATOR := ':'

  datatype Locale = Locale(language: string, territory: string, codeset: string, normalized_codeset: string,
          modifier: string)

  /** A file looked up in a list of directories, for the parts of a locale name in a mask. */
  datatype Request = Request(dirs: seq<string>, mask: Mask, locale: Locale, filename: string)

  function Part(mask: nat, bit: nat, mark: char, text: string): string {
    if Has(mask, bit) then [mark] + text else ""
  }

  function Directories(dirs: seq<string>): string {
    if dirs == [] then "" else Join(dirs, PATH_SEPARATOR) + "/"
  }

  /** The locale name with the parts in the mask. */
  function Parts(mask: nat, locale: Locale): string {
    locale.language + Part(mask, XPG_TERRITORY, '_', locale.territory) + Part(mask, XPG_CODESET, '.', locale.codeset)
    + Part(mask, XPG_NORM_CODESET, '.', locale.normalized_codeset) + Part(mask, XPG_MODIFIER, '@', locale.modifier)
  }

  function Suffix(mask: nat, locale: Locale, filename: string): string {
    Parts(mask, locale) + "/" + filename
  }

  function FileName(r: Request): string {
    Directories(r.dirs) + Suffix(r.mask, r.locale, r.filename)
  }

  /** For one mask: each directory of a real list in turn, or the same directory. */
  function Row(r: Request, cnt: Mask): (row: seq<Request>)
    ensures |row| == if |r.dirs| > 1 then |r.dirs| else 1
  {
    if |r.dirs| > 1 then seq(|r.dirs|, i requires 0 <= i < |r.dirs| => r.(dirs := [r.dirs[i]], mask := cnt))
    else [r.(mask := cnt)]
  }

  /** The rows for the usable masks below n, the largest first. */
  function Rows(r: Request, n: nat): seq<Request>
    requires n <= 16
  {
    if n == 0 then []
    else (if Usable(n - 1, r.mask) then Row(r, n - 1) else []) + Rows(r, n - 1)
  }

  /** What r inherits from: a list of directories includes the full mask, a single one does not. */
  function Successors(r: Request): seq<Request> {
    Rows(r, if |r.dirs| > 1 then r.mask + 1 else r.mask)
  }

  function DirlistCount(r: Request): nat {
    if r.dirs == [] then 1 else |r.dirs|
  }

  /** The allocation of `successor`, whose declared length is 1. */
  function Slots(r: Request): nat {
    DirlistCount(r) * Pow2(Pop(r.mask as bv16) as nat) + (if DirlistCount(r) > 1 then 1 else 0) + 1
  }

  lemma {:induction false} RowsCount(r: Request, n: nat)
    requires n <= 16
    ensures |Rows(r, n)| <= DirlistCount(r) * CountBelow(r.mask, n)
  {
    hide Row, Dominated, Has, DirlistCount;
    var d := DirlistCount(r);
    if n > 0 {
      RowsCount(r, n - 1);
      RowLength(r, n - 1);
      Distribute(d, CountBelow(r.mask, n - 1));
    } else {
      Distribute(d, 0);
    }
  }

  lemma RowLength(r: Request, cnt: Mask)
    ensures |Row(r, cnt)| == DirlistCount(r)
  {
  }

  lemma Distribute(d: nat, a: nat)
    ensures d * (a + 1) == d * a + d && d * 0 == 0
  {
  }

  lemma Multiply(d: nat, a: nat, b: nat)
    requires a <= b
    ensures d * a <= d * b
  {
  }

  /** The successors and the closing NULL fit. */
  lemma SuccessorsFit(r: Request)
    ensures |Successors(r)| + 1 <= Slots(r)
  {
    hide Pop, Rows, Pow2, Bits, CountBelow;
    PopOfMask(r.mask);
    if |r.dirs| > 1 {
      RowsCount(r, r.mask + 1);
      CountIsBounded(r.mask, r.mask + 1);
      Multiply(|r.dirs|, CountBelow(r.mask, r.mask + 1), Pow2(Bits(r.mask)));
    } else {
      RowsCount(r, r.mask);
      CountBelowItself(r.mask);
    }
  }

  lemma {:induction false} JoinIsLonger(dirs: seq<string>, sep: char, i: nat)
    requires |dirs| > 1 && i < |dirs|
    ensures |Join(dirs, sep)| > |dirs[i]|
    decreases |dirs|
  {
    if i > 0 && |dirs| > 2 {
      JoinIsLonger(dirs[1..], sep, i - 1);
    }
  }

  /** Fewer parts make a shorter name. */
  lemma SuffixShrinks(cnt: Mask, mask: Mask, locale: Locale, filename: string)
    requires Dominated(cnt, mask)
    ensures |Suffix(cnt, locale, filename)| <= |Suffix(mask, locale, filename)|
    ensures cnt < mask ==> |Suffix(cnt, locale, filename)| < |Suffix(mask, locale, filename)|
  {
    DominatedParts(cnt, mask, XPG_TERRITORY);
    DominatedParts(cnt, mask, XPG_CODESET);
    DominatedParts(cnt, mask, XPG_NORM_CODESET);
    DominatedParts(cnt, mask, XPG_MODIFIER);
    if cnt < mask {
      SomePart(cnt, mask);
    }
    hide Dominated, Has;
  }

  lemma SomePart(cnt: Mask, mask: Mask)
    requires Dominated(cnt, mask) && cnt < mask
    ensures (Has(mask, XPG_TERRITORY) && !Has(cnt, XPG_TERRITORY)) || (Has(mask, XPG_CODESET) && !Has(cnt, XPG_CODESET))
      || (Has(mask, XPG_NORM_CODESET) && !Has(cnt, XPG_NORM_CODESET))
      || (Has(mask, XPG_MODIFIER) && !Has(cnt, XPG_MODIFIER))
  {
    MaskParts(cnt);
    MaskParts(mask);
  }

  lemma MaskParts(mask: Mask)
    ensures mask == (if Has(mask, 1) then 1 else 0) + (if Has(mask, 2) then 2 else 0) + (if Has(mask, 4) then 4 else 0)
      + (if Has(mask, 8) then 8 else 0)
  {
  }

  /** r' comes from r by a smaller request: one directory of several, or fewer parts. */
  ghost predicate Smaller(r': Request, r: Request) {
    && r'.locale == r.locale && r'.filename == r.filename && |r'.dirs| <= 1 && Usable(r'.mask, r.mask)
    && (if |r.dirs| > 1 then exists i :: 0 <= i < |r.dirs| && r'.dirs == [r.dirs[i]]
        else r'.dirs == r.dirs && r'.mask < r.mask)
  }

  lemma {:induction false} RowsAreSmaller(r: Request, n: nat, k: nat)
    requires n <= (if |r.dirs| > 1 then r.mask + 1 else r.mask) && k < |Rows(r, n)|
    ensures Smaller(Rows(r, n)[k], r)
  {
    var row := if Usable(n - 1, r.mask) then Row(r, n - 1) else [];
    if k < |row| {
      assert |r.dirs| > 1 ==> row[k].dirs == [r.dirs[k]];
    } else {
      RowsAreSmaller(r, n - 1, k - |row|);
    }
  }

  /** Names get strictly shorter along inheritance: it has no cycles. */
  lemma SmallerIsShorter(r': Request, r: Request)
    requires Smaller(r', r)
    ensures |FileName(r')| < |FileName(r)|
  {
    SuffixShrinks(r'.mask, r.mask, r.locale, r.filename);
    hide Suffix, Usable;
    if |r.dirs| > 1 {
      var i :| 0 <= i < |r.dirs| && r'.dirs == [r.dirs[i]];
      JoinIsLonger(r.dirs, PATH_SEPARATOR, i);
    }
  }

  lemma SuccessorsAreShorter(r: Request, k: nat)
    requires k < |Successors(r)|
    ensures Smaller(Successors(r)[k], r) && |FileName(Successors(r)[k])| < |FileName(r)|
  {
    RowsAreSmaller(r, if |r.dirs| > 1 then r.mask + 1 else r.mask, k);
    SmallerIsShorter(Successors(r)[k], r);
  }
}
