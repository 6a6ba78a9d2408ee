/**
 Characters of C strings.
 */
module CStrings {
  import opened Options

  predicate IsDigit(c: char) { '0' <= c <= '9' }

  function DigitValue(c: char): (r: nat)
    requires IsDigit(c)
    ensures r < 10
  {
    c as int - '0' as int
  }

  /** The decimal digits of a number. */
  function Decimal(n: nat): (s: string)
    ensures |s| >= 1 && IsDigit(s[0]) && forall c :: c in s ==> IsDigit(c)
  {
    (if n < 10 then [] else Decimal(n / 10)) + [DigitChar(n % 10)]
  }

  function DigitChar(d: nat): (c: char)
    requires d < 10
    ensures IsDigit(c) && DigitValue(c) == d
  {
    '0' + d as char
  }

  /** The character a pointer into a NUL-terminated text reads. */
  function CharAt(text: string, i: nat): char {
    if i < |text| then text[i] else '\0'
  }

  /** `tolower` in the C locale. */
  function LowerChar(c: char): char {
    if 'A' <= c <= 'Z' then c - 'A' + 'a' else c
  }

  const UPPER_CASE := "ABCDEFGHIJKLMNOPQRSTUVWXYZ"
  const LOWER_CASE := "abcdefghijklmnopqrstuvwxyz"

  /** Every capital letter is folded to its small one, and nothing else is. */
  lemma LowerCharIsExact(c: char, i: nat)
    ensures i < 26 && c == UPPER_CASE[i] ==> LowerChar(c) == LOWER_CASE[i]
    ensures c !in UPPER_CASE ==> LowerChar(c) == c
  {
    if 'A' <= c <= 'Z' {
      Alphabets(c as int - 'A' as int);
    }
    if i < 26 {
      Alphabets(i);
    }
  }

  lemma Alphabets(i: nat)
    requires i < 26
    ensures UPPER_CASE[i] == 'A' + i as char && LOWER_CASE[i] == 'a' + i as char
  {
  }

  /** The place of the first c, or the end of the text. */
  function IndexOf(s: string, c: char): (i: nat)
    ensures i <= |s| && (i < |s| ==> s[i] == c) && forall j :: 0 <= j < i ==> s[j] != c
    decreases |s|
  {
    if s == "" || s[0] == c then 0 else 1 + IndexOf(s[1..], c)
  }

  /** The place behind the last c, or the start of the text. */
  function LastIndexOf(s: string, c: char): (i: nat)
    ensures i <= |s| && (i > 0 ==> s[i - 1] == c) && forall j :: i <= j < |s| ==> s[j] != c
    decreases |s|
  {
    if s == "" || s[|s| - 1] == c then |s| else LastIndexOf(s[..|s| - 1], c)
  }

  /** `strchr`: the text from the first c on. */
  function StrChr(s: string, c: char): Option<string> {
    if IndexOf(s, c) == |s| then None else Some(s[IndexOf(s, c)..])
  }

  /** `strrchr`: the text from the last c on. */
  function StrRChr(s: string, c: char): Option<string> {
    if LastIndexOf(s, c) == 0 then None else Some(s[LastIndexOf(s, c) - 1..])
  }

  /** `strcmp` as a sign. */
  function Compare(a: string, b: string): int {
    if a == "" then if b == "" then 0 else -1
    else if b == "" then 1
    else if a[0] != b[0] then if a[0] < b[0] then -1 else 1
    else Compare(a[1..], b[1..])
  }

  lemma {:induction false} CompareOrder(a: string, b: string)
    ensures Compare(a, b) == 0 <==> a == b
    ensures Compare(b, a) == -Compare(a, b)
  {
    if a != "" && b != "" {
      CompareOrder(a[1..], b[1..]);
      assert a == [a[0]] + a[1..] && b == [b[0]] + b[1..];
    }
  }

  lemma {:induction false} CompareTransitive(a: string, b: string, c: string)
    requires Compare(a, b) <= 0 && Compare(b, c) < 0
    ensures Compare(a, c) < 0
  {
    if a != "" && b != "" && c != "" && a[0] == b[0] == c[0] {
      CompareTransitive(a[1..], b[1..], c[1..]);
    }
  }

  /** a is a proper beginning of b, or smaller at the first difference. */
  ghost predicate Before(a: string, b: string) {
    exists k: nat :: k <= |a| && k < |b| && a[..k] == b[..k] && (k == |a| || a[k] < b[k])
  }

  lemma {:induction false} CompareIsLexicographic(a: string, b: string)
    ensures Compare(a, b) < 0 <==> Before(a, b)
  {
    forall k: nat | 0 < k <= |a| && k <= |b| && a[..k] == b[..k] ensures a[0] == b[0] {
      assert a[..k][0] == b[..k][0];
    }
    if a == "" || b == "" || a[0] != b[0] {
      if a == "" && b != "" {
        assert a[..0] == b[..0];
      }
      if a != "" && b != "" && a[0] < b[0] {
        assert a[..0] == b[..0];
      }
    } else {
      CompareIsLexicographic(a[1..], b[1..]);
      BeforeTails(a, b);
    }
  }

  lemma BeforeTails(a: string, b: string)
    requires a != "" && b != "" && a[0] == b[0]
    ensures Before(a, b) <==> Before(a[1..], b[1..])
  {
    if k: nat :| k <= |a| && k < |b| && a[..k] == b[..k] && (k == |a| || a[k] < b[k]) {
      assert k > 0;
      assert a[1..][..k - 1] == a[..k][1..] && b[1..][..k - 1] == b[..k][1..];
    }
    var s, t := a[1..], b[1..];
    if k: nat :| k <= |s| && k < |t| && s[..k] == t[..k] && (k == |s| || s[k] < t[k]) {
      assert a[..k + 1] == [a[0]] + a[1..][..k] && b[..k + 1] == [b[0]] + b[1..][..k];
    }
  }

  /** `strtok`, for a text that does not start with c: the text before the first c. */
  function StrTok(s: string, c: char): string {
    s[..IndexOf(s, c)]
  }
}
