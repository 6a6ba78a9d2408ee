/**
 `trim` and `clearspace`: text compacted where it stands.
 */
module TextTools {

  predicate IsBlank(c: char) { c == ' ' || c == '\t' || c == '\n' || c == '\r' }

  /** What the loop of `trim` writes for s, when `alpha` tells that a space would be kept. */
  function Squeezed(s: string, alpha: bool): string
    decreases |s|
  {
    if s == "" then ""
    else if s[0] == ' ' && alpha then " " + Squeezed(s[1..], false)
    else if !IsBlank(s[0]) then [s[0]] + Squeezed(s[1..], true)
    else Squeezed(s[1..], alpha)
  }

  function WithoutLastSpace(s: string): string {
    if s != "" && s[|s| - 1] == ' ' then s[..|s| - 1] else s
  }

  function Trimmed(s: string): string {
    WithoutLastSpace(Squeezed(s, false))
  }

  /** No tabs or line ends, and spaces only one at a time between words. */
  predicate IsTrim(s: string) {
    && (forall i :: 0 <= i < |s| && IsBlank(s[i]) ==> s[i] == ' ' && 0 < i < |s| - 1)
    && (forall i :: 0 < i < |s| && s[i] == ' ' ==> s[i - 1] != ' ')
  }

  /** The characters that are not blank. */
  function Visible(s: string): string
    decreases |s|
  {
    if s == "" then "" else (if IsBlank(s[0]) then "" else [s[0]]) + Visible(s[1..])
  }

  /** All of IsTrim but for a space at the end; a space in front only when one would be kept. */
  predicate IsSqueezed(s: string, alpha: bool) {
    && (forall i :: 0 <= i < |s| && IsBlank(s[i]) ==> s[i] == ' ')
    && (forall i :: 0 < i < |s| && s[i] == ' ' ==> s[i - 1] != ' ')
    && (s != "" && s[0] == ' ' ==> alpha)
  }

  lemma {:induction false} SqueezedIsSqueezed(s: string, alpha: bool)
    ensures IsSqueezed(Squeezed(s, alpha), alpha) && Visible(Squeezed(s, alpha)) == Visible(s)
    decreases |s|
  {
    if s != "" {
      var next := if s[0] == ' ' && alpha then false else if !IsBlank(s[0]) then true else alpha;
      SqueezedIsSqueezed(s[1..], next);
      var rest := Squeezed(s[1..], next);
      assert ([s[0]] + rest)[1..] == rest;
    }
  }

  lemma {:induction false} SqueezedStays(s: string, alpha: bool)
    requires IsSqueezed(s, alpha)
    ensures Squeezed(s, alpha) == s
    decreases |s|
  {
    if s != "" {
      SqueezedStays(s[1..], s[0] != ' ');
    }
  }

  lemma {:induction false} VisibleOfPrefix(s: string)
    ensures Visible(WithoutLastSpace(s)) == Visible(s)
    decreases |s|
  {
    if |s| > 1 {
      VisibleOfPrefix(s[1..]);
      assert s[|s| - 1] == ' ' ==> s[..|s| - 1][1..] == s[1..][..|s| - 2];
    }
  }

  /**
   `trim` gives trimmed text, keeps what is visible, and changes nothing else: trimmed text is what it
   leaves alone.
   */
  lemma TrimmedIsTrim(s: string)
    ensures IsTrim(Trimmed(s)) && Visible(Trimmed(s)) == Visible(s)
    ensures IsTrim(s) <==> Trimmed(s) == s
  {
    SqueezedIsSqueezed(s, false);
    VisibleOfPrefix(Squeezed(s, false));
    if IsTrim(s) {
      SqueezedStays(s, false);
    }
    hide Squeezed, Visible;
  }

  predicate AllBlank(s: string) {
    forall c :: c in s ==> c == ' ' || c == '\t' || c == '\n' || c == '\r'
  }

  /** The text begins or ends with a character that is seen. */
  predicate StartsVisible(s: string) { s != "" && s[0] != ' ' && s[0] != '\t' && s[0] != '\n' && s[0] != '\r' }

  predicate EndsVisible(s: string) { s != "" && StartsVisible([s[|s| - 1]]) }

  lemma {:induction false} SqueezedBehind(p: string, t: string, alpha: bool)
    requires EndsVisible(p)
    ensures Squeezed(p + t, alpha) == Squeezed(p, alpha) + Squeezed(t, true)
    ensures Squeezed(p, alpha) != "" && EndsVisible(Squeezed(p, alpha))
    decreases |p|
  {
    assert (p + t)[1..] == p[1..] + t;
    if |p| == 1 {
      assert p[1..] + t == t && Squeezed(p, alpha) == [p[0]] + Squeezed("", true) == p;
    } else {
      var next := if p[0] == ' ' && alpha then false else if !IsBlank(p[0]) then true else alpha;
      SqueezedBehind(p[1..], t, next);
    }
  }

  lemma {:induction false} SqueezedBlanks(b: string, t: string, alpha: bool)
    requires AllBlank(b)
    ensures Squeezed(b + t, alpha) ==
      if alpha && ' ' in b then " " + Squeezed(t, false) else Squeezed(t, alpha)
    decreases |b|
  {
    if b == "" {
      assert b + t == t;
    } else {
      assert (b + t)[1..] == b[1..] + t && b == [b[0]] + b[1..];
      assert b[0] in b && forall c :: c in b[1..] ==> c in b;
      SqueezedBlanks(b[1..], t, alpha && b[0] != ' ');
    }
  }

  /** Blanks between two visible characters become one space if there was a space among them, and else nothing. */
  lemma GapsBecomeSpaces(p: string, b: string, q: string)
    requires EndsVisible(p) && AllBlank(b) && StartsVisible(q)
    ensures Trimmed(p + b + q) == Trimmed(p) + (if ' ' in b then " " else "") + Trimmed(q)
  {
    assert p + b + q == p + (b + q);
    SqueezedBehind(p, b + q, false);
    SqueezedBlanks(b, q, true);
    SqueezedStep(q, true);
    SqueezedStep(q, false);
    hide Squeezed, WithoutLastSpace;
    var x, y := Squeezed(p, false), Squeezed(q, false);
    NoLastSpace(x);
    if ' ' in b {
      assert x + (" " + y) == x + " " + y;
      LastSpaceBehind(x + " ", y);
    } else {
      assert x + "" == x;
      LastSpaceBehind(x, y);
    }
  }

  lemma LastSpaceBehind(x: string, y: string)
    requires y != ""
    ensures WithoutLastSpace(x + y) == x + WithoutLastSpace(y)
  {
  }

  lemma NoLastSpace(x: string)
    requires EndsVisible(x)
    ensures WithoutLastSpace(x) == x
  {
  }

  /** Blanks at either end are dropped. */
  lemma EdgesAreDropped(b: string, p: string)
    requires AllBlank(b)
    ensures Trimmed(b + p) == Trimmed(p)
    ensures EndsVisible(p) ==> Trimmed(p + b) == Trimmed(p)
    ensures Trimmed(b) == ""
  {
    SqueezedBlanks(b, p, false);
    SqueezedBlanks(b, "", true);
    SqueezedBlanks(b, "", false);
    assert b + "" == b;
    if EndsVisible(p) {
      SqueezedBehind(p, b, false);
      SqueezedEnd(true);
      SqueezedEnd(false);
      hide Squeezed;
      assert Squeezed(p, false) + "" == Squeezed(p, false);
    }
  }

  lemma SqueezedEnd(alpha: bool)
    ensures Squeezed("", alpha) == ""
  {
  }

  lemma SqueezedStep(s: string, alpha: bool)
    requires s != ""
    ensures s[0] == ' ' && alpha ==> Squeezed(s, alpha) == " " + Squeezed(s[1..], false)
    ensures !IsBlank(s[0]) ==> Squeezed(s, alpha) == [s[0]] + Squeezed(s[1..], true)
    ensures IsBlank(s[0]) && !(s[0] == ' ' && alpha) ==> Squeezed(s, alpha) == Squeezed(s[1..], alpha)
  {
  }

  /** The text in a buffer, up to its NUL. */
  ghost predicate Holds(buf: array<char>, n: nat, s: string)
    reads buf
  {
    n < buf.Length && buf[..n] == s && buf[n] == '\0'
  }

  lemma Regroup(a: string, b: string, c: string)
    ensures a + (b + c) == a + b + c
  {
  }

  /** The loop of `trim`. */
  method Squeeze(buf: array<char>, n: nat) returns (j: nat)
    requires n < buf.Length
    modifies buf
    ensures j <= n && buf[..j] == Squeezed(old(buf[..n]), false)
  {
    hide Squeezed;
    var bIsAlpha := false;
    j := 0;
    ghost var text := buf[..n];
    for i := 0 to n
      invariant j <= i && (forall k :: i <= k < n ==> buf[k] == text[k])
      invariant buf[..j] + Squeezed(text[i..], bIsAlpha) == Squeezed(text, false)
    {
      ghost var before := buf[..j];
      var c := buf[i];
      assert c == text[i..][0] && text[i..][1..] == text[i + 1..];
      SqueezedStep(text[i..], bIsAlpha);
      if c == ' ' && bIsAlpha {
        Regroup(before, " ", Squeezed(text[i + 1..], false));
        buf[j] := ' ';
        assert buf[..j + 1] == before + " ";
        j := j + 1;
        bIsAlpha := false;
      } else if c != '\n' && c != '\r' && c != ' ' && c != '\t' {
        Regroup(before, [c], Squeezed(text[i + 1..], true));
        buf[j] := c;
        assert buf[..j + 1] == before + [c];
        j := j + 1;
        bIsAlpha := true;
      }
    }
    SqueezedEnd(bIsAlpha);
    assert text[n..] == "";
  }

  /** `trim`; n is the length of the text, j that of the result. */
  method Trim(buf: array<char>, n: nat) returns (j: nat)
    requires n < buf.Length && buf[n] == '\0'
    modifies buf
    ensures Holds(buf, j, Trimmed(old(buf[..n]))) && j <= n
  {
    hide Squeezed;
    j := Squeeze(buf, n);
    if j > 0 && buf[j - 1] == ' ' {
      j := j - 1;
    }
    buf[j] := '\0';
  }

  /** What `clearspace` leaves: no spaces but in quotes, and no quotes. */
  function Cleared(s: string, noclr: bool): string
    decreases |s|
  {
    if s == "" then ""
    else if s[0] == '\"' then Cleared(s[1..], !noclr)
    else if s[0] == ' ' && !noclr then Cleared(s[1..], noclr)
    else [s[0]] + Cleared(s[1..], noclr)
  }

  /** Text without quotes and spaces is left alone, and spaces go. */
  lemma {:induction false} ClearedPlain(s: string)
    ensures (forall c :: c in s ==> c != '\"' && c != ' ') ==> Cleared(s, false) == s
    ensures (forall c :: c in s ==> c == ' ') ==> Cleared(s, false) == ""
    decreases |s|
  {
    if s != "" {
      assert s[0] in s && forall c :: c in s[1..] ==> c in s;
      ClearedPlain(s[1..]);
    }
  }

  /** Text without quotes is cleared by itself, whatever follows. */
  lemma {:induction false} ClearedJoin(a: string, b: string)
    requires '\"' !in a
    ensures Cleared(a + b, false) == Cleared(a, false) + Cleared(b, false)
    decreases |a|
  {
    if a == "" {
      assert a + b == b;
    } else {
      assert (a + b)[1..] == a[1..] + b;
      ClearedJoin(a[1..], b);
    }
  }

  /** Quoted text keeps its spaces and loses its quotes. */
  lemma ClearedQuoted(q: string, b: string)
    requires '\"' !in q
    ensures Cleared("\"" + q + "\"" + b, false) == q + Cleared(b, false)
  {
    assert ("\"" + q + "\"" + b)[1..] == q + ("\"" + b);
    QuoteEnds(q, b);
  }

  lemma {:induction false} QuoteEnds(q: string, b: string)
    requires '\"' !in q
    ensures Cleared(q + ("\"" + b), true) == q + Cleared(b, false)
    decreases |q|
  {
    if q == "" {
      assert q + ("\"" + b) == "\"" + b && ("\"" + b)[1..] == b;
    } else {
      assert (q + ("\"" + b))[1..] == q[1..] + ("\"" + b);
      QuoteEnds(q[1..], b);
    }
  }

  lemma ClearedEnd(noclr: bool)
    ensures Cleared("", noclr) == ""
  {
  }

  lemma ClearedStep(s: string, noclr: bool)
    requires s != ""
    ensures s[0] == '\"' ==> Cleared(s, noclr) == Cleared(s[1..], !noclr)
    ensures s[0] == ' ' && !noclr ==> Cleared(s, noclr) == Cleared(s[1..], noclr)
    ensures s[0] != '\"' && (s[0] != ' ' || noclr) ==> Cleared(s, noclr) == [s[0]] + Cleared(s[1..], noclr)
  {
  }

  /** `clearspace`; the NUL is copied like any character. */
  method ClearSpace(buf: array<char>, n: nat) returns (j: nat)
    requires n < buf.Length && buf[n] == '\0'
    modifies buf
    ensures Holds(buf, j, Cleared(old(buf[..n]), false)) && j <= n
  {
    hide Cleared;
    var noclr := false;
    j := 0;
    ghost var text := buf[..n];
    for i := 0 to n
      invariant j <= i && (forall k :: i <= k < n ==> buf[k] == text[k]) && buf[n] == '\0'
      invariant buf[..j] + Cleared(text[i..], noclr) == Cleared(text, false)
    {
      ghost var before := buf[..j];
      var c := buf[i];
      assert c == text[i..][0] && text[i..][1..] == text[i + 1..];
      ClearedStep(text[i..], noclr);
      if c != ' ' || noclr {
        if c == '\"' {
          noclr := !noclr;
        } else {
          Regroup(before, [c], Cleared(text[i + 1..], noclr));
          buf[j] := c;
          assert buf[..j + 1] == before + [c];
          j := j + 1;
        }
      }
    }
    ClearedEnd(noclr);
    assert text[n..] == "";
    buf[j] := buf[n];
  }
}
