/**
 What the name of a locale file says: cut at its marks, as `_nl_explode_name`
 cuts the name of a locale, it gives the parts back that are in the mask; and
 which requests a request inherits from, told by their parts.
 */
module LocaleParts {
  import opened Options
  import opened Argz
  import opened LocaleMasks
  import opened LocaleNames

  /** The place of the first character that is one of the marks, or the end. */
  function Until(s: string, marks: string): (i: nat)
    ensures i <= |s| && (i < |s| ==> s[i] in marks) && forall j :: 0 <= j < i ==> s[j] !in marks
    decreases |s|
  {
    if s == "" || s[0] in marks then 0 else 1 + Until(s[1..], marks)
  }

  datatype Exploded = Exploded(language: string, territory: Option<string>, codeset: Option<string>,
                               modifier: Option<string>)

  /** The part behind a mark, up to the next of the marks that can follow, and the rest. */
  function Take(s: string, mark: char, stops: string): (Option<string>, string) {
    if s == "" || s[0] != mark then (None, s)
    else var i := Until(s[1..], stops); (Some(s[1..][..i]), s[1..][i..])
  }

  /** `_nl_explode_name`, without the normalization of the codeset. A name that starts with a mark is not cut. */
  function Explode(name: string): Exploded {
    var i := Until(name, "_.@");
    if i == 0 then Exploded(name, None, None, None)
    else
      var (territory, r) := Take(name[i..], '_', ".@");
      var (codeset, r') := Take(r, '.', "@");
      var (modifier, _) := Take(r', '@', "");
      Exploded(name[..i], territory, codeset, modifier)
  }

  /** No part has a mark in it at which it would be cut. */
  predicate Cuttable(locale: Locale) {
    && locale.language != "" && (forall c :: c in locale.language ==> c !in "_.@")
    && (forall c :: c in locale.territory ==> c !in ".@")
    && '@' !in locale.codeset && '@' !in locale.normalized_codeset
  }

  function PartOf(mask: Mask, bit: nat, text: string): Option<string> {
    if Has(mask, bit) then Some(text) else None
  }

  /** A name with both codesets has them in one part. */
  function CodesetOf(mask: Mask, locale: Locale): Option<string> {
    if Has(mask, XPG_CODESET) && Has(mask, XPG_NORM_CODESET)
    then Some(locale.codeset + "." + locale.normalized_codeset)
    else if Has(mask, XPG_CODESET) then Some(locale.codeset)
    else PartOf(mask, XPG_NORM_CODESET, locale.normalized_codeset)
  }

  lemma UntilIs(s: string, marks: string, i: nat)
    requires i <= |s| && (i < |s| ==> s[i] in marks) && forall j :: 0 <= j < i ==> s[j] !in marks
    ensures Until(s, marks) == i
  {
  }

  /** A marked part in front of text that cannot belong to it is taken off. */
  lemma TakesPart(mark: char, part: string, rest: string, stops: string)
    requires (forall c :: c in part ==> c !in stops) && (rest == "" || rest[0] in stops)
    ensures Take([mark] + part + rest, mark, stops) == (Some(part), rest)
  {
    var s := [mark] + part + rest;
    assert s[1..] == part + rest;
    assert forall j :: 0 <= j < |part| ==> s[1..][j] == part[j];
    UntilIs(s[1..], stops, |part|);
  }

  lemma TakesOptional(p: Option<string>, mark: char, rest: string, stops: string)
    requires p.Some? ==> forall c :: c in p.value ==> c !in stops
    requires (rest == "" || rest[0] in stops) && mark !in stops
    ensures Take(Marked(mark, p) + rest, mark, stops) == (p, rest)
  {
    if p.Some? {
      TakesPart(mark, p.value, rest, stops);
    } else {
      assert Marked(mark, p) + rest == rest;
    }
  }

  function Marked(mark: char, p: Option<string>): string {
    if p.Some? then [mark] + p.value else ""
  }

  lemma Five(l: string, t: string, c: string, n: string, m: string)
    ensures l + t + c + n + m == l + (t + ((c + n) + (m + "")))
  {
  }

  lemma OneMarked(mask: Mask, bit: nat, mark: char, text: string)
    ensures Part(mask, bit, mark, text) == Marked(mark, PartOf(mask, bit, text))
  {
    hide Has;
  }

  lemma CodesetsMarked(mask: Mask, locale: Locale)
    ensures Part(mask, XPG_CODESET, '.', locale.codeset) + Part(mask, XPG_NORM_CODESET, '.', locale.normalized_codeset)
      == Marked('.', CodesetOf(mask, locale))
  {
    hide Has;
  }

  lemma PartsAreMarked(mask: Mask, locale: Locale)
    ensures Parts(mask, locale) ==
      locale.language + (Marked('_', PartOf(mask, XPG_TERRITORY, locale.territory))
      + (Marked('.', CodesetOf(mask, locale)) + (Marked('@', PartOf(mask, XPG_MODIFIER, locale.modifier)) + "")))
  {
    hide Part, PartOf, CodesetOf, Marked;
    OneMarked(mask, XPG_TERRITORY, '_', locale.territory);
    OneMarked(mask, XPG_MODIFIER, '@', locale.modifier);
    CodesetsMarked(mask, locale);
    Five(locale.language, Part(mask, XPG_TERRITORY, '_', locale.territory),
      Part(mask, XPG_CODESET, '.', locale.codeset), Part(mask, XPG_NORM_CODESET, '.', locale.normalized_codeset),
      Part(mask, XPG_MODIFIER, '@', locale.modifier));
  }

  lemma StartsMarked(mark: char, p: Option<string>, rest: string, marks: string)
    requires mark in marks && (rest == "" || rest[0] in marks)
    ensures Marked(mark, p) + rest == "" || (Marked(mark, p) + rest)[0] in marks
  {
    if p.None? {
      assert Marked(mark, p) + rest == rest;
    }
  }

  /** Cut at its marks, the name gives back the language and exactly the parts in the mask. */
  lemma PartsExplode(mask: Mask, locale: Locale)
    requires Cuttable(locale)
    ensures Explode(Parts(mask, locale)) ==
      Exploded(locale.language, PartOf(mask, XPG_TERRITORY, locale.territory), CodesetOf(mask, locale),
               PartOf(mask, XPG_MODIFIER, locale.modifier))
  {
    var t, c, m := PartOf(mask, XPG_TERRITORY, locale.territory), CodesetOf(mask, locale),
      PartOf(mask, XPG_MODIFIER, locale.modifier);
    PartsAreMarked(mask, locale);
    CuttableParts(mask, locale);
    hide Parts, Has, Take, Until, PartOf, CodesetOf;
    var r2 := Marked('@', m) + "";
    var r1 := Marked('.', c) + r2;
    var r0 := Marked('_', t) + r1;
    var name := locale.language + r0;
    StartsMarked('@', m, "", "@");
    StartsMarked('.', c, r2, ".@");
    StartsMarked('_', t, r1, "_.@");
    TakesOptional(m, '@', "", "");
    TakesOptional(c, '.', r2, "@");
    TakesOptional(t, '_', r1, ".@");
    assert forall j :: 0 <= j < |locale.language| ==> name[j] == locale.language[j];
    UntilIs(name, "_.@", |locale.language|);
    assert name[|locale.language|..] == r0;
  }

  lemma CuttableParts(mask: Mask, locale: Locale)
    requires Cuttable(locale)
    ensures var t, c := PartOf(mask, XPG_TERRITORY, locale.territory), CodesetOf(mask, locale);
      && (t.Some? ==> forall x :: x in t.value ==> x !in ".@")
      && (c.Some? ==> forall x :: x in c.value ==> x !in "@")
  {
    hide Has;
  }

  /** The whole name: the directories with colons between them, the locale name, and the file. */
  lemma FileNameReads(r: Request, d: string, e: string)
    ensures r.dirs == [] ==> FileName(r) == Parts(r.mask, r.locale) + "/" + r.filename
    ensures r.dirs == [d] ==> FileName(r) == d + "/" + Parts(r.mask, r.locale) + "/" + r.filename
    ensures r.dirs == [d, e] ==> FileName(r) == d + ":" + e + "/" + Parts(r.mask, r.locale) + "/" + r.filename
  {
    hide Parts;
    assert [d, e][1..] == [e];
    assert Join([d, e], ':') == d + ":" + e;
  }

  /** cnt has no part that mask has not. */
  predicate PartsWithin(cnt: Mask, mask: Mask) {
    && (Has(cnt, XPG_TERRITORY) ==> Has(mask, XPG_TERRITORY)) && (Has(cnt, XPG_CODESET) ==> Has(mask, XPG_CODESET))
    && (Has(cnt, XPG_NORM_CODESET) ==> Has(mask, XPG_NORM_CODESET))
    && (Has(cnt, XPG_MODIFIER) ==> Has(mask, XPG_MODIFIER))
  }

  lemma DominatedStep(cnt: nat, mask: nat)
    ensures Dominated(cnt, mask) <==> cnt % 2 <= mask % 2 && Dominated(cnt / 2, mask / 2)
  {
  }

  lemma DominatedIsWithin(cnt: Mask, mask: Mask)
    ensures Dominated(cnt, mask) <==> PartsWithin(cnt, mask)
  {
    DominatedStep(cnt, mask);
    DominatedStep(cnt / 2, mask / 2);
    DominatedStep(cnt / 2 / 2, mask / 2 / 2);
    DominatedStep(cnt / 2 / 2 / 2, mask / 2 / 2 / 2);
    assert cnt / 2 / 2 / 2 / 2 == 0;
    BitsOf(cnt);
    BitsOf(mask);
    hide Dominated, Has;
  }

  lemma BitsOf(m: Mask)
    ensures Has(m, 1) == (m % 2 == 1) && Has(m, 2) == (m / 2 % 2 == 1)
    ensures Has(m, 4) == (m / 2 / 2 % 2 == 1) && Has(m, 8) == (m / 2 / 2 / 2 % 2 == 1)
    ensures Dominated(0, m)
  {
    assert Has(m, 4) == Has(m / 2, 2) == Has(m / 2 / 2, 1);
    assert Has(m, 8) == Has(m / 2, 4) == Has(m / 2 / 2, 2) == Has(m / 2 / 2 / 2, 1);
  }

  /** The directory and the parts that r can inherit from. */
  ghost predicate Inherits(r: Request, r': Request) {
    && r'.locale == r.locale && r'.filename == r.filename && PartsWithin(r'.mask, r.mask)
    && !(Has(r'.mask, XPG_CODESET) && Has(r'.mask, XPG_NORM_CODESET))
    && if |r.dirs| > 1 then exists i :: 0 <= i < |r.dirs| && r'.dirs == [r.dirs[i]]
       else r'.dirs == r.dirs && r'.mask != r.mask
  }

  lemma {:induction false} RowsHold(r: Request, n: nat, cnt: Mask, i: nat)
    requires cnt < n <= 16 && Usable(cnt, r.mask) && i < |Row(r, cnt)|
    ensures Row(r, cnt)[i] in Rows(r, n)
  {
    hide Usable, Row;
    if cnt < n - 1 {
      RowsHold(r, n - 1, cnt, i);
    }
  }

  lemma UsableIsWithin(cnt: Mask, mask: Mask)
    ensures Usable(cnt, mask) <==>
      PartsWithin(cnt, mask) && !(Has(cnt, XPG_CODESET) && Has(cnt, XPG_NORM_CODESET))
    ensures PartsWithin(cnt, mask) ==> cnt <= mask
  {
    DominatedIsWithin(cnt, mask);
    if Dominated(cnt, mask) {
      DominatedParts(cnt, mask, 1);
    }
    hide Dominated, Has;
  }

  /** The successors are exactly the requests that r can inherit from. */
  lemma SuccessorsAreExact(r: Request, r': Request)
    ensures r' in Successors(r) <==> Inherits(r, r')
  {
    UsableIsWithin(r'.mask, r.mask);
    hide Usable, Has, PartsWithin;
    if r' in Successors(r) {
      var k :| 0 <= k < |Successors(r)| && Successors(r)[k] == r';
      RowsAreSmaller(r, if |r.dirs| > 1 then r.mask + 1 else r.mask, k);
    }
    if Inherits(r, r') {
      InheritedIsRow(r, r');
    }
  }

  lemma InheritedIsRow(r: Request, r': Request)
    requires Inherits(r, r') && Usable(r'.mask, r.mask) && r'.mask <= r.mask
    ensures r' in Successors(r)
  {
    hide Usable, Has, PartsWithin, Rows;
    if |r.dirs| > 1 {
      var i :| 0 <= i < |r.dirs| && r'.dirs == [r.dirs[i]];
      assert Row(r, r'.mask)[i] == r';
      RowsHold(r, r.mask + 1, r'.mask, i);
    } else {
      assert Row(r, r'.mask)[0] == r';
      RowsHold(r, r.mask, r'.mask, 0);
    }
  }

  /** Larger masks come first: the name closest to the request is tried before those with fewer parts. */
  lemma {:induction false} RowsDescend(r: Request, n: nat, k: nat, l: nat)
    requires n <= 16 && k < l < |Rows(r, n)|
    ensures n > Rows(r, n)[k].mask >= Rows(r, n)[l].mask
  {
    hide Usable;
    var row := if Usable(n - 1, r.mask) then Row(r, n - 1) else [];
    assert forall i :: 0 <= i < |row| ==> row[i].mask == n - 1;
    if k >= |row| {
      RowsDescend(r, n - 1, k - |row|, l - |row|);
    } else if l >= |row| {
      RowsBelow(r, n - 1, l - |row|);
    }
  }

  lemma {:induction false} RowsBelow(r: Request, n: nat, k: nat)
    requires n <= 16 && k < |Rows(r, n)|
    ensures Rows(r, n)[k].mask < n
  {
    hide Usable;
    var row := if Usable(n - 1, r.mask) then Row(r, n - 1) else [];
    if k >= |row| {
      RowsBelow(r, n - 1, k - |row|);
    }
  }

  lemma SuccessorsDescend(r: Request, k: nat, l: nat)
    requires k < l < |Successors(r)|
    ensures Successors(r)[k].mask >= Successors(r)[l].mask
  {
    RowsDescend(r, if |r.dirs| > 1 then r.mask + 1 else r.mask, k, l);
  }
}
