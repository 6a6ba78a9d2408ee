/**
 The file name of a request, built in an allocation of exactly its size.
 */
module LocaleNameBuffer {
  import opened Argz
  import opened LocaleMasks
  import opened LocaleNames

  /** `stpcpy`: the text and a NUL; the result points to the NUL. */
  method Stpcpy(buf: array<char>, p: nat, text: string) returns (p': nat)
    requires p + |text| < buf.Length
    modifies buf
    ensures p' == p + |text| && buf[..p'] == old(buf[..p]) + text && buf[p'] == '\0'
  {
    ghost var before := buf[..p];
    for i := 0 to |text|
      invariant buf[..p + i] == before + text[..i]
    {
      buf[p + i] := text[i];
    }
    assert text[..|text|] == text;
    p' := p + |text|;
    buf[p'] := '\0';
  }

  /** A part of the locale name with its mark, if it is in the mask. */
  method PutPart(buf: array<char>, p: nat, mask: Mask, bit: nat, mark: char, text: string) returns (p': nat)
    requires p + |Part(mask, bit, mark, text)| < buf.Length
    modifies buf
    ensures p' == p + |Part(mask, bit, mark, text)| && buf[..p'] == old(buf[..p]) + Part(mask, bit, mark, text)
  {
    p' := p;
    if Has(mask, bit) {
      ghost var before := buf[..p];
      buf[p] := mark;
      assert buf[..p + 1] == before + [mark];
      p' := Stpcpy(buf, p + 1, text);
      assert before + [mark] + text == before + ([mark] + text);
    }
  }

  /** The directory list, printable. */
  method PutDirectories(buf: array<char>, dirlist: string, ghost dirs: seq<string>) returns (p: nat)
    requires dirlist == Pack(dirs) && Plain(dirs) && |dirlist| <= buf.Length
    modifies buf
    ensures p == |dirlist| == |Directories(dirs)| && buf[..p] == Directories(dirs)
  {
    p := 0;
    if |dirlist| > 0 {
      for i := 0 to |dirlist|
        invariant buf[..i] == dirlist[..i]
      {
        buf[i] := dirlist[i];
      }
      assert dirlist[..|dirlist|] == dirlist;
      Stringify(buf, |dirlist|, PATH_SEPARATOR, dirs);
      p := |dirlist|;
      ghost var joined := Join(dirs, PATH_SEPARATOR);
      assert |joined + "\0"| == p;
      assert buf[..p - 1] == buf[..p][..p - 1] == joined;
      buf[p - 1] := '/';
      assert buf[..p] == joined + "/";
    }
  }

  /** The length of the locale name, the slash and the file name. */
  method SuffixLength(mask: Mask, locale: Locale, filename: string) returns (n: nat)
    ensures n == |Suffix(mask, locale, filename)|
  {
    n := |locale.language| + (if Has(mask, XPG_TERRITORY) then |locale.territory| + 1 else 0)
      + (if Has(mask, XPG_CODESET) then |locale.codeset| + 1 else 0)
      + (if Has(mask, XPG_NORM_CODESET) then |locale.normalized_codeset| + 1 else 0)
      + (if Has(mask, XPG_MODIFIER) then |locale.modifier| + 1 else 0)
      + 1 + |filename|;
    hide Has;
  }

  lemma Regroup(s: string, a: string, b: string, c: string, d: string, e: string)
    ensures s + a + b + c + d + e == s + (a + b + c + d + e)
  {
  }

  /** The language and the parts in the mask. */
  method PutParts(buf: array<char>, p: nat, mask: Mask, locale: Locale) returns (p': nat)
    requires p + |Parts(mask, locale)| < buf.Length
    modifies buf
    ensures p' == p + |Parts(mask, locale)| && buf[..p'] == old(buf[..p]) + Parts(mask, locale)
  {
    hide Part, Has;
    p' := Stpcpy(buf, p, locale.language);
    p' := PutPart(buf, p', mask, XPG_TERRITORY, '_', locale.territory);
    p' := PutPart(buf, p', mask, XPG_CODESET, '.', locale.codeset);
    p' := PutPart(buf, p', mask, XPG_NORM_CODESET, '.', locale.normalized_codeset);
    p' := PutPart(buf, p', mask, XPG_MODIFIER, '@', locale.modifier);
    Regroup(old(buf[..p]), locale.language, Part(mask, XPG_TERRITORY, '_', locale.territory),
      Part(mask, XPG_CODESET, '.', locale.codeset), Part(mask, XPG_NORM_CODESET, '.', locale.normalized_codeset),
      Part(mask, XPG_MODIFIER, '@', locale.modifier));
  }

  /** The slash and the file name. */
  method PutFile(buf: array<char>, p: nat, filename: string)
    requires p + 1 + |filename| + 1 == buf.Length
    modifies buf
    ensures buf[..] == old(buf[..p]) + "/" + filename + "\0"
  {
    ghost var before := buf[..p];
    buf[p] := '/';
    assert buf[..p + 1] == before + "/";
    var cp := Stpcpy(buf, p + 1, filename);
    assert buf[..] == buf[..cp] + "\0";
  }

  /** The allocation is used up to its last character, the NUL. */
  method BuildName(dirlist: string, mask: Mask, locale: Locale, filename: string, ghost dirs: seq<string>)
    returns (name: array<char>)
    requires dirlist == Pack(dirs) && Plain(dirs)
    ensures fresh(name) && name[..] == FileName(Request(dirs, mask, locale, filename)) + "\0"
  {
    hide Parts, Directories, Join, Pack;
    var suffix := SuffixLength(mask, locale, filename);
    name := new char[|dirlist| + suffix + 1];
    var cp := PutDirectories(name, dirlist, dirs);
    cp := PutParts(name, cp, mask, locale);
    PutFile(name, cp, filename);
    assert name[..] == Directories(dirs) + (Parts(mask, locale) + "/" + filename) + "\0";
  }
}
