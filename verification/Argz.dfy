/**
 `argz` vectors: strings, each ended by a NUL, one after the other. The
 replacements for the C library's functions on them.
 */
module Argz {
  predicate NoNul(s: string) { '\0' !in s }

  ghost predicate Plain(entries: seq<string>) {
    forall e :: e in entries ==> NoNul(e)
  }

  /** The vector of some strings. */
  function Pack(entries: seq<string>): (argz: string)
    ensures argz == "" <==> entries == []
  {
    if entries == [] then "" else entries[0] + "\0" + Pack(entries[1..])
  }

  /** The strings with a separator between them. */
  function Join(entries: seq<string>, sep: char): string {
    if entries == [] then ""
    else if |entries| == 1 then entries[0]
    else entries[0] + [sep] + Join(entries[1..], sep)
  }

  lemma {:induction false} PackSplits(a: seq<string>, b: seq<string>)
    ensures Pack(a + b) == Pack(a) + Pack(b)
    decreases |a|
  {
    if a == [] {
      assert a + b == b;
    } else {
      PackSplits(a[1..], b);
      assert (a + b)[1..] == a[1..] + b;
    }
  }

  /** The first NUL ends the first entry. */
  lemma FirstNul(entries: seq<string>, n: nat)
    requires entries != [] && Plain(entries) && n < |Pack(entries)|
    requires Pack(entries)[n] == '\0' && forall k :: 0 <= k < n ==> Pack(entries)[k] != '\0'
    ensures n == |entries[0]| && Pack(entries)[..n] == entries[0] && Pack(entries)[n + 1..] == Pack(entries[1..])
  {
    assert NoNul(entries[0]);
    var p := Pack(entries);
    assert p[|entries[0]|] == '\0';
  }

  /** `strlen` of the text from i. */
  method Strlen(text: string, i: nat) returns (n: nat)
    requires i < |text| && '\0' in text[i..]
    ensures i + n < |text| && text[i + n] == '\0' && forall k :: i <= k < i + n ==> text[k] != '\0'
  {
    n := 0;
    while i + n < |text| && text[i + n] != '\0'
      invariant i + n <= |text| && forall k :: i <= k < i + n ==> text[k] != '\0'
    {
      n := n + 1;
    }
  }

  /** The length of the entry that starts at i. */
  method EntryLength(argz: string, i: nat, ghost entries: seq<string>) returns (n: nat)
    requires i < |argz| && argz[i..] == Pack(entries) && Plain(entries)
    ensures entries != [] && n == |entries[0]| && i + n < |argz|
    ensures argz[i..i + n] == entries[0] && argz[i + n + 1..] == Pack(entries[1..])
  {
    assert entries != [] && Pack(entries)[|entries[0]|] == '\0';
    n := Strlen(argz, i);
    assert Pack(entries)[n] == '\0';
    assert forall k :: 0 <= k < n ==> Pack(entries)[k] == argz[i + k];
    FirstNul(entries, n);
    assert argz[i..][..n] == argz[i..i + n] && argz[i..][n + 1..] == argz[i + n + 1..];
  }

  /** `argz_count`. */
  method Count(argz: string, ghost entries: seq<string>) returns (count: nat)
    requires argz == Pack(entries) && Plain(entries)
    ensures count == |entries|
  {
    count := 0;
    var p := 0;
    while p < |argz|
      invariant p <= |argz| && count <= |entries| && argz[p..] == Pack(entries[count..])
      decreases |argz| - p
    {
      var part_len := EntryLength(argz, p, entries[count..]);
      p := p + part_len + 1;
      count := count + 1;
    }
  }

  /** Where entry j starts. */
  function Offset(entries: seq<string>, j: nat): nat
    requires j <= |entries|
  {
    |Pack(entries[..j])|
  }

  lemma DropPrefix(a: string, b: string)
    ensures (a + b)[|a|..] == b
  {
  }

  lemma AtOffset(entries: seq<string>, j: nat)
    requires j <= |entries|
    ensures Offset(entries, j) <= |Pack(entries)| && Pack(entries)[Offset(entries, j)..] == Pack(entries[j..])
    ensures j < |entries| <==> Offset(entries, j) < |Pack(entries)|
  {
    hide Pack;
    PackSplits(entries[..j], entries[j..]);
    assert entries[..j] + entries[j..] == entries;
    DropPrefix(Pack(entries[..j]), Pack(entries[j..]));
    assert Pack(entries[j..]) == "" <==> entries[j..] == [];
  }

  lemma NextOffset(entries: seq<string>, j: nat)
    requires j < |entries|
    ensures Offset(entries, j + 1) == Offset(entries, j) + |entries[j]| + 1
  {
    PackSplits(entries[..j], [entries[j]]);
    assert entries[..j + 1] == entries[..j] + [entries[j]];
    assert Pack([entries[j]]) == entries[j] + "\0" + Pack([entries[j]][1..]);
  }

  /** `argz_next`, from entry j to the following one; `None` at the end. */
  datatype Pointer = Null | At(offset: nat)

  method Next(argz: string, entry: Pointer, ghost entries: seq<string>, ghost j: nat) returns (next: Pointer)
    requires argz == Pack(entries) && Plain(entries)
    requires if entry.Null? then j == 0 else 0 < j <= |entries| && entry.offset == Offset(entries, j - 1)
    ensures next == if j < |entries| then At(Offset(entries, j)) else Null
  {
    AtOffset(entries, j);
    if entry.At? {
      AtOffset(entries, j - 1);
      NextOffset(entries, j - 1);
      var n := EntryLength(argz, entry.offset, entries[j - 1..]);
      var following := entry.offset + n + 1;
      return if following >= |argz| then Null else At(following);
    } else {
      return if |argz| > 0 then At(0) else Null;
    }
  }

  /** One entry made printable: the NUL after it becomes a separator. */
  method Separate(buf: array<char>, len: nat, p: nat, sep: char, ghost entries: seq<string>) returns (p': nat)
    requires p < len <= buf.Length && buf[p..len] == Pack(entries) && Plain(entries)
    modifies buf
    ensures entries != [] && p' == p + |entries[0]| + 1 <= len
    ensures buf[..p'] == old(buf[..p]) + entries[0] + if |entries| == 1 then "\0" else [sep]
    ensures buf[p'..len] == Pack(entries[1..])
    ensures buf[len..] == old(buf[len..])
  {
    var text := buf[..len];
    assert text[p..] == buf[p..len];
    var part_len := EntryLength(text, p, entries);
    p' := p + part_len;
    assert buf[..p'] == buf[..p] + entries[0];
    assert buf[p' + 1..len] == text[p' + 1..];
    assert p' + 1 < len <==> |entries| > 1 by {
      assert |text[p' + 1..]| == |Pack(entries[1..])|;
    }
    if p' + 1 < len {
      buf[p'] := sep;
    } else {
      assert buf[p'] == text[p..][part_len] == '\0';
    }
    p' := p' + 1;
  }

  /** What `argz_stringify` makes of the entries from k on, behind the text written so far. */
  ghost predicate Joining(done: string, entries: seq<string>, k: nat, sep: char) {
    && k <= |entries|
    && (k < |entries| ==> done + Join(entries[k..], sep) == Join(entries, sep))
    && (k == |entries| && k > 0 ==> done == Join(entries, sep) + "\0")
  }

  lemma JoinNext(done: string, entries: seq<string>, k: nat, sep: char)
    requires Joining(done, entries, k, sep) && k < |entries|
    ensures Joining(done + entries[k] + if k + 1 == |entries| then "\0" else [sep], entries, k + 1, sep)
  {
    var rest := entries[k..];
    assert rest[1..] == entries[k + 1..];
    if k + 1 < |entries| {
      var tail := Join(rest[1..], sep);
      assert Join(rest, sep) == rest[0] + [sep] + tail;
      assert done + (rest[0] + [sep] + tail) == done + rest[0] + [sep] + tail;
    } else {
      assert Join(rest, sep) == rest[0];
    }
  }

  /** `argz_stringify`: every NUL but the last becomes a separator. */
  method Stringify(buf: array<char>, len: nat, sep: char, ghost entries: seq<string>)
    requires len <= buf.Length && buf[..len] == Pack(entries) && Plain(entries)
    modifies buf
    ensures entries != [] ==> buf[..len] == Join(entries, sep) + "\0"
    ensures buf[len..] == old(buf[len..])
  {
    hide Join, Joining, Pack;
    var p := 0;
    ghost var k := 0;
    JoinStarts(buf[..p], entries, sep);
    while p < len
      invariant p <= len && k <= |entries| && buf[p..len] == Pack(entries[k..]) && buf[len..] == old(buf[len..])
      invariant Joining(buf[..p], entries, k, sep)
      decreases len - p
    {
      ghost var rest := entries[k..];
      ghost var done := buf[..p];
      assert |buf[p..len]| > 0;
      JoinNext(done, entries, k, sep);
      assert rest[1..] == entries[k + 1..];
      p := Separate(buf, len, p, sep, rest);
      k := k + 1;
    }
    assert |buf[p..len]| == 0;
    JoinEnds(buf[..p], entries, k, sep);
  }

  lemma JoinStarts(done: string, entries: seq<string>, sep: char)
    requires done == ""
    ensures Joining(done, entries, 0, sep)
  {
    assert entries[0..] == entries;
  }

  lemma JoinEnds(done: string, entries: seq<string>, k: nat, sep: char)
    requires Joining(done, entries, k, sep) && entries[k..] == []
    ensures entries != [] ==> done == Join(entries, sep) + "\0"
  {
  }
}
