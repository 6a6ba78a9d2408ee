/**
 The mode record as the bot keeps it in memory, converted to and from its line
 and updated slot by slot, in place.
 */
module ChannelCodec {
  import opened Options
  import opened TextTools
  import opened ChannelModes
  import opened ChannelUpdate

  /** Two more cells than slots that `!chanmode` reaches. */
  const MODE_CELLS := MAX_MODES + 2

  class ChannelMode {
    var pModeStr: array<char>
    var pKeyword: Option<string>
    var pLimit: Option<string>

    ghost predicate Valid()
      reads this, pModeStr
    {
      pModeStr.Length == MODE_CELLS && pModeStr[12] == '\0'
    }

    ghost function Slots(): (m: Modes)
      requires Valid()
      reads this, pModeStr
      ensures |m.flags| == 12
    {
      Modes(pModeStr[..12], pKeyword, pLimit)
    }

    constructor ()
      ensures Valid() && fresh(pModeStr) && Slots() == NO_MODES
    {
      pModeStr := new char[MODE_CELLS];
      pKeyword, pLimit := None, None;
      new;
      Clear();
    }

    method Clear()
      requires pModeStr.Length == MODE_CELLS
      modifies this`pKeyword, this`pLimit, pModeStr
      ensures Valid() && Slots() == NO_MODES
    {
      pKeyword, pLimit := None, None;
      for i := 0 to 12
        invariant pKeyword == None && pLimit == None && pModeStr[..i] == BLANK[..i]
      {
        pModeStr[i] := BLANK[i];
      }
      BlankAt(0);
      ghost var blank := pModeStr[..12];
      assert blank == BLANK[..12] == BLANK;
      pModeStr[12] := '\0';
      assert pModeStr[..12] == blank;
    }

    /** One flag of a mode line; j is the next argument. */
    method StoreFlag(c: char, argv: seq<string>, j: nat) returns (j': nat)
      requires Valid() && j <= |argv| && (TakesArgument(c) ==> j < |argv|)
      modifies this`pKeyword, this`pLimit, pModeStr
      ensures Valid() && Slots() == SetFlag(old(Slots()), c, argv[j..])
      ensures j' == if TakesArgument(c) then j + 1 else j
    {
      j' := j;
      if c == '-' {
        pModeStr[MOD_TYPE] := '-';
      } else {
        var i := SlotOf(c);
        if i < 12 {
          pModeStr[i] := c;
          if c == 'k' {
            pKeyword := Some(argv[j]);
            j' := j + 1;
          } else if c == 'l' {
            pLimit := Some(argv[j]);
            j' := j + 1;
          }
        }
      }
    }

    /** `StrToChannelMode`: a k or l without its argument ends in a read through a null pointer. */
    method StrToChannelMode(line: string) returns (nullRead: bool)
      requires pModeStr.Length == MODE_CELLS
      modifies this`pKeyword, this`pLimit, pModeStr
      ensures Valid() && nullRead == !HasArguments(line)
      ensures !nullRead ==> Slots() == DecodeModes(line)
    {
      hide SetFlag, TakesArgument;
      Clear();
      ReadModesIsExact(line);
      var flags, argv := SplitLine(line);
      var j := 0;
      assert flags[0..] == flags && argv[0..] == argv;
      for i := 0 to |flags|
        invariant Valid() && j <= |argv|
        invariant ReadFlags(Slots(), flags[i..], argv[j..]) == ReadModes(line)
      {
        assert flags[i..][0] == flags[i] && flags[i..][1..] == flags[i + 1..];
        if TakesArgument(flags[i]) && j == |argv| {
          return true;
        }
        ghost var before := argv[j..];
        j := StoreFlag(flags[i], argv, j);
        assert argv[j..] == if TakesArgument(flags[i]) then before[1..] else before;
      }
      assert flags[|flags|..] == "";
      return false;
    }

    /** `ChannelModeToStr`: the buffer is large enough for any record. */
    method ChannelModeToStr() returns (buf: array<char>, n: nat)
      requires Valid()
      ensures fresh(buf) && Holds(buf, n, EncodeModes(Slots()))
    {
      hide Cleared, Trimmed;
      var nStrSize := MAX_MODES + 4 + Length(pKeyword) + Length(pLimit);
      buf := new char[nStrSize];
      for i := 0 to 13
        invariant buf[..i] == pModeStr[..i]
      {
        buf[i] := pModeStr[i];
      }
      assert buf[..12] == buf[..13][..12] == Slots().flags;
      assert buf[12] == buf[..13][12] == '\0';
      n := ClearSpace(buf, 12);
      ghost var letters := buf[..n];
      var found := Contains(buf, n, 'k');
      if found && pKeyword.Some? {
        n := AppendArgument(buf, n, pKeyword.value);
        Regroup(letters, " ", pKeyword.value);
      }
      ghost var s := letters + if 'k' in letters then Argument(pKeyword) else "";
      assert buf[..n] == s;
      found := Contains(buf, n, 'l');
      if found && pLimit.Some? {
        n := AppendArgument(buf, n, pLimit.value);
        Regroup(s, " ", pLimit.value);
      }
      assert buf[..n] == s + if 'l' in s then Argument(pLimit) else "";
      n := Trim(buf, n);
    }

    /** The update of the slots by a command's modes. */
    method ChangeModes(sNewMode: ChannelMode)
      requires Valid() && sNewMode.Valid() && sNewMode != this && sNewMode.pModeStr != pModeStr
      modifies this`pKeyword, this`pLimit, pModeStr
      ensures Valid() && Slots() == Update(old(Slots()), sNewMode.Slots())
    {
      ghost var was, new_ := Slots(), sNewMode.Slots();
      for i := 1 to MAX_MODES
        invariant Valid() && sNewMode.Slots() == new_ && Slots() == UpdateTo(was, new_, i)
      {
        ChangeSlot(sNewMode, i);
      }
      var any := false;
      for i := 0 to 12
        invariant any <==> exists j :: 0 <= j < i && pModeStr[j] in CHANNEL_MODES
      {
        if pModeStr[i] in CHANNEL_MODES {
          any := true;
        }
      }
      assert any <==> AnyMode(pModeStr[..12]);
      pModeStr[MOD_TYPE] := if any then '+' else ' ';
    }

    method ChangeSlot(sNewMode: ChannelMode, i: nat)
      requires Valid() && sNewMode.Valid() && sNewMode != this && sNewMode.pModeStr != pModeStr && 1 <= i < 12
      modifies this`pKeyword, this`pLimit, pModeStr
      ensures Valid() && Slots() == UpdateSlot(old(Slots()), sNewMode.Slots(), i)
    {
      var c := sNewMode.pModeStr[i];
      if sNewMode.pModeStr[MOD_TYPE] == '+' {
        if c != ' ' {
          pModeStr[i] := c;
          if c == 'k' && sNewMode.pKeyword.Some? {
            pKeyword := sNewMode.pKeyword;
          } else if c == 'l' && sNewMode.pLimit.Some? {
            pLimit := sNewMode.pLimit;
          }
        }
      } else if sNewMode.pModeStr[MOD_TYPE] == '-' {
        if c != ' ' {
          if c == 'k' {
            pKeyword := None;
          } else if c == 'l' {
            pLimit := None;
          }
          pModeStr[i] := ' ';
        }
      }
    }
  }

  function Length(o: Option<string>): nat {
    if o.Some? then |o.value| else 0
  }

  /** `strchr` up to the NUL. */
  method Contains(buf: array<char>, n: nat, c: char) returns (found: bool)
    requires n < buf.Length
    ensures found <==> c in buf[..n]
  {
    found := false;
    for i := 0 to n
      invariant found <==> c in buf[..i]
    {
      if buf[i] == c {
        found := true;
      }
    }
  }

  /** Two `strcat`: a space and an argument. */
  method AppendArgument(buf: array<char>, n: nat, arg: string) returns (n': nat)
    requires n + 1 + |arg| < buf.Length
    modifies buf
    ensures n' == n + 1 + |arg| && Holds(buf, n', old(buf[..n]) + " " + arg)
  {
    ghost var before := buf[..n];
    buf[n] := ' ';
    n' := n + 1;
    for i := 0 to |arg|
      invariant n' == n + 1 + i && buf[..n'] == before + " " + arg[..i]
    {
      buf[n'] := arg[i];
      n' := n' + 1;
    }
    assert arg[..|arg|] == arg;
    buf[n'] := '\0';
  }

  /** Splits a line at its spaces: the flags, and at most two arguments. */
  method SplitLine(line: string) returns (flags: string, argv: seq<string>)
    ensures flags == FirstWord(line) && argv == Split(AfterWord(line), 2)
  {
    var rest: Option<string>;
    flags, rest := CutWord(line);
    argv := [];
    var i := 0;
    while i < 2 && rest.Some?
      invariant i <= 2 && argv + Split(rest, 2 - i) == Split(AfterWord(line), 2)
    {
      var word, after := CutWord(rest.value);
      argv := argv + [word];
      rest := after;
      i := i + 1;
    }
  }

  method CutWord(s: string) returns (word: string, rest: Option<string>)
    ensures word == FirstWord(s) && rest == AfterWord(s)
  {
    var i := 0;
    while i < |s| && s[i] != ' '
      invariant i <= |s| && s[..i] + FirstWord(s[i..]) == FirstWord(s) && AfterWord(s[i..]) == AfterWord(s)
    {
      assert s[i..][1..] == s[i + 1..] && s[..i + 1] == s[..i] + [s[i]];
      i := i + 1;
    }
    word := s[..i];
    assert i < |s| ==> s[i..][1..] == s[i + 1..];
    rest := if i < |s| then Some(s[i + 1..]) else None;
  }
}
