/**
 The channel modes: the slots of a mode record and the line that stores them.
 */
module ChannelModes {
  import opened Options
  import opened TextTools

  /** The letter of each slot, in the order of the slots. */
  const LETTERS := "+kltnmpsaqri"

  const MOD_TYPE := 0
  const MOD_KEYWORD := 1
  const MOD_LIMIT := 2

  const BLANK := "            "

  datatype Modes = Modes(flags: seq<char>, keyword: Option<string>, limit: Option<string>)

  /** The slot of a letter. */
  function SlotOf(c: char): (i: nat)
    ensures i <= 12
    ensures i < 12 ==> LETTERS[i] == c
  {
    match c
    case '+' => 0
    case 'k' => 1
    case 'l' => 2
    case 't' => 3
    case 'n' => 4
    case 'm' => 5
    case 'p' => 6
    case 's' => 7
    case 'a' => 8
    case 'q' => 9
    case 'r' => 10
    case 'i' => 11
    case _ => 12
  }

  lemma SlotOfLetter(i: nat)
    requires i < 12
    ensures SlotOf(LETTERS[i]) == i
  {
  }

  predicate IsWord(s: string) {
    s != "" && forall i :: 0 <= i < |s| ==> !IsBlank(s[i])
  }

  predicate WordOption(o: Option<string>) {
    o.Some? ==> IsWord(o.value)
  }

  /**
   What every stored record keeps: each slot blank or its letter, k with a keyword, l with a limit,
   words for both.
   */
  predicate ModesOk(m: Modes) {
    && |m.flags| == 12
    && (forall i :: 0 <= i < 12 ==> m.flags[i] == ' ' || m.flags[i] == LETTERS[i])
    && (m.flags[MOD_KEYWORD] == 'k' <==> m.keyword.Some?) && (m.flags[MOD_LIMIT] == 'l' <==> m.limit.Some?)
    && WordOption(m.keyword) && WordOption(m.limit)
  }

  function Argument(o: Option<string>): string {
    if o.Some? then " " + o.value else ""
  }

  /** The mode line of a record. */
  function EncodeModes(m: Modes): string {
    var letters := Cleared(m.flags, false);
    var s := letters + if 'k' in letters then Argument(m.keyword) else "";
    Trimmed(s + if 'l' in s then Argument(m.limit) else "")
  }

  /** The first word, and what follows the space after it. */
  function FirstWord(s: string): string
    decreases |s|
  {
    if s == "" || s[0] == ' ' then "" else [s[0]] + FirstWord(s[1..])
  }

  function AfterWord(s: string): Option<string>
    decreases |s|
  {
    if s == "" then None else if s[0] == ' ' then Some(s[1..]) else AfterWord(s[1..])
  }

  /** The words of a line, three at most. */
  function Split(s: Option<string>, n: nat): (argv: seq<string>)
    ensures |argv| <= n
    decreases n
  {
    if n == 0 || s.None? then [] else [FirstWord(s.value)] + Split(AfterWord(s.value), n - 1)
  }

  predicate TakesArgument(c: char) { c == 'k' || c == 'l' }

  /** How many arguments the flags take. */
  function Needs(flags: string): nat
    decreases |flags|
  {
    if flags == "" then 0 else (if TakesArgument(flags[0]) then 1 else 0) + Needs(flags[1..])
  }

  /** One flag, with the arguments that are left. */
  function SetFlag(m: Modes, c: char, args: seq<string>): Modes
    requires |m.flags| == 12 && (TakesArgument(c) ==> args != [])
  {
    if c == '-' then m.(flags := m.flags[MOD_TYPE := '-'])
    else if SlotOf(c) == 12 then m
    else
      var m' := m.(flags := m.flags[SlotOf(c) := c]);
      if c == 'k' then m'.(keyword := Some(args[0])) else if c == 'l' then m'.(limit := Some(args[0])) else m'
  }

  function SetFlags(m: Modes, flags: string, args: seq<string>): (m': Modes)
    requires |m.flags| == 12 && Needs(flags) <= |args|
    ensures |m'.flags| == 12
    decreases |flags|
  {
    if flags == "" then m
    else SetFlags(SetFlag(m, flags[0], args), flags[1..], if TakesArgument(flags[0]) then args[1..] else args)
  }

  /** The line has an argument for every k and l. */
  predicate HasArguments(line: string) {
    Needs(FirstWord(line)) <= |Split(AfterWord(line), 2)|
  }

  const NO_MODES := Modes(BLANK, None, None)

  function DecodeModes(line: string): (m: Modes)
    requires HasArguments(line)
    ensures |m.flags| == 12
  {
    SetFlags(NO_MODES, FirstWord(line), Split(AfterWord(line), 2))
  }

  /**
   The flag loop as it runs. It ends in none when it reaches for an argument that is not there:
   the source then reads through a null pointer, or past its array of three.
   */
  function ReadFlags(m: Modes, flags: string, args: seq<string>): Option<Modes>
    requires |m.flags| == 12
    decreases |flags|
  {
    if flags == "" then Some(m)
    else if TakesArgument(flags[0]) && args == [] then None
    else ReadFlags(SetFlag(m, flags[0], args), flags[1..], if TakesArgument(flags[0]) then args[1..] else args)
  }

  function ReadModes(line: string): Option<Modes> {
    ReadFlags(NO_MODES, FirstWord(line), Split(AfterWord(line), 2))
  }

  lemma {:induction false} FlagsAreRead(m: Modes, flags: string, args: seq<string>)
    requires |m.flags| == 12
    ensures Needs(flags) <= |args| ==> ReadFlags(m, flags, args) == Some(SetFlags(m, flags, args))
    ensures Needs(flags) > |args| ==> ReadFlags(m, flags, args) == None
    decreases |flags|
  {
    hide SetFlag;
    if flags != "" && !(TakesArgument(flags[0]) && args == []) {
      FlagKeepsLength(m, flags[0], args);
      FlagsAreRead(SetFlag(m, flags[0], args), flags[1..], if TakesArgument(flags[0]) then args[1..] else args);
    }
  }

  lemma FlagKeepsLength(m: Modes, c: char, args: seq<string>)
    requires |m.flags| == 12 && (TakesArgument(c) ==> args != [])
    ensures |SetFlag(m, c, args).flags| == 12
  {
  }

  /** A mode line is read exactly when it has an argument for every k and l. */
  lemma ReadModesIsExact(line: string)
    ensures ReadModes(line).Some? <==> HasArguments(line)
    ensures HasArguments(line) ==> ReadModes(line).value == DecodeModes(line)
  {
    hide FirstWord, AfterWord, Split, Needs, ReadFlags, SetFlags;
    FlagsAreRead(NO_MODES, FirstWord(line), Split(AfterWord(line), 2));
  }

  /** A slot takes its letter exactly when the letter is among the flags. */
  lemma {:induction false} SlotsRead(m: Modes, flags: string, args: seq<string>, i: nat)
    requires |m.flags| == 12 && Needs(flags) <= |args| && 1 <= i < 12
    ensures SetFlags(m, flags, args).flags[i] == if LETTERS[i] in flags then LETTERS[i] else m.flags[i]
    decreases |flags|
  {
    hide SetFlag, TakesArgument;
    if flags != "" {
      assert flags == [flags[0]] + flags[1..];
      OneSlotRead(m, flags[0], args, i);
      SlotsRead(SetFlag(m, flags[0], args), flags[1..], if TakesArgument(flags[0]) then args[1..] else args, i);
    }
  }

  lemma OneSlotRead(m: Modes, c: char, args: seq<string>, i: nat)
    requires |m.flags| == 12 && (TakesArgument(c) ==> args != []) && 1 <= i < 12
    ensures |SetFlag(m, c, args).flags| == 12
    ensures SetFlag(m, c, args).flags[i] == if c == LETTERS[i] then LETTERS[i] else m.flags[i]
  {
    SlotOfLetter(i);
    LetterTakesArgument(i);
  }

  /** The sign is the last plus or minus among the flags. */
  lemma {:induction false} SignRead(m: Modes, flags: string, args: seq<string>, k: nat)
    requires |m.flags| == 12 && Needs(flags) <= |args| && k <= |flags|
    requires forall j :: k < j < |flags| ==> flags[j] != '+' && flags[j] != '-'
    requires k < |flags| ==> flags[k] == '+' || flags[k] == '-'
    ensures k < |flags| ==> SetFlags(m, flags, args).flags[MOD_TYPE] == flags[k]
    ensures '+' !in flags && '-' !in flags ==> SetFlags(m, flags, args).flags[MOD_TYPE] == m.flags[MOD_TYPE]
    decreases |flags|
  {
    hide SetFlag, TakesArgument;
    if flags != "" {
      OneSignRead(m, flags[0], args);
      var rest := flags[1..];
      assert flags == [flags[0]] + rest;
      if k == 0 {
        assert '+' !in rest && '-' !in rest;
      }
      SignRead(SetFlag(m, flags[0], args), rest, if TakesArgument(flags[0]) then args[1..] else args,
        if k == 0 then |rest| else k - 1);
    }
  }

  lemma OneSignRead(m: Modes, c: char, args: seq<string>)
    requires |m.flags| == 12 && (TakesArgument(c) ==> args != [])
    ensures |SetFlag(m, c, args).flags| == 12
    ensures SetFlag(m, c, args).flags[MOD_TYPE] == if c == '+' || c == '-' then c else m.flags[MOD_TYPE]
  {
  }

  /** Keyword and limit are the arguments of the last k and l, counting every k and l before it. */
  lemma {:induction false} ArgumentsRead(m: Modes, flags: string, args: seq<string>, c: char, k: nat)
    requires |m.flags| == 12 && Needs(flags) <= |args| && k <= |flags| && TakesArgument(c)
    requires (k < |flags| ==> flags[k] == c) && forall j :: k < j < |flags| ==> flags[j] != c
    ensures k < |flags| ==>
      Needs(flags[..k]) < |args| && Given(SetFlags(m, flags, args), c) == Some(args[Needs(flags[..k])])
    ensures c !in flags ==> Given(SetFlags(m, flags, args), c) == Given(m, c)
    decreases |flags|
  {
    hide SetFlag;
    if flags != "" {
      OneArgumentRead(m, flags[0], args, c);
      var rest, left := flags[1..], if TakesArgument(flags[0]) then args[1..] else args;
      assert flags == [flags[0]] + rest;
      if k == 0 {
        assert c !in rest && flags[..0] == "";
      } else {
        assert k < |flags| ==> flags[..k] == [flags[0]] + rest[..k - 1];
        assert k < |flags| ==> flags[..k][1..] == rest[..k - 1];
      }
      ArgumentsRead(SetFlag(m, flags[0], args), rest, left, c, if k == 0 then |rest| else k - 1);
    }
  }

  function Given(m: Modes, c: char): Option<string> { if c == 'k' then m.keyword else m.limit }

  lemma OneArgumentRead(m: Modes, flag: char, args: seq<string>, c: char)
    requires |m.flags| == 12 && (TakesArgument(flag) ==> args != []) && TakesArgument(c)
    ensures |SetFlag(m, flag, args).flags| == 12
    ensures Given(SetFlag(m, flag, args), c) == if flag == c then Some(args[0]) else Given(m, c)
  {
  }

  /** The words of a line. */
  function WordsOf(line: string): seq<string> { Split(AfterWord(line), 2) }

  /**
   What a mode line means: the slot of each letter in its first word is set, the sign is the last plus or
   minus there, and keyword and limit are the words that stand for the last k and the last l.
   */
  lemma DecodedIsExact(line: string, i: nat, c: char, k: nat)
    requires HasArguments(line) && 1 <= i < 12 && (c == '+' || c == '-' || TakesArgument(c))
    requires var flags := FirstWord(line);
      k < |flags| && flags[k] == c
      && forall j :: k < j < |flags| ==> if TakesArgument(c) then flags[j] != c else flags[j] != '+' && flags[j] != '-'
    ensures var flags, m := FirstWord(line), DecodeModes(line);
      && m.flags[i] == (if LETTERS[i] in flags then LETTERS[i] else ' ')
      && (if TakesArgument(c) then
            Needs(flags[..k]) < |WordsOf(line)| && Given(m, c) == Some(WordsOf(line)[Needs(flags[..k])])
          else m.flags[MOD_TYPE] == c)
  {
    var flags, args := FirstWord(line), Split(AfterWord(line), 2);
    BlankAt(i);
    hide FirstWord, AfterWord, Split, SetFlags;
    SlotsRead(NO_MODES, flags, args, i);
    if TakesArgument(c) {
      ArgumentsRead(NO_MODES, flags, args, c, k);
    } else {
      SignRead(NO_MODES, flags, args, k);
    }
  }

  /** Without a sign, a k or an l there is no sign, no keyword and no limit. */
  lemma DecodedIsNoMore(line: string, i: nat)
    requires HasArguments(line) && 1 <= i < 12
    ensures var flags, m := FirstWord(line), DecodeModes(line);
      && m.flags[i] == (if LETTERS[i] in flags then LETTERS[i] else ' ')
      && ('+' !in flags && '-' !in flags ==> m.flags[MOD_TYPE] == ' ')
      && ('k' !in flags ==> m.keyword == None) && ('l' !in flags ==> m.limit == None)
  {
    var flags, args := FirstWord(line), Split(AfterWord(line), 2);
    BlankAt(i);
    BlankAt(MOD_TYPE);
    hide FirstWord, AfterWord, Split, SetFlags;
    SlotsRead(NO_MODES, flags, args, i);
    if '+' !in flags && '-' !in flags {
      SignRead(NO_MODES, flags, args, |flags|);
    }
    if 'k' !in flags {
      ArgumentsRead(NO_MODES, flags, args, 'k', |flags|);
    }
    if 'l' !in flags {
      ArgumentsRead(NO_MODES, flags, args, 'l', |flags|);
    }
  }

  /** `!chanmode -k` is enough: the letter takes an argument even where it removes the keyword. */
  lemma LoneKeywordIsNotRead()
    ensures ReadModes("-k") == None
  {
    LettersSplit("-k");
    hide FirstWord, AfterWord, Split, ReadFlags;
    assert "-k"[1..] == "k";
    assert Needs("-k") == 1 by { assert Needs("k") == 1; }
    FlagsAreRead(NO_MODES, "-k", []);
  }

  /** Without quotes, what is cleared is the spaces. */
  lemma {:induction false} ClearedIsSpaceless(s: string)
    requires forall i :: 0 <= i < |s| ==> s[i] != '\"'
    ensures forall c :: c in Cleared(s, false) <==> c in s && c != ' '
    decreases |s|
  {
    if s != "" {
      ClearedIsSpaceless(s[1..]);
      assert s == [s[0]] + s[1..];
    }
  }

  /** A letter is among the flags exactly when its slot is set. */
  lemma SlotTells(m: Modes, i: nat)
    requires ModesOk(m) && i < 12
    ensures LETTERS[i] in m.flags <==> m.flags[i] == LETTERS[i]
  {
    hide ModesOk, IsWord;
    OkSlots(m);
    SlotOfLetter(i);
    if LETTERS[i] in m.flags {
      var j :| 0 <= j < 12 && m.flags[j] == LETTERS[i];
      LetterTakesArgument(i);
      SlotOfLetter(j);
    }
  }

  lemma OkSlots(m: Modes)
    requires ModesOk(m)
    ensures |m.flags| == 12 && forall i :: 0 <= i < 12 ==> m.flags[i] == ' ' || m.flags[i] == LETTERS[i]
  {
  }

  lemma LetterIsPlain(i: nat)
    requires i < 12
    ensures !IsBlank(LETTERS[i]) && LETTERS[i] != '\"'
  {
  }

  /** The stored letters tell which flags are set. */
  lemma LettersTell(m: Modes)
    requires ModesOk(m)
    ensures var letters := Cleared(m.flags, false);
      && (forall i :: 0 <= i < |letters| ==> !IsBlank(letters[i]))
      && ('k' in letters <==> m.keyword.Some?) && ('l' in letters <==> m.limit.Some?)
  {
    hide Cleared, IsBlank, IsWord;
    var letters := Cleared(m.flags, false);
    forall i | 0 <= i < 12 ensures m.flags[i] != '\"' && (m.flags[i] == ' ' || !IsBlank(m.flags[i])) {
      LetterIsPlain(i);
    }
    ClearedIsSpaceless(m.flags);
    forall i | 0 <= i < |letters| ensures !IsBlank(letters[i]) {
      assert letters[i] in letters;
      var j :| 0 <= j < 12 && m.flags[j] == letters[i];
    }
    SlotTells(m, MOD_KEYWORD);
    SlotTells(m, MOD_LIMIT);
  }

  lemma ArgumentTrim(s: string, o: Option<string>)
    requires IsTrim(s) && WordOption(o) && (o.Some? ==> s != "")
    ensures IsTrim(s + Argument(o))
  {
    if o.Some? {
      var t := s + Argument(o);
      assert forall i :: 0 <= i < |t| ==>
        t[i] == if i < |s| then s[i] else if i == |s| then ' ' else o.value[i - |s| - 1];
    }
  }

  /** The mode line of a record: letters, keyword, limit. */
  lemma EncodedLine(m: Modes)
    requires ModesOk(m)
    ensures EncodeModes(m) == Cleared(m.flags, false) + Argument(m.keyword) + Argument(m.limit)
    ensures IsTrim(EncodeModes(m))
  {
    hide Cleared, IsTrim, Trimmed, ModesOk;
    var letters := Cleared(m.flags, false);
    assert WordOption(m.keyword) && WordOption(m.limit) by { OkOptions(m); }
    LettersTell(m);
    NoBlanksTrim(letters);
    ArgumentTrim(letters, m.keyword);
    ArgumentTrim(letters + Argument(m.keyword), m.limit);
    TrimmedIsTrim(letters + Argument(m.keyword) + Argument(m.limit));
    if m.limit.None? {
      assert Argument(m.limit) == "";
    }
  }

  lemma OkOptions(m: Modes)
    requires ModesOk(m)
    ensures WordOption(m.keyword) && WordOption(m.limit)
  {
  }

  lemma NoBlanksTrim(s: string)
    requires forall i :: 0 <= i < |s| ==> !IsBlank(s[i])
    ensures IsTrim(s)
  {
  }

  lemma {:induction false} SplitAtSpace(w: string, rest: string)
    requires forall i :: 0 <= i < |w| ==> w[i] != ' '
    ensures FirstWord(w) == w && AfterWord(w) == None
    ensures FirstWord(w + " " + rest) == w && AfterWord(w + " " + rest) == Some(rest)
    decreases |w|
  {
    var t := w + " " + rest;
    if w != "" {
      SplitAtSpace(w[1..], rest);
      assert t[1..] == w[1..] + " " + rest;
    } else {
      assert t[1..] == rest;
    }
  }

  function Words(o: Option<string>): seq<string> {
    if o.Some? then [o.value] else []
  }

  /** The arguments that the flags from slot i on take. */
  function ArgsFrom(m: Modes, i: nat): seq<string> {
    (if i <= MOD_KEYWORD then Words(m.keyword) else []) + (if i <= MOD_LIMIT then Words(m.limit) else [])
  }

  /** The record with the slots before i filled in. */
  function FilledTo(m: Modes, i: nat): Modes
    requires |m.flags| == 12 && i <= 12
  {
    Modes(m.flags[..i] + BLANK[i..],
          if i > MOD_KEYWORD then m.keyword else None,
          if i > MOD_LIMIT then m.limit else None)
  }

  lemma PutSlot(flags: string, blank: string, i: nat)
    requires |flags| == |blank| && i < |flags|
    ensures (flags[..i] + blank[i..])[i := flags[i]] == flags[..i + 1] + blank[i + 1..]
  {
  }

  /** Slot i is filled by its letter. */
  lemma FillSlot(m: Modes, i: nat)
    requires ModesOk(m) && i < 12 && m.flags[i] != ' '
    ensures TakesArgument(m.flags[i]) ==> ArgsFrom(m, i) != []
    ensures SetFlag(FilledTo(m, i), m.flags[i], ArgsFrom(m, i)) == FilledTo(m, i + 1)
    ensures ArgsFrom(m, i + 1) == if TakesArgument(m.flags[i]) then ArgsFrom(m, i)[1..] else ArgsFrom(m, i)
  {
    var c := m.flags[i];
    assert c == LETTERS[i];
    SlotOfLetter(i);
    LetterTakesArgument(i);
    PutSlot(m.flags, BLANK, i);
  }

  lemma LetterTakesArgument(i: nat)
    requires i < 12
    ensures LETTERS[i] != '-' && LETTERS[i] != '\"' && LETTERS[i] != ' '
    ensures TakesArgument(LETTERS[i]) <==> i == MOD_KEYWORD || i == MOD_LIMIT
    ensures LETTERS[i] == 'k' <==> i == MOD_KEYWORD
  {
  }

  lemma BlankAt(i: nat)
    requires i < 12
    ensures |BLANK| == 12 && BLANK[i] == ' '
  {
  }

  lemma NextSlot(flags: string, blank: string, i: nat)
    requires |flags| == |blank| && i < |flags| && flags[i] == blank[i]
    ensures flags[..i] + blank[i..] == flags[..i + 1] + blank[i + 1..]
  {
    assert blank[i..] == [blank[i]] + blank[i + 1..];
    assert flags[..i + 1] == flags[..i] + [flags[i]];
  }

  lemma SkipSlot(m: Modes, i: nat)
    requires ModesOk(m) && i < 12 && m.flags[i] == ' '
    ensures FilledTo(m, i) == FilledTo(m, i + 1) && ArgsFrom(m, i) == ArgsFrom(m, i + 1)
  {
    BlankAt(i);
    NextSlot(m.flags, BLANK, i);
  }

  /** Setting the letters of the slots from i on completes the record. */
  lemma {:induction false} FillFrom(m: Modes, i: nat)
    requires ModesOk(m) && i <= 12
    ensures Needs(Cleared(m.flags[i..], false)) <= |ArgsFrom(m, i)|
    ensures SetFlags(FilledTo(m, i), Cleared(m.flags[i..], false), ArgsFrom(m, i)) == m
    decreases 12 - i
  {
    hide FilledTo, ArgsFrom, SetFlag, TakesArgument;
    if i == 12 {
      AllFilled(m);
    } else {
      FillFrom(m, i + 1);
      LetterTakesArgument(i);
      assert m.flags[i..][1..] == m.flags[i + 1..];
      var rest := Cleared(m.flags[i + 1..], false);
      if m.flags[i] == ' ' {
        SkipSlot(m, i);
      } else {
        FillSlot(m, i);
        assert Cleared(m.flags[i..], false) == [m.flags[i]] + rest;
        assert ([m.flags[i]] + rest)[1..] == rest;
      }
    }
  }

  lemma AllFilled(m: Modes)
    requires ModesOk(m)
    ensures FilledTo(m, 12) == m && m.flags[12..] == ""
  {
    assert m.flags[..12] + BLANK[12..] == m.flags;
  }

  lemma BlankSpace(s: string)
    requires forall i :: 0 <= i < |s| ==> !IsBlank(s[i])
    ensures forall i :: 0 <= i < |s| ==> s[i] != ' '
  {
  }

  lemma LastWord(w: string)
    requires IsWord(w)
    ensures FirstWord(w) == w && AfterWord(w) == None
  {
    BlankSpace(w);
    SplitAtSpace(w, "");
  }

  /** A line of letters alone, of letters and one word, of letters and two words. */
  lemma LettersSplit(letters: string)
    requires forall i :: 0 <= i < |letters| ==> letters[i] != ' '
    ensures FirstWord(letters) == letters && Split(AfterWord(letters), 2) == []
  {
    SplitAtSpace(letters, "");
  }

  lemma OneWordSplits(letters: string, w: string)
    requires IsWord(w) && forall i :: 0 <= i < |letters| ==> letters[i] != ' '
    ensures FirstWord(letters + " " + w) == letters && Split(AfterWord(letters + " " + w), 2) == [w]
  {
    SplitAtSpace(letters, w);
    LastWord(w);
    hide FirstWord, AfterWord;
  }

  lemma TwoWordsSplit(letters: string, k: string, l: string)
    requires IsWord(k) && IsWord(l) && forall i :: 0 <= i < |letters| ==> letters[i] != ' '
    ensures FirstWord(letters + " " + (k + " " + l)) == letters
    ensures Split(AfterWord(letters + " " + (k + " " + l)), 2) == [k, l]
  {
    SplitAtSpace(letters, k + " " + l);
    BlankSpace(k);
    SplitAtSpace(k, l);
    hide FirstWord, AfterWord;
    assert Split(Some(k + " " + l), 2) == [k] + Split(Some(l), 1);
    LastWord(l);
  }

  lemma Concat(a: string, b: string, c: string, d: string)
    ensures a + "" + "" == a
    ensures a + (b + c) + "" == a + b + c
    ensures a + "" + (b + c) == a + b + c
    ensures a + (b + c) + (b + d) == a + b + (c + b + d)
  {
  }

  lemma ArgumentsSplit(letters: string, k: Option<string>, l: Option<string>)
    requires WordOption(k) && WordOption(l) && forall i :: 0 <= i < |letters| ==> letters[i] != ' '
    ensures FirstWord(letters + Argument(k) + Argument(l)) == letters
    ensures Split(AfterWord(letters + Argument(k) + Argument(l)), 2) == Words(k) + Words(l)
  {
    hide FirstWord, AfterWord, Split, IsWord;
    Concat(letters, " ", if k.Some? then k.value else "", if l.Some? then l.value else "");
    if k.Some? {
      if l.Some? {
        TwoWordsSplit(letters, k.value, l.value);
      } else {
        OneWordSplits(letters, k.value);
      }
    } else {
      if l.Some? {
        Concat(letters, " ", l.value, "");
        OneWordSplits(letters, l.value);
      } else {
        LettersSplit(letters);
      }
    }
  }

  /** The line splits into the letters and the arguments they take. */
  lemma LineSplits(m: Modes)
    requires ModesOk(m)
    ensures FirstWord(EncodeModes(m)) == Cleared(m.flags, false)
    ensures Split(AfterWord(EncodeModes(m)), 2) == ArgsFrom(m, 0)
  {
    hide Cleared, EncodeModes, IsBlank, ModesOk, FirstWord, AfterWord, Split, IsWord, Argument;
    EncodedLine(m);
    OkOptions(m);
    LettersTell(m);
    BlankSpace(Cleared(m.flags, false));
    ArgumentsSplit(Cleared(m.flags, false), m.keyword, m.limit);
  }

  /** Decoding the mode line of a record gives the record back. */
  lemma ModesRoundTrip(m: Modes)
    requires ModesOk(m)
    ensures HasArguments(EncodeModes(m)) && DecodeModes(EncodeModes(m)) == m
  {
    hide EncodeModes, ModesOk, Cleared, SetFlags, FirstWord, AfterWord, Split, ArgsFrom;
    LineSplits(m);
    FillFrom(m, 0);
    NothingFilled(m);
  }

  lemma NothingFilled(m: Modes)
    requires ModesOk(m)
    ensures FilledTo(m, 0) == NO_MODES && m.flags[0..] == m.flags
  {
  }
}
