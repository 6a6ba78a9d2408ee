/**
 What `!topic`, `!greeting` and `!chanmode` do to a stored channel record.
 */
module ChannelUpdate {
  import opened Options
  import opened TextTools
  import opened ChannelModes
  import opened ChannelRecord

  /** One more than the last slot that `!chanmode` looks at: the slot of `i` is not among them. */
  const MAX_MODES := 11

  const CHANNEL_MODES := "kltnmsprqi"

  const MOD_INVITE := 11

  const MOD_ANONYM := 8

  /** One slot of the old modes, changed as the new modes and their sign say. */
  function UpdateSlot(old_: Modes, new_: Modes, i: nat): (m: Modes)
    requires |old_.flags| == 12 == |new_.flags| && 1 <= i < 12
    ensures |m.flags| == 12
  {
    if new_.flags[i] == ' ' then old_
    else if new_.flags[MOD_TYPE] == '+' then
      var m := old_.(flags := old_.flags[i := new_.flags[i]]);
      if new_.flags[i] == 'k' && new_.keyword.Some? then m.(keyword := new_.keyword)
      else if new_.flags[i] == 'l' && new_.limit.Some? then m.(limit := new_.limit)
      else m
    else if new_.flags[MOD_TYPE] == '-' then
      var m := old_.(flags := old_.flags[i := ' ']);
      if new_.flags[i] == 'k' then m.(keyword := None)
      else if new_.flags[i] == 'l' then m.(limit := None)
      else m
    else old_
  }

  /** The first n - 1 slots that can change. */
  function UpdateTo(old_: Modes, new_: Modes, n: nat): (m: Modes)
    requires |old_.flags| == 12 == |new_.flags| && 1 <= n <= 12
    ensures |m.flags| == 12
  {
    if n == 1 then old_ else UpdateSlot(UpdateTo(old_, new_, n - 1), new_, n - 1)
  }

  predicate AnyMode(flags: string) {
    exists i :: 0 <= i < |flags| && flags[i] in CHANNEL_MODES
  }

  function Update(old_: Modes, new_: Modes): (m: Modes)
    requires |old_.flags| == 12 == |new_.flags|
    ensures |m.flags| == 12
  {
    var m := UpdateTo(old_, new_, MAX_MODES);
    m.(flags := m.flags[MOD_TYPE := if AnyMode(m.flags) then '+' else ' '])
  }

  lemma SlotKeepsOk(m: Modes, new_: Modes, i: nat)
    requires NewModesOk(m) && NewModesOk(new_) && 1 <= i < 12
    ensures NewModesOk(UpdateSlot(m, new_, i)) && UpdateSlot(m, new_, i).flags[MOD_TYPE] == m.flags[MOD_TYPE]
  {
    hide IsWord;
    LetterTakesArgument(i);
    assert new_.flags[i] != ' ' ==> new_.flags[i] == LETTERS[i];
    assert LETTERS[i] == 'l' ==> i == MOD_LIMIT;
  }

  lemma {:induction false} SlotsKeepOk(m: Modes, new_: Modes, n: nat)
    requires NewModesOk(m) && NewModesOk(new_) && 1 <= n <= 12
    ensures NewModesOk(UpdateTo(m, new_, n)) && UpdateTo(m, new_, n).flags[MOD_TYPE] == m.flags[MOD_TYPE]
  {
    if n > 1 {
      SlotsKeepOk(m, new_, n - 1);
      hide NewModesOk, UpdateSlot;
      SlotKeepsOk(UpdateTo(m, new_, n - 1), new_, n - 1);
    }
  }

  lemma OkAsNew(m: Modes)
    ensures ModesOk(m) <==> NewModesOk(m) && (m.flags[MOD_TYPE] == ' ' || m.flags[MOD_TYPE] == '+')
  {
  }

  lemma SignKeepsOk(m: Modes, sign: char)
    requires NewModesOk(m)
    ensures NewModesOk(m.(flags := m.flags[MOD_TYPE := sign]))
  {
  }

  /** The update keeps the record sound. */
  lemma UpdateKeepsOk(m: Modes, new_: Modes)
    requires ModesOk(m) && NewModesOk(new_)
    ensures ModesOk(Update(m, new_))
  {
    hide ModesOk, NewModesOk, UpdateTo, AnyMode;
    OkAsNew(m);
    OkLength(m);
    OkLength(new_);
    SlotsKeepOk(m, new_, MAX_MODES);
    var m' := UpdateTo(m, new_, MAX_MODES);
    SignKeepsOk(m', if AnyMode(m'.flags) then '+' else ' ');
    OkAsNew(Update(m, new_));
  }

  /** What one slot holds after the update. */
  function Decided(m: Modes, new_: Modes, i: nat): char
    requires |m.flags| == 12 == |new_.flags| && 1 <= i < 12
  {
    if new_.flags[i] == ' ' then m.flags[i]
    else if new_.flags[MOD_TYPE] == '+' then new_.flags[i]
    else if new_.flags[MOD_TYPE] == '-' then ' '
    else m.flags[i]
  }

  lemma {:induction false} SlotsDecided(m: Modes, new_: Modes, n: nat, i: nat)
    requires |m.flags| == 12 == |new_.flags| && 1 <= n <= 12 && 1 <= i < 12
    ensures UpdateTo(m, new_, n).flags[i] == if i < n then Decided(m, new_, i) else m.flags[i]
  {
    if n > 1 {
      SlotsDecided(m, new_, n - 1, i);
    }
  }

  /** Every slot takes what the command says, but the last: `i` is never set or removed. */
  lemma UpdateIsExact(m: Modes, new_: Modes, i: nat)
    requires |m.flags| == 12 == |new_.flags| && 1 <= i < 12
    ensures Update(m, new_).flags[i] == if i == MOD_INVITE then m.flags[i] else Decided(m, new_, i)
  {
    hide UpdateTo, Decided;
    SlotsDecided(m, new_, MAX_MODES, i);
  }

  /** The update does what the command says of every slot. */
  ghost predicate Complete(m: Modes, new_: Modes)
    requires |m.flags| == 12 == |new_.flags|
  {
    forall i :: 1 <= i < 12 ==> Update(m, new_).flags[i] == Decided(m, new_, i)
  }

  lemma CompleteAtInvite(m: Modes, new_: Modes)
    requires |m.flags| == 12 == |new_.flags|
    ensures Complete(m, new_) <==> Decided(m, new_, MOD_INVITE) == m.flags[MOD_INVITE]
  {
    hide Update, Decided;
    forall i | 1 <= i < 12
      ensures Update(m, new_).flags[i] == if i == MOD_INVITE then m.flags[i] else Decided(m, new_, i)
    {
      UpdateIsExact(m, new_, i);
    }
  }

  /**
   An update is incomplete exactly for a command that names `i`: to set it where it is not set,
   or to remove it where it is. No stored record has it, so there only setting it is lost.
   */
  lemma UpdateIsComplete(m: Modes, new_: Modes)
    requires |m.flags| == 12 == |new_.flags|
    ensures Complete(m, new_) <==>
      !(new_.flags[MOD_INVITE] != ' '
        && if new_.flags[MOD_TYPE] == '+' then m.flags[MOD_INVITE] != new_.flags[MOD_INVITE]
           else new_.flags[MOD_TYPE] == '-' && m.flags[MOD_INVITE] != ' ')
    ensures m.flags[MOD_INVITE] == ' ' ==>
      (Complete(m, new_) <==> !(new_.flags[MOD_TYPE] == '+' && new_.flags[MOD_INVITE] != ' '))
  {
    hide Complete;
    CompleteAtInvite(m, new_);
  }

  lemma FirstIsIn(s: string)
    ensures s != "" ==> s[0] in s
  {
  }

  /** No modes make an empty line. */
  lemma NoModesLine()
    ensures ModesOk(NO_MODES) && EncodeModes(NO_MODES) == ""
  {
    hide EncodeModes, Cleared, IsTrim, IsBlank;
    BlankIsSpaces();
    OkAsNew(NO_MODES);
    BlankOk();
    EncodedLine(NO_MODES);
    ClearedIsSpaceless(BLANK);
    FirstIsIn(Cleared(BLANK, false));
  }

  lemma BlankIsSpaces()
    ensures |BLANK| == 12 && forall i :: 0 <= i < 12 ==> BLANK[i] == ' '
  {
    forall i | 0 <= i < 12 ensures BLANK[i] == ' ' {
      BlankAt(i);
    }
  }

  /** What a sign and one letter without an argument decode to. */
  lemma OneLetter(i: nat)
    requires 3 <= i < 12
    ensures HasArguments("+" + [LETTERS[i]])
    ensures DecodeModes("+" + [LETTERS[i]]) == Modes(BLANK[MOD_TYPE := '+'][i := LETTERS[i]], None, None)
  {
    var c, signed := LETTERS[i], Modes(BLANK[MOD_TYPE := '+'], None, None);
    var line := "+" + [c];
    BlankAt(i);
    LetterTakesArgument(i);
    SlotOfLetter(i);
    LettersSplit(line);
    hide FirstWord, AfterWord, Split;
    assert line[1..] == [c] && [c][1..] == "";
    assert Needs([c]) == 0;
    assert SetFlag(NO_MODES, '+', []) == signed;
    assert SetFlags(signed, [c], []) == SetFlag(signed, c, []);
  }

  /** `!chanmode +i` sets nothing in a new channel. */
  lemma InviteIsLost()
    ensures HasArguments("+i") && !Complete(NO_MODES, DecodeModes("+i"))
  {
    assert "+" + [LETTERS[MOD_INVITE]] == "+i";
    OneLetter(MOD_INVITE);
    hide Complete, DecodeModes, HasArguments;
    BlankAt(MOD_INVITE);
    UpdateIsComplete(NO_MODES, DecodeModes("+i"));
  }

  /** The keyword or limit after the update. */
  function DecidedOption(letter: char, old_: Option<string>, given: Option<string>, new_: Modes, i: nat): Option<string>
    requires |new_.flags| == 12 && i < 12
  {
    if new_.flags[i] != letter then old_
    else if new_.flags[MOD_TYPE] == '+' then given
    else if new_.flags[MOD_TYPE] == '-' then None
    else old_
  }

  lemma {:induction false} OptionsDecided(m: Modes, new_: Modes, n: nat)
    requires |m.flags| == 12 && NewModesOk(new_) && 1 <= n <= 12
    ensures UpdateTo(m, new_, n).keyword
      == if n > MOD_KEYWORD then DecidedOption('k', m.keyword, new_.keyword, new_, MOD_KEYWORD) else m.keyword
    ensures UpdateTo(m, new_, n).limit
      == if n > MOD_LIMIT then DecidedOption('l', m.limit, new_.limit, new_, MOD_LIMIT) else m.limit
  {
    hide IsWord;
    if n > 1 {
      OptionsDecided(m, new_, n - 1);
      LetterTakesArgument(n - 1);
      assert LETTERS[n - 1] == 'l' ==> n - 1 == MOD_LIMIT;
    }
  }

  /** Keyword and limit follow their flags. */
  lemma UpdateOptions(m: Modes, new_: Modes)
    requires |m.flags| == 12 && NewModesOk(new_)
    ensures Update(m, new_).keyword == DecidedOption('k', m.keyword, new_.keyword, new_, MOD_KEYWORD)
    ensures Update(m, new_).limit == DecidedOption('l', m.limit, new_.limit, new_, MOD_LIMIT)
  {
    hide NewModesOk, UpdateTo, DecidedOption;
    OkLength(new_);
    OptionsDecided(m, new_, MAX_MODES);
  }

  lemma LetterIsMode(i: nat)
    requires 1 <= i < 12
    ensures LETTERS[i] in CHANNEL_MODES <==> i != MOD_ANONYM
    ensures ' ' !in CHANNEL_MODES && '+' !in CHANNEL_MODES
  {
  }

  /** The line gets its plus sign exactly when a flag other than `a` is set. */
  lemma PlusTells(m: Modes, new_: Modes)
    requires ModesOk(m) && NewModesOk(new_)
    ensures ModesOk(Update(m, new_))
    ensures Update(m, new_).flags[MOD_TYPE] == '+' <==>
      exists i :: 1 <= i < 12 && i != MOD_ANONYM && Update(m, new_).flags[i] != ' '
  {
    UpdateKeepsOk(m, new_);
    OkSlots(m);
    OkLength(new_);
    var t, m' := UpdateTo(m, new_, MAX_MODES), Update(m, new_);
    OkSlots(m');
    OkAsNew(m);
    SlotsKeepOk(m, new_, MAX_MODES);
    hide ModesOk, NewModesOk, UpdateTo;
    LetterIsMode(1);
    if AnyMode(t.flags) {
      var i :| 0 <= i < 12 && t.flags[i] in CHANNEL_MODES;
      assert i > 0 && m'.flags[i] == t.flags[i] == LETTERS[i];
      LetterIsMode(i);
    }
    if i :| 1 <= i < 12 && i != MOD_ANONYM && m'.flags[i] != ' ' {
      LetterIsMode(i);
      assert t.flags[i] == m'.flags[i] == LETTERS[i];
    }
  }

  /** The plus sign tells whether any flag is set. */
  ghost predicate SignIsRight(m: Modes)
    requires |m.flags| == 12
  {
    m.flags[MOD_TYPE] == '+' <==> exists i :: 1 <= i < 12 && m.flags[i] != ' '
  }

  /** The command leaves `a` as the only flag of the record. */
  ghost predicate OnlyAnonym(m: Modes, new_: Modes)
    requires |m.flags| == 12 == |new_.flags|
  {
    && Decided(m, new_, MOD_ANONYM) != ' ' && m.flags[MOD_INVITE] == ' '
    && forall i :: 1 <= i < MOD_INVITE && i != MOD_ANONYM ==> Decided(m, new_, i) == ' '
  }

  /** The sign goes wrong exactly where `a` is left alone: the letter is missing from the list that is searched. */
  lemma SignIsExact(m: Modes, new_: Modes)
    requires ModesOk(m) && NewModesOk(new_)
    ensures SignIsRight(Update(m, new_)) <==> !OnlyAnonym(m, new_)
  {
    PlusTells(m, new_);
    OkLength(new_);
    hide Update, Decided, ModesOk, NewModesOk;
    var m' := Update(m, new_);
    forall i | 1 <= i < 12
      ensures m'.flags[i] == if i == MOD_INVITE then m.flags[i] else Decided(m, new_, i)
    {
      UpdateIsExact(m, new_, i);
    }
    if OnlyAnonym(m, new_) {
      assert m'.flags[MOD_ANONYM] != ' ';
    }
  }

  /** `!chanmode +a` in a new channel sets the flag and no sign. */
  lemma AnonymGetsNoSign()
    ensures HasArguments("+a") && !SignIsRight(Update(NO_MODES, DecodeModes("+a")))
  {
    assert "+" + [LETTERS[MOD_ANONYM]] == "+a";
    OneLetter(MOD_ANONYM);
    NoModesLine();
    BlankIsSpaces();
    var new_ := DecodeModes("+a");
    forall i | 1 <= i < 12 && i != MOD_ANONYM ensures new_.flags[i] == ' ' && NO_MODES.flags[i] == ' ' {
      BlankAt(i);
    }
    hide DecodeModes, HasArguments, SignIsRight, Update;
    SignIsExact(NO_MODES, new_);
  }

  /** One command on a stored line. A `!chanmode` has an argument for every k and l. */
  ghost predicate Next(s: string, s': string, cmd: Command) {
    Decodable(s) &&
    match cmd
    case Topic(line) => s' == Encode(Decode(s).(topic := GetParameters(line)))
    case Greeting(line) => s' == Encode(Decode(s).(greeting := GetParameters(line)))
    case ChanMode(line) =>
      var p := GetParameters(line);
      if p.None? then s' == s
      else HasArguments(p.value) && s' == Encode(Decode(s).(modes := Update(Decode(s).modes, DecodeModes(p.value))))
  }

  /** The line stores a sound record, and gives it back. */
  ghost predicate Stores(s: string, r: Record) {
    RecordOk(r) && s == Encode(r) && Decodable(s) && Decode(s) == r
  }

  lemma EncodedStores(r: Record)
    requires RecordOk(r)
    ensures Stores(Encode(r), r)
  {
    hide Encode, Decode, ModesOk;
    RoundTrip(r);
  }

  lemma TextFromCommand(line: string)
    ensures TextOk(GetParameters(line))
  {
    ParametersAreTrim(line);
    if GetParameters(line).Some? {
      TrimHasNoTab(GetParameters(line).value);
    }
    hide GetParameters;
  }

  /** Every command takes a stored record to a stored record. */
  lemma NextKeepsStored(s: string, s': string, cmd: Command, r: Record) returns (r': Record)
    requires Stores(s, r) && Next(s, s', cmd)
    ensures Stores(s', r') && r'.modes.flags[MOD_INVITE] == r.modes.flags[MOD_INVITE]
  {
    hide Encode, Decode, ModesOk, GetParameters, DecodeModes, Update, HasArguments, NewModesOk;
    match cmd {
      case Topic(line) =>
        TextFromCommand(line);
        r' := r.(topic := GetParameters(line));
      case Greeting(line) =>
        TextFromCommand(line);
        r' := r.(greeting := GetParameters(line));
      case ChanMode(line) =>
        var p := GetParameters(line);
        r' := r;
        if p.Some? {
          ParametersAreTrim(line);
          DecodedOk(p.value);
          OkSlots(r.modes);
          UpdateKeepsOk(r.modes, DecodeModes(p.value));
          UpdateIsExact(r.modes, DecodeModes(p.value), MOD_INVITE);
          r' := r.(modes := Update(r.modes, DecodeModes(p.value)));
        }
    }
    OkSlots(r.modes);
    EncodedStores(r');
  }

  /** What `!addchannel` stores. */
  const NEW_CHANNEL := "\t\t"

  ghost predicate Run(ss: seq<string>, cmds: seq<Command>) {
    |ss| == |cmds| + 1 && ss[0] == NEW_CHANNEL && forall i :: 0 <= i < |cmds| ==> Next(ss[i], ss[i + 1], cmds[i])
  }

  lemma NewChannelStores()
    ensures Stores(NEW_CHANNEL, Record(NO_MODES, None, None))
  {
    hide EncodeModes, ModesOk, Decode, Decodable;
    NoModesLine();
    var r := Record(NO_MODES, None, None);
    assert Encode(r) == "" + "\t" + "" + "\t" + "" == NEW_CHANNEL;
    EncodedStores(r);
  }

  /** Every record reachable from a new channel is sound and decodes to itself; none ever has the flag `i`. */
  lemma {:induction false} ReachableRecordsDecode(ss: seq<string>, cmds: seq<Command>, k: nat) returns (r: Record)
    requires Run(ss, cmds) && k < |ss|
    ensures Stores(ss[k], r) && r.modes.flags[MOD_INVITE] == ' '
  {
    hide Stores, Next;
    if k == 0 {
      NewChannelStores();
      BlankAt(MOD_INVITE);
      r := Record(NO_MODES, None, None);
    } else {
      var before := ReachableRecordsDecode(ss, cmds, k - 1);
      assert Next(ss[k - 1], ss[k], cmds[k - 1]);
      StoredLength(ss[k - 1], before);
      r := NextKeepsStored(ss[k - 1], ss[k], cmds[k - 1], before);
      StoredLength(ss[k], r);
    }
  }

  lemma StoredLength(s: string, r: Record)
    requires Stores(s, r)
    ensures |r.modes.flags| == 12
  {
  }
}
