/**
 The commands on channel records, from the message line to the database.
 */
module ChannelCommands {
  import opened Options
  import opened TextTools
  import opened ChannelModes
  import opened ChannelRecord
  import opened ChannelUpdate
  import opened ChannelCodec
  import opened Databases

  /** The first tab: the text before it and after it. */
  method CutTab(s: string) returns (head: string, rest: Option<string>)
    ensures head == BeforeTab(s) && rest == AfterTab(s)
  {
    var i := 0;
    while i < |s| && s[i] != '\t'
      invariant i <= |s| && s[..i] + BeforeTab(s[i..]) == BeforeTab(s) && AfterTab(s[i..]) == AfterTab(s)
    {
      assert s[i..][1..] == s[i + 1..] && s[..i + 1] == s[..i] + [s[i]];
      i := i + 1;
    }
    head := s[..i];
    assert i < |s| ==> s[i..][1..] == s[i + 1..];
    rest := if i < |s| then Some(s[i + 1..]) else None;
  }

  method GetChannelMode(pChannelSet: string) returns (pMod: string)
    ensures pMod == ModePart(pChannelSet)
  {
    var head, rest := CutTab(pChannelSet);
    pMod := if rest.None? then "" else head;
  }

  method GetTopic(pChannelSet: string) returns (pTopic: Option<string>)
    ensures pTopic == TopicPart(pChannelSet)
  {
    pTopic := None;
    var _, rest := CutTab(pChannelSet);
    if rest.Some? {
      var text, end := CutTab(rest.value);
      if end.Some? && |text| > 0 {
        pTopic := Some(text);
      }
    }
  }

  lemma {:induction false} LastTabAt(s: string, k: nat)
    requires k < |s| && s[k] == '\t' && '\t' !in s[k + 1..]
    ensures AfterLastTab(s) == Some(s[k + 1..])
    decreases |s|
  {
    if s[0] == '\t' {
      if k == 0 {
        TablessEnd(s[1..]);
      } else {
        assert s[1..][k - 1 + 1..] == s[k + 1..];
        LastTabAt(s[1..], k - 1);
      }
    } else {
      assert s[1..][k - 1 + 1..] == s[k + 1..];
      LastTabAt(s[1..], k - 1);
    }
  }

  lemma {:induction false} TablessEnd(s: string)
    requires '\t' !in s
    ensures AfterTab(s) == None
    decreases |s|
  {
    if s != "" {
      TablessEnd(s[1..]);
    }
  }

  /** `strrchr`: from the end of the line. */
  method GetGreeting(pChannelSet: string) returns (pGreeting: Option<string>)
    ensures pGreeting == GreetingPart(pChannelSet)
  {
    var i: nat := |pChannelSet|;
    while i > 0 && pChannelSet[i - 1] != '\t'
      invariant i <= |pChannelSet| && '\t' !in pChannelSet[i..]
    {
      i := i - 1;
    }
    if i == 0 {
      assert pChannelSet[0..] == pChannelSet;
      TablessEnd(pChannelSet);
      return None;
    }
    LastTabAt(pChannelSet, i - 1);
    var pPos := pChannelSet[i..];
    return if |pPos| == 0 then None else Some(pPos);
  }

  /** The trimmed text behind the first space after the command that has any. */
  method GetArgument(pLine: string) returns (pArg: Option<string>)
    ensures pArg == ChannelRecord.GetArgument(pLine)
  {
    var p := 0;
    while p + 3 <= |pLine| && pLine[p..p + 3] != COMMAND_SIGN
      invariant p <= |pLine| && ChannelRecord.GetArgument(pLine[p..]) == ChannelRecord.GetArgument(pLine)
    {
      assert pLine[p..][..3] == pLine[p..p + 3] && pLine[p..][1..] == pLine[p + 1..];
      p := p + 1;
    }
    if p + 3 > |pLine| {
      return None;
    }
    assert pLine[p..][..3] == pLine[p..p + 3] && pLine[p..][3..] == pLine[p + 3..];
    pArg := ArgumentOf(pLine[p + 3..]);
  }

  method ArgumentOf(pStr: string) returns (pArg: Option<string>)
    ensures pArg == ArgumentAfter(pStr)
  {
    var i := 0;
    while i < |pStr|
      invariant i <= |pStr| && ArgumentAfter(pStr[i..]) == ArgumentAfter(pStr)
    {
      assert pStr[i..][1..] == pStr[i + 1..];
      if pStr[i] == ' ' {
        var pPos := TrimCopy(pStr[i + 1..]);
        if |pPos| > 0 {
          return Some(pPos);
        }
      }
      i := i + 1;
    }
    return None;
  }

  method TrimCopy(s: string) returns (t: string)
    ensures t == Trimmed(s)
  {
    var buf := new char[|s| + 1];
    for i := 0 to |s|
      invariant buf[..i] == s[..i]
    {
      buf[i] := s[i];
    }
    buf[|s|] := '\0';
    assert buf[..|s|] == s[..|s|] == s;
    var j := Trim(buf, |s|);
    t := buf[..j];
  }

  method GetParameters(pLine: string) returns (pParameter: Option<string>)
    ensures pParameter == ChannelRecord.GetParameters(pLine)
  {
    var pArg := GetArgument(pLine);
    if pArg.None? || pArg.value[0] != '#' {
      return pArg;
    }
    var _, rest := CutWord(pArg.value);
    return rest;
  }

  /** The record in memory. */
  class ChannelData {
    const sModes: ChannelMode
    var pTopic: Option<string>
    var pGreeting: Option<string>

    ghost predicate Valid()
      reads this, sModes, sModes.pModeStr
    {
      sModes.Valid()
    }

    ghost function Value(): Record
      requires Valid()
      reads this, sModes, sModes.pModeStr
    {
      Record(sModes.Slots(), pTopic, pGreeting)
    }

    /** `StrToChannelData`. */
    constructor (pChannelSet: string)
      requires Decodable(pChannelSet)
      ensures Valid() && fresh(sModes) && fresh(sModes.pModeStr) && Value() == Decode(pChannelSet)
    {
      sModes := new ChannelMode();
      pTopic, pGreeting := None, None;
      new;
      hide DecodeModes, HasArguments, ModePart, TopicPart, GreetingPart;
      pGreeting := GetGreeting(pChannelSet);
      pTopic := GetTopic(pChannelSet);
      var pMode := GetChannelMode(pChannelSet);
      var nullRead := sModes.StrToChannelMode(pMode);
      assert !nullRead;
    }

    /** `ChannelDataToStr`. */
    method ChannelDataToStr() returns (pChannelSet: string)
      requires Valid()
      ensures pChannelSet == Encode(Value())
    {
      hide EncodeModes;
      var pMode, n := sModes.ChannelModeToStr();
      pChannelSet := pMode[..n] + "\t" + (if pTopic.Some? then pTopic.value else "") + "\t"
        + (if pGreeting.Some? then pGreeting.value else "");
    }
  }

  /** Every channel line stores a sound record. */
  ghost predicate AllStored(t: Table) {
    forall c :: c in t ==> exists r :: Stores(t[c], r)
  }

  /** The line of one channel after a command; the others stay. */
  ghost predicate Changed(t: Table, t': Table, channel: string, cmd: Command) {
    if !Exists(t, channel) then t' == t
    else
      && Exists(t', channel) && t' == t[Fold(channel) := t'[Fold(channel)]]
      && Next(t[Fold(channel)], t'[Fold(channel)], cmd)
  }

  /** Whatever the command, every line still stores a sound record. */
  lemma ChangedKeepsStored(t: Table, t': Table, channel: string, cmd: Command)
    requires AllStored(t) && Changed(t, t', channel, cmd)
    ensures AllStored(t')
  {
    hide Stores, Next, Fold;
    if Exists(t, channel) {
      var r :| Stores(t[Fold(channel)], r);
      var r' := NextKeepsStored(t[Fold(channel)], t'[Fold(channel)], cmd, r);
      forall c | c in t' ensures exists r :: Stores(t'[c], r) {
        if c != Fold(channel) {
          assert t'[c] == t[c];
        }
      }
    }
  }

  lemma StoredDecodes(t: Table, channel: string)
    requires AllStored(t) && Exists(t, channel)
    ensures Decodable(t[Fold(channel)])
  {
    var r :| Stores(t[Fold(channel)], r);
  }

  method SetTopic(db: Store, channel: string, pRawLine: string)
    requires AllStored(db.dbf.channel)
    modifies db`dbf
    ensures db.dbf == old(db.dbf).(channel := db.dbf.channel) && AllStored(db.dbf.channel)
    ensures Changed(old(db.dbf).channel, db.dbf.channel, channel, Topic(pRawLine))
  {
    hide AllStored, Encode, Decode, Decodable, Fold;
    ghost var was := db.dbf;
    var pChannelSet := db.GetDb(CHANNEL_DB, channel);
    if pChannelSet.Some? {
      StoredDecodes(was.channel, channel);
      var sChannelData := new ChannelData(pChannelSet.value);
      sChannelData.pTopic := GetParameters(pRawLine);
      var s := sChannelData.ChannelDataToStr();
      var _ := db.ReplaceDb(CHANNEL_DB, channel, s);
    }
    ChangedKeepsStored(was.channel, db.dbf.channel, channel, Topic(pRawLine));
  }

  method SetGreeting(db: Store, channel: string, pRawLine: string)
    requires AllStored(db.dbf.channel)
    modifies db`dbf
    ensures db.dbf == old(db.dbf).(channel := db.dbf.channel) && AllStored(db.dbf.channel)
    ensures Changed(old(db.dbf).channel, db.dbf.channel, channel, Greeting(pRawLine))
  {
    hide AllStored, Encode, Decode, Decodable, Fold;
    ghost var was := db.dbf;
    var pChannelSet := db.GetDb(CHANNEL_DB, channel);
    if pChannelSet.Some? {
      StoredDecodes(was.channel, channel);
      var sChannelData := new ChannelData(pChannelSet.value);
      sChannelData.pGreeting := GetParameters(pRawLine);
      var s := sChannelData.ChannelDataToStr();
      var _ := db.ReplaceDb(CHANNEL_DB, channel, s);
    }
    ChangedKeepsStored(was.channel, db.dbf.channel, channel, Greeting(pRawLine));
  }

  /** The command names a k or l without its argument, for a channel that is there. */
  predicate ReadsNull(t: Table, channel: string, pRawLine: string) {
    var p := ChannelRecord.GetParameters(pRawLine);
    p.Some? && !HasArguments(p.value) && Exists(t, channel)
  }

  /** `!chanmode`. */
  method SetModes(db: Store, channel: string, pRawLine: string) returns (nullRead: bool)
    requires AllStored(db.dbf.channel)
    modifies db`dbf
    ensures nullRead == ReadsNull(old(db.dbf).channel, channel, pRawLine)
    ensures nullRead ==> db.dbf == old(db.dbf)
    ensures db.dbf == old(db.dbf).(channel := db.dbf.channel) && AllStored(db.dbf.channel)
    ensures !nullRead ==> Changed(old(db.dbf).channel, db.dbf.channel, channel, ChanMode(pRawLine))
  {
    hide AllStored, Encode, Decode, Decodable, Fold, HasArguments;
    ghost var was := db.dbf;
    nullRead := false;
    var pParameters := GetParameters(pRawLine);
    if pParameters.Some? {
      var pChannelSet := db.GetDb(CHANNEL_DB, channel);
      if pChannelSet.Some? {
        StoredDecodes(was.channel, channel);
        var s;
        nullRead, s := ChangedLine(pChannelSet.value, pParameters.value);
        if nullRead {
          return;
        }
        var _ := db.ReplaceDb(CHANNEL_DB, channel, s);
      }
    } else if Exists(was.channel, channel) {
      StoredDecodes(was.channel, channel);
    }
    ChangedKeepsStored(was.channel, db.dbf.channel, channel, ChanMode(pRawLine));
  }

  method ChangedLine(pChannelSet: string, pParameters: string) returns (nullRead: bool, s: string)
    requires Decodable(pChannelSet)
    ensures nullRead == !HasArguments(pParameters)
    ensures !nullRead ==>
      s == Encode(Decode(pChannelSet).(modes := Update(Decode(pChannelSet).modes, DecodeModes(pParameters))))
  {
    hide Encode, Decodable, HasArguments, DecodeModes, Update, ModePart;
    var sChannelData := new ChannelData(pChannelSet);
    var sNewMode := new ChannelMode();
    nullRead := sNewMode.StrToChannelMode(pParameters);
    if nullRead {
      return true, "";
    }
    sChannelData.sModes.ChangeModes(sNewMode);
    s := sChannelData.ChannelDataToStr();
  }
}
