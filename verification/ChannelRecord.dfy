/**
 The channel record: modes, topic and greeting in one line, and the commands
 that change it.
 */
module ChannelRecord {
  import opened Options
  import opened TextTools
  import opened ChannelModes

  datatype Record = Record(modes: Modes, topic: Option<string>, greeting: Option<string>)

  function OrEmpty(o: Option<string>): string {
    if o.Some? then o.value else ""
  }

  function NonEmpty(s: string): Option<string> {
    if s == "" then None else Some(s)
  }

  /** `ChannelDataToStr`. */
  function Encode(r: Record): string {
    EncodeModes(r.modes) + "\t" + OrEmpty(r.topic) + "\t" + OrEmpty(r.greeting)
  }

  /** The text before the first tab, and the text after it. */
  function BeforeTab(s: string): string
    decreases |s|
  {
    if s == "" || s[0] == '\t' then "" else [s[0]] + BeforeTab(s[1..])
  }

  function AfterTab(s: string): Option<string>
    decreases |s|
  {
    if s == "" then None else if s[0] == '\t' then Some(s[1..]) else AfterTab(s[1..])
  }

  /** The text after the last tab. */
  function AfterLastTab(s: string): Option<string>
    decreases |s|
  {
    match AfterTab(s)
    case None => None
    case Some(rest) =>
      AfterTabIsShorter(s);
      if AfterLastTab(rest).Some? then AfterLastTab(rest) else Some(rest)
  }

  lemma {:induction false} AfterTabIsShorter(s: string)
    ensures AfterTab(s).Some? ==> |AfterTab(s).value| < |s|
    decreases |s|
  {
    if s != "" {
      AfterTabIsShorter(s[1..]);
    }
  }

  /** `getChannelMode`, `getTopic`, `getGreeting`. */
  function ModePart(s: string): string {
    if AfterTab(s).Some? then BeforeTab(s) else ""
  }

  function TopicPart(s: string): Option<string> {
    match AfterTab(s)
    case None => None
    case Some(rest) => if AfterTab(rest).Some? then NonEmpty(BeforeTab(rest)) else None
  }

  function GreetingPart(s: string): Option<string> {
    match AfterLastTab(s)
    case None => None
    case Some(rest) => NonEmpty(rest)
  }

  predicate Decodable(s: string) { HasArguments(ModePart(s)) }

  /** `StrToChannelData`. */
  function Decode(s: string): Record
    requires Decodable(s)
  {
    Record(DecodeModes(ModePart(s)), TopicPart(s), GreetingPart(s))
  }

  predicate TextOk(o: Option<string>) {
    o.Some? ==> o.value != "" && '\t' !in o.value
  }

  predicate RecordOk(r: Record) {
    ModesOk(r.modes) && TextOk(r.topic) && TextOk(r.greeting)
  }

  lemma {:induction false} SplitAtTab(a: string, rest: string)
    requires '\t' !in a
    ensures BeforeTab(a + "\t" + rest) == a && AfterTab(a + "\t" + rest) == Some(rest)
    ensures AfterTab(a) == None
    decreases |a|
  {
    var t := a + "\t" + rest;
    if a != "" {
      SplitAtTab(a[1..], rest);
      assert t[1..] == a[1..] + "\t" + rest;
    } else {
      assert t[1..] == rest;
    }
  }

  lemma {:induction false} NoTabBefore(s: string)
    ensures '\t' !in BeforeTab(s)
    decreases |s|
  {
    if s != "" {
      NoTabBefore(s[1..]);
    }
  }

  lemma {:induction false} NoTabAfterLast(s: string)
    ensures AfterLastTab(s).Some? ==> '\t' !in AfterLastTab(s).value
    decreases |s|
  {
    if AfterTab(s).Some? {
      AfterTabIsShorter(s);
      NoTabAfterLast(AfterTab(s).value);
      if AfterLastTab(AfterTab(s).value).None? {
        NoTabLeft(AfterTab(s).value);
      }
    }
  }

  lemma {:induction false} NoTabLeft(s: string)
    requires AfterTab(s).None?
    ensures '\t' !in s
    decreases |s|
  {
    if s != "" {
      NoTabLeft(s[1..]);
      assert s == [s[0]] + s[1..];
    }
  }

  lemma TrimHasNoTab(s: string)
    requires IsTrim(s)
    ensures '\t' !in s
  {
  }

  /** How a record with sound modes decodes, whatever its texts. */
  lemma EncodedParts(r: Record)
    requires ModesOk(r.modes)
    ensures ModePart(Encode(r)) == EncodeModes(r.modes) && Decodable(Encode(r)) && Decode(Encode(r)).modes == r.modes
    ensures TextOk(r.topic) && TextOk(r.greeting) ==>
      TopicPart(Encode(r)) == r.topic && GreetingPart(Encode(r)) == r.greeting
  {
    hide EncodeModes, ModesOk, HasArguments, DecodeModes, BeforeTab, AfterTab;
    var line, topic, greeting := EncodeModes(r.modes), OrEmpty(r.topic), OrEmpty(r.greeting);
    EncodedLine(r.modes);
    TrimHasNoTab(line);
    ModesRoundTrip(r.modes);
    assert Encode(r) == line + "\t" + (topic + "\t" + greeting);
    SplitAtTab(line, topic + "\t" + greeting);
    if TextOk(r.topic) && TextOk(r.greeting) {
      SplitAtTab(topic, greeting);
      SplitAtTab(greeting, "");
      assert AfterLastTab(greeting) == None;
      assert AfterLastTab(topic + "\t" + greeting) == Some(greeting);
    }
  }

  /** Decoding gives a record back exactly when its texts are not empty and have no tab. */
  lemma RoundTrip(r: Record)
    requires ModesOk(r.modes)
    ensures Decodable(Encode(r)) && (Decode(Encode(r)) == r <==> TextOk(r.topic) && TextOk(r.greeting))
  {
    hide EncodeModes, ModesOk, HasArguments, DecodeModes, BeforeTab, AfterTab, AfterLastTab;
    EncodedParts(r);
    var s := Encode(r);
    if AfterTab(s).Some? {
      NoTabBefore(AfterTab(s).value);
    }
    NoTabAfterLast(s);
  }

  /** `getArgument`, behind the command sign: trimmed text after the first space that has any. */
  function ArgumentAfter(s: string): (arg: Option<string>)
    ensures arg.Some? ==> arg.value != "" && IsTrim(arg.value)
    decreases |s|
  {
    if s == "" then None
    else if s[0] == ' ' && Trimmed(s[1..]) != "" then
      TrimmedIsTrim(s[1..]);
      Some(Trimmed(s[1..]))
    else ArgumentAfter(s[1..])
  }

  const COMMAND_SIGN := " :!"

  function GetArgument(line: string): (arg: Option<string>)
    ensures arg.Some? ==> arg.value != "" && IsTrim(arg.value)
    decreases |line|
  {
    if |line| < 3 then None
    else if line[..3] == COMMAND_SIGN then ArgumentAfter(line[3..])
    else GetArgument(line[1..])
  }

  /** `getParameters`: without a leading channel name. */
  function GetParameters(line: string): Option<string> {
    match GetArgument(line)
    case None => None
    case Some(arg) => if arg[0] != '#' then Some(arg) else AfterWord(arg)
  }

  /** The command sign, a space, a colon and an exclamation mark, starts at place k and nowhere before. */
  predicate SignAt(line: string, k: nat) {
    && k + 3 <= |line| && line[k] == ' ' && line[k + 1] == ':' && line[k + 2] == '!'
    && forall j :: 0 <= j < k ==> !(line[j] == ' ' && line[j + 1] == ':' && line[j + 2] == '!')
  }

  /** Of a line with a command, the argument is the trimmed text behind the command word, if it has any. */
  lemma {:induction false} CommandArgument(line: string, k: nat, word: string, rest: string)
    requires SignAt(line, k) && ' ' !in word
    requires line[k + 3..] == word + " " + rest || (line[k + 3..] == word && rest == "")
    ensures GetArgument(line) == if AllBlank(rest) then None else Some(Trimmed(rest))
    decreases |line|
  {
    hide Trimmed;
    assert line[..3] == [line[0], line[1], line[2]] && COMMAND_SIGN == [' ', ':', '!'];
    if k == 0 {
      ArgumentBehindWord(word, rest);
    } else {
      assert line[1..][k - 1 + 3..] == line[k + 3..];
      CommandArgument(line[1..], k - 1, word, rest);
    }
  }

  lemma {:induction false} ArgumentBehindWord(word: string, rest: string)
    requires ' ' !in word
    ensures ArgumentAfter(word + " " + rest) == if AllBlank(rest) then None else Some(Trimmed(rest))
    ensures ArgumentAfter(word) == None
    decreases |word|
  {
    var s := word + " " + rest;
    if word == "" {
      assert s[1..] == rest;
      EmptyIsBlank(rest);
      if AllBlank(rest) {
        BlankHasNoArgument(rest);
      }
    } else {
      assert s[1..] == word[1..] + " " + rest;
      ArgumentBehindWord(word[1..], rest);
    }
  }

  lemma EmptyIsBlank(s: string)
    ensures Trimmed(s) == "" <==> AllBlank(s)
  {
    if AllBlank(s) {
      EdgesAreDropped(s, "");
    } else {
      SomethingVisible(s);
      TrimmedIsTrim(s);
    }
  }

  lemma {:induction false} SomethingVisible(s: string)
    requires !AllBlank(s)
    ensures Visible(s) != ""
    decreases |s|
  {
    if IsBlank(s[0]) {
      assert !AllBlank(s[1..]) by {
        var c :| c in s && !(c == ' ' || c == '\t' || c == '\n' || c == '\r');
        assert c in s[1..] by { assert s == [s[0]] + s[1..]; }
      }
      SomethingVisible(s[1..]);
    }
  }

  lemma {:induction false} BlankHasNoArgument(s: string)
    requires AllBlank(s)
    ensures ArgumentAfter(s) == None
    decreases |s|
  {
    if s != "" {
      assert forall c :: c in s[1..] ==> c in s;
      EmptyIsBlank(s[1..]);
      BlankHasNoArgument(s[1..]);
    }
  }

  /** No command sign, no argument. */
  lemma {:induction false} NoCommandNoArgument(line: string)
    requires forall j :: 0 <= j < |line| - 2 ==> !(line[j] == ' ' && line[j + 1] == ':' && line[j + 2] == '!')
    ensures GetArgument(line) == None
    decreases |line|
  {
    if |line| >= 3 {
      assert line[..3] == [line[0], line[1], line[2]] && COMMAND_SIGN == [' ', ':', '!'];
      NoCommandNoArgument(line[1..]);
    }
  }

  /** The parameters are the argument, or what stands behind a channel name and one space. */
  lemma CommandParameters(line: string, channel: string, rest: string)
    requires ' ' !in channel
    ensures GetArgument(line) == Some(channel) ==>
      GetParameters(line) == if channel != "" && channel[0] == '#' then None else Some(channel)
    ensures GetArgument(line) == Some(channel + " " + rest) ==>
      GetParameters(line) == if channel != "" && channel[0] == '#' then Some(rest) else Some(channel + " " + rest)
  {
    SplitAtSpace(channel, rest);
  }

  /** A trimmed line is a word, and perhaps a space and a trimmed line. */
  lemma {:induction false} TrimSplits(s: string)
    requires IsTrim(s) && s != ""
    ensures IsWord(FirstWord(s))
    ensures AfterWord(s).Some? ==> AfterWord(s).value != "" && IsTrim(AfterWord(s).value)
    decreases |s|
  {
    if |s| > 1 && s[1] != ' ' {
      assert IsTrim(s[1..]);
      TrimSplits(s[1..]);
    } else if |s| > 1 {
      assert AfterWord(s) == AfterWord(s[1..]) == Some(s[1..][1..]);
      assert s[1..][1..] == s[2..] && FirstWord(s) == [s[0]] + FirstWord(s[1..]);
    }
  }

  /** Parameters are trimmed: that is what keeps tabs and line ends out of the record. */
  lemma ParametersAreTrim(line: string)
    ensures GetParameters(line).Some? ==> GetParameters(line).value != "" && IsTrim(GetParameters(line).value)
  {
    hide IsTrim, FirstWord, AfterWord;
    if GetArgument(line).Some? {
      TrimSplits(GetArgument(line).value);
    }
  }

  datatype Command = Topic(line: string) | Greeting(line: string) | ChanMode(line: string)

  /** What a mode line gives: k with a keyword and l with a limit, and a sign of its own. */
  predicate NewModesOk(m: Modes) {
    && |m.flags| == 12
    && (forall i :: 1 <= i < 12 ==> m.flags[i] == ' ' || m.flags[i] == LETTERS[i])
    && (m.flags[MOD_KEYWORD] == 'k' <==> m.keyword.Some?) && (m.flags[MOD_LIMIT] == 'l' <==> m.limit.Some?)
    && WordOption(m.keyword) && WordOption(m.limit)
  }

  lemma FlagKeepsOk(m: Modes, c: char, args: seq<string>)
    requires NewModesOk(m) && (TakesArgument(c) ==> args != [] && IsWord(args[0]))
    ensures NewModesOk(SetFlag(m, c, args))
  {
    hide IsWord;
  }

  lemma {:induction false} FlagsKeepOk(m: Modes, flags: string, args: seq<string>)
    requires NewModesOk(m) && Needs(flags) <= |args| && forall i :: 0 <= i < |args| ==> IsWord(args[i])
    ensures NewModesOk(SetFlags(m, flags, args))
    decreases |flags|
  {
    hide NewModesOk, IsWord, SetFlag;
    if flags != "" {
      FlagKeepsOk(m, flags[0], args);
      OkLength(m);
      OkLength(SetFlag(m, flags[0], args));
      FlagsKeepOk(SetFlag(m, flags[0], args), flags[1..], if TakesArgument(flags[0]) then args[1..] else args);
    }
  }

  lemma OkLength(m: Modes)
    requires NewModesOk(m)
    ensures |m.flags| == 12
  {
  }

  /** Mode lines of commands give sound modes. */
  lemma DecodedOk(line: string)
    requires IsTrim(line) && line != "" && HasArguments(line)
    ensures NewModesOk(DecodeModes(line))
  {
    hide IsTrim, IsWord, FirstWord, AfterWord, Needs, SetFlags, NewModesOk;
    TrimSplits(line);
    if AfterWord(line).Some? {
      TrimSplits(AfterWord(line).value);
      if AfterWord(AfterWord(line).value).Some? {
        TrimSplits(AfterWord(AfterWord(line).value).value);
      }
    }
    SplitTwo(AfterWord(line));
    BlankOk();
    FlagsKeepOk(NO_MODES, FirstWord(line), Split(AfterWord(line), 2));
  }

  lemma SplitTwo(s: Option<string>)
    ensures s.None? ==> Split(s, 2) == []
    ensures s.Some? && AfterWord(s.value).None? ==> Split(s, 2) == [FirstWord(s.value)]
    ensures s.Some? && AfterWord(s.value).Some? ==>
      Split(s, 2) == [FirstWord(s.value), FirstWord(AfterWord(s.value).value)]
  {
    hide FirstWord, AfterWord;
  }

  lemma BlankOk()
    ensures NewModesOk(NO_MODES)
  {
    forall i | 1 <= i < 12 ensures BLANK[i] == ' ' {
      BlankAt(i);
    }
  }
}
