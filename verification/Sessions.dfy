/**
 What the account functions do to the tables, and what that keeps: the two
 login tables stay inverse to each other, and an account's removal touches
 nobody else.
 */
module Sessions {
  import opened Options
  import opened Databases

  /** Each login table maps into the other, and back to the same folded key. */
  ghost predicate Inverse(t: Tables) {
    && (forall l :: l in t.usertonick ==> Pairs(t.usertonick, t.nicktouser, l))
    && (forall n :: n in t.nicktouser ==> Pairs(t.nicktouser, t.usertonick, n))
  }

  /** Key k of one table leads to the other table and back. */
  ghost predicate Pairs(one: Table, other: Table, k: string) {
    k in one && Fold(k) == k && Fold(one[k]) in other && Fold(other[Fold(one[k])]) == k
  }

  /** The netmask is not logged in for another account. */
  predicate Free(t: Tables, netmask: string, login: string) {
    Exists(t.nicktouser, netmask) ==> Fold(t.nicktouser[Fold(netmask)]) == Fold(login)
  }

  function LogOnSessions(t: Tables, netmask: string, login: string): Tables {
    if Exists(t.usertonick, login) then
      t.(nicktouser := Added(Deleted(t.nicktouser, t.usertonick[Fold(login)]), netmask, login),
         usertonick := Replaced(t.usertonick, login, netmask))
    else
      t.(nicktouser := Added(t.nicktouser, netmask, login), usertonick := Added(t.usertonick, login, netmask))
  }

  function LogOn(t: Tables, netmask: string, login: string, time: string): Tables {
    LogOnSessions(t, netmask, login).(timelog := t.timelog[Fold(login) := time])
  }

  function LogOut(t: Tables, login: string): Tables {
    if Exists(t.usertonick, login) then
      t.(nicktouser := Deleted(t.nicktouser, t.usertonick[Fold(login)]), usertonick := Deleted(t.usertonick, login))
    else t
  }

  /** The access entries of an account: as master, and for each channel. */
  function AccessKeys(channels: set<string>, login: string): set<string> {
    {Fold(login)} + set c | c in channels :: Fold(login + c)
  }

  function RmAccount(t: Tables, login: string): Tables {
    LogOut(t, login).(access := t.access - AccessKeys(t.channel.Keys, login),
                      user := Deleted(t.user, login), timelog := Deleted(t.timelog, login))
  }

  /** A login keeps the tables inverse exactly when the netmask is free. */
  lemma LogOnKeepsInverse(t: Tables, netmask: string, login: string, time: string)
    requires Inverse(t)
    ensures Inverse(LogOn(t, netmask, login, time)) <==> Free(t, netmask, login)
  {
    if Free(t, netmask, login) {
      FreeLogOn(t, netmask, login, time);
    } else {
      TakenLogOn(t, netmask, login, time);
    }
  }

  lemma TakenLogOn(t: Tables, netmask: string, login: string, time: string)
    requires Inverse(t) && !Free(t, netmask, login)
    ensures !Inverse(LogOn(t, netmask, login, time))
  {
    hide Fold, LogOnSessions;
    var t' := LogOn(t, netmask, login, time);
    TakenUser(t, netmask, login);
    TakenMask(t, netmask, login);
    assert !Pairs(t'.usertonick, t'.nicktouser, Fold(login));
  }

  lemma TakenUser(t: Tables, netmask: string, login: string)
    ensures var t' := LogOnSessions(t, netmask, login);
      Fold(login) in t'.usertonick && t'.usertonick[Fold(login)] == netmask
  {
    hide Fold;
    assert Fold(login) in Added(t.usertonick, login, netmask)
      && Fold(login) in Replaced(t.usertonick[Fold(login) := netmask], login, netmask);
    hide Deleted;
  }

  /** The entry of a netmask that belongs to another account is not touched. */
  lemma TakenMask(t: Tables, netmask: string, login: string)
    requires Inverse(t) && !Free(t, netmask, login)
    ensures var t' := LogOnSessions(t, netmask, login);
      Fold(netmask) in t'.nicktouser && t'.nicktouser[Fold(netmask)] == t.nicktouser[Fold(netmask)]
  {
    hide Fold;
    if Exists(t.usertonick, login) {
      assert Pairs(t.usertonick, t.nicktouser, Fold(login));
    }
  }

  lemma FreeLogOn(t: Tables, netmask: string, login: string, time: string)
    requires Inverse(t) && Free(t, netmask, login)
    ensures Inverse(LogOn(t, netmask, login, time))
  {
    var t' := LogOn(t, netmask, login, time);
    FoldTwice(login);
    FoldTwice(netmask);
    LoggedOnPair(t, netmask, login, time);
    forall l | l in t'.usertonick && l != Fold(login) ensures Pairs(t'.usertonick, t'.nicktouser, l) {
      assert Pairs(t.usertonick, t.nicktouser, l);
    }
    forall n | n in t'.nicktouser && n != Fold(netmask) ensures Pairs(t'.nicktouser, t'.usertonick, n) {
      assert Pairs(t.nicktouser, t.usertonick, n);
    }
  }

  lemma LoggedOnPair(t: Tables, netmask: string, login: string, time: string)
    requires Inverse(t) && Free(t, netmask, login)
    ensures var t' := LogOn(t, netmask, login, time);
      && t'.usertonick == t.usertonick[Fold(login) := netmask]
      && Fold(netmask) in t'.nicktouser && t'.nicktouser[Fold(netmask)] == login
      && (forall n :: n != Fold(netmask) ==>
        (n in t'.nicktouser <==> n in t.nicktouser && Fold(t.nicktouser[n]) != Fold(login)))
      && (forall n :: n != Fold(netmask) && n in t'.nicktouser ==> t'.nicktouser[n] == t.nicktouser[n])
  {
    if Exists(t.usertonick, login) {
      assert Pairs(t.usertonick, t.nicktouser, Fold(login));
    }
    if Exists(t.nicktouser, netmask) {
      assert Pairs(t.nicktouser, t.usertonick, Fold(netmask));
    }
    forall n | n in t.nicktouser ensures Pairs(t.nicktouser, t.usertonick, n) {
    }
  }

  /** What a login changes, entry by entry: the account gets the netmask and the time, and no other account anything. */
  lemma LogOnIsExact(t: Tables, netmask: string, login: string, time: string, key: string)
    ensures var t' := LogOn(t, netmask, login, time);
      var mine := Fold(key) == Fold(login);
      && Lookup(t'.usertonick, key) == (if mine then Some(netmask) else Lookup(t.usertonick, key))
      && Lookup(t'.timelog, key) == (if mine then Some(time) else Lookup(t.timelog, key))
      && t'.user == t.user && t'.access == t.access && t'.channel == t.channel && t'.banlist == t.banlist
  {
    StampShows(t.timelog, login, time, key);
    ChangeShows(t.usertonick, Replace(login, netmask), key);
    ChangeShows(t.usertonick, Add(login, netmask), key);
    ExistsIsLookup(t.usertonick, login, key);
    hide Fold, Lookup, Added, Replaced, Deleted, Exists;
  }

  lemma StampShows(t: Table, login: string, time: string, key: string)
    ensures Lookup(t[Fold(login) := time], key) == if Fold(key) == Fold(login) then Some(time) else Lookup(t, key)
  {
    hide Fold;
  }

  lemma ExistsIsLookup(t: Table, login: string, key: string)
    ensures Exists(t, login) == Lookup(t, login).Some?
    ensures Fold(key) == Fold(login) ==> Lookup(t, key) == Lookup(t, login)
  {
    hide Fold;
  }

  /** Of the netmasks, the account's old one goes, and the new one comes unless it is taken. */
  lemma LogOnMasks(t: Tables, netmask: string, login: string, time: string, key: string)
    ensures var left := if Lookup(t.usertonick, login).Some? then Lookup(t.usertonick, login).value else "";
      var gone := Lookup(t.usertonick, login).Some? && Fold(key) == Fold(left);
      var kept := if gone then None else Lookup(t.nicktouser, key);
      Lookup(LogOn(t, netmask, login, time).nicktouser, key)
        == if Fold(key) == Fold(netmask) && kept == None then Some(login) else kept
  {
    hide Fold;
  }

  lemma LogOutKeepsInverse(t: Tables, login: string)
    requires Inverse(t)
    ensures Inverse(LogOut(t, login))
  {
    hide Fold;
    var t' := LogOut(t, login);
    if Exists(t.usertonick, login) {
      assert Pairs(t.usertonick, t.nicktouser, Fold(login));
      forall l | l in t'.usertonick ensures Pairs(t'.usertonick, t'.nicktouser, l) {
        assert Pairs(t.usertonick, t.nicktouser, l);
      }
      forall n | n in t'.nicktouser ensures Pairs(t'.nicktouser, t'.usertonick, n) {
        assert Pairs(t.nicktouser, t.usertonick, n);
      }
    }
  }

  lemma RmAccountKeepsInverse(t: Tables, login: string)
    requires Inverse(t)
    ensures Inverse(RmAccount(t, login))
  {
    LogOutKeepsInverse(t, login);
    hide Fold, LogOut;
  }

  /** Logging out is exact: the account and its netmask go, every other pair stays. */
  lemma LogOutIsExact(t: Tables, login: string)
    requires Inverse(t)
    ensures LogOut(t, login).usertonick == t.usertonick - {Fold(login)}
    ensures forall n :: n in LogOut(t, login).nicktouser <==> n in t.nicktouser && Fold(t.nicktouser[n]) != Fold(login)
    ensures forall n :: n in LogOut(t, login).nicktouser ==> LogOut(t, login).nicktouser[n] == t.nicktouser[n]
  {
    hide Fold;
    if Exists(t.usertonick, login) {
      assert Pairs(t.usertonick, t.nicktouser, Fold(login));
    } else {
      assert t.usertonick - {Fold(login)} == t.usertonick;
    }
    forall n | n in t.nicktouser ensures Pairs(t.nicktouser, t.usertonick, n) {
    }
  }

  /** Logins have no channel sign in them, channels start with one. */
  predicate IsLogin(login: string) { '#' !in login && '&' !in login }

  predicate IsChannel(channel: string) { channel != "" && (channel[0] == '#' || channel[0] == '&') }

  lemma FoldKeepsSigns(s: string, i: nat)
    requires i < |s|
    ensures (Fold(s)[i] == '#' <==> s[i] == '#') && (Fold(s)[i] == '&' <==> s[i] == '&')
  {
  }

  /** The key of an access entry tells its account and its channel. */
  lemma KeysAreInjective(login: string, channel: string, login': string, channel': string)
    requires IsLogin(login) && IsLogin(login') && IsChannel(channel) && IsChannel(channel')
    requires Fold(login + channel) == Fold(login' + channel')
    ensures Fold(login) == Fold(login') && Fold(channel) == Fold(channel')
  {
    var key, key' := login + channel, login' + channel';
    FoldConcat(login, channel);
    FoldConcat(login', channel');
    SameLength(login, channel, login', channel');
    SameLength(login', channel', login, channel);
    assert Fold(login) == Fold(key)[..|login|];
    assert Fold(channel) == Fold(key)[|login|..];
  }

  lemma SameLength(login: string, channel: string, login': string, channel': string)
    requires IsLogin(login) && IsLogin(login') && IsChannel(channel) && IsChannel(channel')
    requires Fold(login + channel) == Fold(login' + channel')
    ensures |login| >= |login'|
  {
    if |login| < |login'| {
      FoldKeepsSigns(login + channel, |login|);
      FoldKeepsSigns(login' + channel', |login|);
    }
  }

  lemma MasterKeyDiffers(login: string, login': string, channel': string)
    requires IsLogin(login) && IsLogin(login') && IsChannel(channel')
    ensures Fold(login) != Fold(login' + channel')
  {
    if Fold(login) == Fold(login' + channel') {
      FoldKeepsSigns(login' + channel', |login'|);
      FoldKeepsSigns(login, |login'|);
    }
  }

  /** Every listed channel is one. */
  ghost predicate ChannelsNamed(t: Tables) {
    forall c :: c in t.channel ==> IsChannel(c)
  }

  /** Removing an account takes its password, its times, its session and its rights in all listed channels. */
  lemma RmAccountErases(t: Tables, login: string, channel: string)
    requires Inverse(t)
    ensures var t' := RmAccount(t, login);
      && !Exists(t'.user, login) && !Exists(t'.timelog, login)
      && !Exists(t'.usertonick, login) && !Exists(t'.access, login)
      && (forall n :: n in t'.nicktouser ==> Fold(t'.nicktouser[n]) != Fold(login))
      && (channel in t.channel ==> !Exists(t'.access, login + channel))
  {
    LogOutIsExact(t, login);
    hide Fold, LogOut;
  }

  /** No access entry of another account is among those removed. */
  lemma AccessKeysDiffer(channels: set<string>, login: string, other: string, channel: string)
    requires forall c :: c in channels ==> IsChannel(c)
    requires IsLogin(login) && IsLogin(other) && IsChannel(channel) && Fold(login) != Fold(other)
    ensures Fold(other) !in AccessKeys(channels, login) && Fold(other + channel) !in AccessKeys(channels, login)
  {
    hide Fold, IsLogin, IsChannel;
    forall c | c in channels ensures Fold(login + c) != Fold(other) && Fold(login + c) != Fold(other + channel) {
      MasterKeyDiffers(other, login, c);
      if Fold(login + c) == Fold(other + channel) {
        KeysAreInjective(login, c, other, channel);
      }
    }
    MasterKeyDiffers(login, other, channel);
  }

  lemma SessionsSpared(t: Tables, login: string, other: string)
    requires Inverse(t) && Fold(login) != Fold(other)
    ensures Same(t.usertonick, LogOut(t, login).usertonick, other)
    ensures forall n :: n in t.nicktouser && Fold(t.nicktouser[n]) == Fold(other) ==>
      Same(t.nicktouser, LogOut(t, login).nicktouser, n)
  {
    hide Fold, LogOut;
    LogOutIsExact(t, login);
    forall n | n in t.nicktouser ensures Fold(n) == n {
      assert Pairs(t.nicktouser, t.usertonick, n);
    }
  }

  /** And it touches no other account. */
  lemma RmAccountSpares(t: Tables, login: string, other: string, channel: string)
    requires Inverse(t) && ChannelsNamed(t) && IsLogin(login) && IsLogin(other) && IsChannel(channel)
      && Fold(login) != Fold(other)
    ensures var t' := RmAccount(t, login);
      && Same(t.user, t'.user, other) && Same(t.timelog, t'.timelog, other) && Same(t.usertonick, t'.usertonick, other)
      && Same(t.access, t'.access, other) && Same(t.access, t'.access, other + channel)
      && t'.channel == t.channel && t'.banlist == t.banlist
    ensures forall n :: n in t.nicktouser && Fold(t.nicktouser[n]) == Fold(other) ==>
      Same(t.nicktouser, RmAccount(t, login).nicktouser, n)
  {
    hide Fold, AccessKeys, Inverse, IsLogin, IsChannel;
    AccessKeysDiffer(t.channel.Keys, login, other, channel);
    SessionsSpared(t, login, other);
  }

  predicate Same(t: Table, t': Table, key: string) {
    (Exists(t, key) <==> Exists(t', key)) && (Exists(t, key) ==> t[Fold(key)] == t'[Fold(key)])
  }

  datatype Op = On(netmask: string, login: string, time: string) | Out(login: string) | Remove(login: string)

  function Do(t: Tables, op: Op): Tables {
    match op
    case On(netmask, login, time) => LogOn(t, netmask, login, time)
    case Out(login) => LogOut(t, login)
    case Remove(login) => RmAccount(t, login)
  }

  function DoAll(t: Tables, ops: seq<Op>): Tables
    decreases |ops|
  {
    if ops == [] then t else DoAll(Do(t, ops[0]), ops[1..])
  }

  /** Every login of the run takes a netmask that is free then. */
  predicate AllFree(t: Tables, ops: seq<Op>)
    decreases |ops|
  {
    ops == [] || ((ops[0].On? ==> Free(t, ops[0].netmask, ops[0].login)) && AllFree(Do(t, ops[0]), ops[1..]))
  }

  lemma {:induction false} RunKeepsInverse(t: Tables, ops: seq<Op>)
    requires Inverse(t) && AllFree(t, ops)
    ensures Inverse(DoAll(t, ops))
    decreases |ops|
  {
    if ops != [] {
      match ops[0] {
        case On(netmask, login, time) => LogOnKeepsInverse(t, netmask, login, time);
        case Out(login) => LogOutKeepsInverse(t, login);
        case Remove(login) => RmAccountKeepsInverse(t, login);
      }
      hide Inverse, LogOn, LogOut, RmAccount, Free;
      RunKeepsInverse(Do(t, ops[0]), ops[1..]);
    }
  }

  /** The login tables are created empty, and stay inverse over any run. */
  lemma SessionsStayInverse(t: Tables, ops: seq<Op>)
    requires t.usertonick == map[] && t.nicktouser == map[] && AllFree(t, ops)
    ensures Inverse(DoAll(t, ops))
  {
    RunKeepsInverse(t, ops);
  }
}
