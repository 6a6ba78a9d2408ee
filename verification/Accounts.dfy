/**
 The bot's accounts: logging on and off, removal, and the two clean-ups.
 */
module Accounts {
  import opened CStrings
  import opened Databases
  import opened Options
  import opened Sessions

  const USER_ALLOW_CHAR := "-[]\\^{}|_`"

  const COMMON_NOT_ALLOW_CHAR := "\t\r\n, \U{0007}"

  predicate IsAlnum(c: char) {
    'a' <= c <= 'z' || 'A' <= c <= 'Z' || '0' <= c <= '9'
  }

  /** `NickStringCheck`. */
  method NickStringCheck(s: string) returns (ok: bool)
    ensures ok <==> forall i :: 0 <= i < |s| ==> IsAlnum(s[i]) || s[i] in USER_ALLOW_CHAR
    ensures ok ==> IsLogin(s)
  {
    if exists c :: c in s && c in COMMON_NOT_ALLOW_CHAR {
      return false;
    }
    for i := 0 to |s|
      invariant forall j :: 0 <= j < i ==> IsAlnum(s[j]) || s[j] in USER_ALLOW_CHAR
    {
      if !IsAlnum(s[i]) && s[i] !in USER_ALLOW_CHAR {
        return false;
      }
    }
    return true;
  }

  /** `atol`, for what `%ld` has written. */
  function Atol(s: string): int {
    if s != "" && s[0] == '-' then 0 - Digits(0, s[1..]) else Digits(0, s)
  }

  function Digits(n: nat, s: string): nat
    decreases |s|
  {
    if s == "" || !IsDigit(s[0]) then n else Digits(n * 10 + DigitValue(s[0]), s[1..])
  }

  /** What `%ld` writes. */
  function Printed(n: int): string {
    if n < 0 then "-" + Decimal(0 - n) else Decimal(n)
  }

  lemma {:induction false} DigitsLast(n: nat, s: string, c: char)
    requires IsDigit(c) && forall x :: x in s ==> IsDigit(x)
    ensures Digits(n, s + [c]) == Digits(n, s) * 10 + DigitValue(c)
    decreases |s|
  {
    if s == "" {
      assert (s + [c])[1..] == "" && s + [c] == [c];
    } else {
      assert s[0] in s && (forall x :: x in s[1..] ==> x in s);
      assert (s + [c])[1..] == s[1..] + [c];
      DigitsLast(n * 10 + DigitValue(s[0]), s[1..], c);
    }
  }

  lemma {:induction false} DigitsOfDecimal(n: nat)
    ensures Digits(0, Decimal(n)) == n
  {
    if n < 10 {
      DigitsLast(0, [], DigitChar(n));
      assert [] + [DigitChar(n)] == [DigitChar(n)] == Decimal(n);
    } else {
      DigitsOfDecimal(n / 10);
      DigitsLast(0, Decimal(n / 10), DigitChar(n % 10));
    }
  }

  /** A time stamp comes back as the number that was written. */
  lemma AtolReadsPrinted(n: int)
    ensures Atol(Printed(n)) == n
  {
    if n < 0 {
      assert ("-" + Decimal(0 - n))[1..] == Decimal(0 - n);
      DigitsOfDecimal(0 - n);
    } else {
      DigitsOfDecimal(n);
    }
  }

  /** The account was last seen before the given time. */
  predicate Dead(t: Tables, login: string, lCheckTime: int) {
    Exists(t.timelog, login) && lCheckTime > Atol(t.timelog[Fold(login)])
  }

  /** An account is dead exactly when the time it was last seen at is before the given one. */
  lemma DeadIsOlder(t: Tables, login: string, seen: int, lCheckTime: int)
    ensures Lookup(t.timelog, login) == Some(Printed(seen)) ==> (Dead(t, login, lCheckTime) <==> seen < lCheckTime)
    ensures Lookup(t.timelog, login) == None ==> !Dead(t, login, lCheckTime)
  {
    hide Printed, Atol, Fold;
    AtolReadsPrinted(seen);
  }

  /** The keys among those that name dead accounts. */
  function DeadAmong(t: Tables, keys: seq<string>, lCheckTime: int): set<string> {
    set k | k in keys && Dead(t, k, lCheckTime)
  }

  class Accounts {
    const db: Store

    constructor (db: Store)
      ensures this.db == db
    {
      this.db := db;
    }

    method LogOn(netmask: string, login: string, time: string)
      modifies db`dbf
      ensures db.dbf == Sessions.LogOn(old(db.dbf), netmask, login, time)
    {
      var found := db.ExistDb(USERTONICK_DB, login);
      if found {
        var pOldNetmask := db.GetDb(USERTONICK_DB, login);
        if pOldNetmask.Some? {
          var _ := db.DelDb(NICKTOUSER_DB, pOldNetmask.value);
          var _ := db.AddDb(NICKTOUSER_DB, netmask, login);
          var _ := db.ReplaceDb(USERTONICK_DB, login, netmask);
        }
      } else {
        var _ := db.AddDb(NICKTOUSER_DB, netmask, login);
        var _ := db.AddDb(USERTONICK_DB, login, netmask);
      }
      assert db.dbf == LogOnSessions(old(db.dbf), netmask, login);
      hide LogOnSessions;
      StampLogin(login, time);
    }

    /** The time of the last login. */
    method StampLogin(login: string, time: string)
      modifies db`dbf
      ensures db.dbf == old(db.dbf).(timelog := old(db.dbf).timelog[Fold(login) := time])
    {
      var found := db.ExistDb(TIMELOG_DB, login);
      if found {
        var _ := db.ReplaceDb(TIMELOG_DB, login, time);
      } else {
        var _ := db.AddDb(TIMELOG_DB, login, time);
      }
    }

    method LogOut(login: string)
      modifies db`dbf
      ensures db.dbf == Sessions.LogOut(old(db.dbf), login)
    {
      var pNetmask := db.GetDb(USERTONICK_DB, login);
      if pNetmask.Some? {
        var _ := db.DelDb(NICKTOUSER_DB, pNetmask.value);
        var _ := db.DelDb(USERTONICK_DB, login);
      }
    }

    /** The rights as master, and those in every listed channel. */
    method RmAccessRights(login: string)
      modifies db`dbf
      ensures db.dbf == old(db.dbf).(access := old(db.dbf).access - AccessKeys(old(db.dbf).channel.Keys, login))
    {
      hide Fold;
      ghost var was := db.dbf;
      var _ := db.DelDb(ACCESS_DB, login);
      var pChannelQueue := db.ListDb(CHANNEL_DB);
      ghost var done: set<string> := {};
      while |pChannelQueue| > 0
        invariant was.channel.Keys == done + set c | c in pChannelQueue
        invariant db.dbf == was.(access := was.access - AccessKeys(done, login))
        decreases |pChannelQueue|
      {
        var pChannel := pChannelQueue[0];
        OneMoreKey(was.access, done, login, pChannel);
        var _ := db.DelDb(ACCESS_DB, login + pChannel);
        done := done + {pChannel};
        pChannelQueue := pChannelQueue[1..];
      }
      assert done == was.channel.Keys;
    }

    method RmAccount(login: string)
      modifies db`dbf
      ensures db.dbf == Sessions.RmAccount(old(db.dbf), login)
    {
      hide AccessKeys, Fold;
      LogOut(login);
      RmAccessRights(login);
      var _ := db.DelDb(USER_DB, login);
      var _ := db.DelDb(TIMELOG_DB, login);
    }

    /** Logging on by password: only from a netmask that is not logged in, so the login tables stay inverse. */
    method Ident(netmask: string, login: string, passwd: string, time: string) returns (identified: bool)
      modifies db`dbf
      ensures identified <==> (!Exists(old(db.dbf).nicktouser, netmask) && Exists(old(db.dbf).user, login)
                               && old(db.dbf).user[Fold(login)] == db.crypt(passwd))
      ensures db.dbf == if identified then Sessions.LogOn(old(db.dbf), netmask, login, time) else old(db.dbf)
      ensures Inverse(old(db.dbf)) ==> Inverse(db.dbf)
    {
      hide Inverse, Sessions.LogOn;
      var taken := db.ExistDb(NICKTOUSER_DB, netmask);
      if taken {
        return false;
      }
      identified := db.CheckDb(USER_DB, login, passwd);
      if identified {
        if Inverse(db.dbf) {
          LogOnKeepsInverse(db.dbf, netmask, login, time);
        }
        LogOn(netmask, login, time);
      }
    }

    /** A new account for the caller's nickname, logged on at once; the first account becomes the master. */
    method Hello(netmask: string, nick: string, level: UserLevel, time: string)
      modifies db`dbf
      ensures db.dbf == AfterHello(old(db.dbf), netmask, nick, level, time, db.crypt(""))
    {
      hide Sessions.LogOn, Fold;
      if Rank(level) > Rank(LoggedLevel) {
        return;
      }
      var pList := db.ListDb(USER_DB);
      var ok := db.AddDb(USER_DB, nick, "");
      if ok {
        LogOn(netmask, nick, time);
      }
      SessionsOnly(db.dbf, netmask, nick, time);
      EmptyList(pList, old(db.dbf).user);
      if pList == [] {
        var found := db.ExistDb(ACCESS_DB, nick);
        if !found {
          var _ := db.AddDb(ACCESS_DB, nick, "m");
        } else {
          var _ := db.ReplaceDb(ACCESS_DB, nick, "m");
        }
      }
    }

    /** `hNickChange`: the session of a user who changes nicknames moves to the new netmask. */
    method ChangeNick(pNetmask: Option<string>, pRawLine: string, time: string) returns (nullRead: bool)
      modifies db`dbf
      ensures nullRead == NickReadsNull(old(db.dbf), pNetmask, pRawLine)
      ensures db.dbf == AfterNick(old(db.dbf), pNetmask, pRawLine, time)
    {
      hide Sessions.LogOn, Sessions.LogOut, Fold, StrChr, StrRChr, StrTok;
      if pNetmask.Some? {
        var pLogin := db.GetDb(NICKTOUSER_DB, pNetmask.value);
        if pLogin.Some? {
          var pNewNick := StrRChr(pRawLine, ' ');
          if pNewNick.None? {
            return true;
          }
          if |pNewNick.value| > 2 {
            var pTmp := StrChr(pNetmask.value, '!');
            if pTmp.None? {
              return true;
            }
            var pNewNetmask := pNewNick.value[2..] + StrTok(pTmp.value, ' ');
            LogOut(pLogin.value);
            LogOn(pNewNetmask, pLogin.value, time);
          }
        }
      }
      return false;
    }

    /** Logs off every account whose last login is too long ago. */
    method RmDeadLogins(lCheckTime: int)
      requires Inverse(db.dbf) && Folded(db.dbf.user)
      modifies db`dbf
      ensures Inverse(db.dbf) && SameBut(old(db.dbf), db.dbf)
      ensures forall l :: l in db.dbf.usertonick <==>
        l in old(db.dbf).usertonick && !(l in old(db.dbf).user && Dead(old(db.dbf), l, lCheckTime))
    {
      hide Inverse, Sessions.LogOut, Dead, Fold;
      ghost var was := db.dbf;
      var pLoginQueue := db.ListDb(USER_DB);
      ghost var keys, k := pLoginQueue, 0;
      while |pLoginQueue| > 0
        invariant k <= |keys| && pLoginQueue == keys[k..]
        invariant Inverse(db.dbf) && SameBut(was, db.dbf)
        invariant db.dbf.usertonick == was.usertonick - DeadAmong(was, keys[..k], lCheckTime)
        decreases |pLoginQueue|
      {
        var login := pLoginQueue[0];
        pLoginQueue := pLoginQueue[1..];
        DeadStep(was, keys, k, lCheckTime);
        k := k + 1;
        ghost var before := db.dbf;
        LogOutIfDead(login, lCheckTime);
        SameDead(was, before, login, lCheckTime);
        assert login in keys && login in was.user && Fold(login) == login;
      }
      assert keys[..k] == keys;
    }

    /** Logs off one account, if it is on and dead. */
    method LogOutIfDead(login: string, lCheckTime: int)
      requires Inverse(db.dbf)
      modifies db`dbf
      ensures Inverse(db.dbf) && SameBut(old(db.dbf), db.dbf)
      ensures db.dbf.usertonick
        == old(db.dbf).usertonick - if Dead(old(db.dbf), login, lCheckTime) then {Fold(login)} else {}
    {
      hide Inverse, Fold;
      var pTime := db.GetDb(TIMELOG_DB, login);
      if pTime.Some? {
        var on := db.ExistDb(USERTONICK_DB, login);
        if on && lCheckTime > Atol(pTime.value) {
          LogOutKeepsInverse(db.dbf, login);
          LogOut(login);
        }
      }
    }

    /** Removes every account whose last login is too long ago. */
    method RmDeadAccounts(lCheckTime: int)
      requires Inverse(db.dbf) && Folded(db.dbf.timelog)
      modifies db`dbf
      ensures Inverse(db.dbf)
      ensures forall l :: l in db.dbf.timelog <==> l in old(db.dbf).timelog && !Dead(old(db.dbf), l, lCheckTime)
      ensures forall l :: l in db.dbf.user <==>
        l in old(db.dbf).user && !(l in old(db.dbf).timelog && Dead(old(db.dbf), l, lCheckTime))
    {
      hide Inverse, Dead, Fold, DeadAmong, Sessions.RmAccount, Exists;
      ghost var was := db.dbf;
      var pLoginQueue := db.ListDb(TIMELOG_DB);
      ghost var keys, k := pLoginQueue, 0;
      NoneDead(was, lCheckTime);
      while |pLoginQueue| > 0
        invariant k <= |keys| && pLoginQueue == keys[k..]
        invariant Inverse(db.dbf)
        invariant db.dbf.timelog == was.timelog - DeadAmong(was, keys[..k], lCheckTime)
        invariant db.dbf.user == was.user - DeadAmong(was, keys[..k], lCheckTime)
        decreases |pLoginQueue|
      {
        var login := pLoginQueue[0];
        pLoginQueue := pLoginQueue[1..];
        assert login == keys[k] && login in keys && login in was.timelog && Fold(login) == login;
        DeadStep(was, keys, k, lCheckTime);
        NotYetDead(was, keys, k, lCheckTime);
        DeadByEntry(was, db.dbf, login, lCheckTime);
        ghost var gone := if Dead(was, login, lCheckTime) then {login} else {};
        MinusTwice(was.timelog, DeadAmong(was, keys[..k], lCheckTime), gone);
        MinusTwice(was.user, DeadAmong(was, keys[..k], lCheckTime), gone);
        k := k + 1;
        RmIfDead(login, lCheckTime);
      }
      assert keys[..k] == keys;
      AllDead(was, keys, lCheckTime);
    }

    method RmIfDead(login: string, lCheckTime: int)
      requires Inverse(db.dbf)
      modifies db`dbf
      ensures Inverse(db.dbf)
      ensures db.dbf
        == if Dead(old(db.dbf), login, lCheckTime) then Sessions.RmAccount(old(db.dbf), login) else old(db.dbf)
      ensures db.dbf.timelog == old(db.dbf).timelog - if Dead(old(db.dbf), login, lCheckTime) then {Fold(login)} else {}
      ensures db.dbf.user == old(db.dbf).user - if Dead(old(db.dbf), login, lCheckTime) then {Fold(login)} else {}
    {
      hide Inverse, Fold, Sessions.RmAccount;
      RmTables(db.dbf, login);
      var pTime := db.GetDb(TIMELOG_DB, login);
      if pTime.Some? {
        if lCheckTime > Atol(pTime.value) {
          RmAccountKeepsInverse(db.dbf, login);
          RmAccount(login);
        }
      }
    }
  }

  lemma MinusTwice(t: Table, a: set<string>, b: set<string>)
    ensures t - a - b == t - (a + b)
  {
  }

  lemma OneMoreKey(access: Table, done: set<string>, login: string, channel: string)
    ensures access - AccessKeys(done + {channel}, login) == Deleted(access - AccessKeys(done, login), login + channel)
  {
    assert AccessKeys(done + {channel}, login) == AccessKeys(done, login) + {Fold(login + channel)};
  }

  datatype UserLevel = NoneLevel | LoggedLevel | FriendLevel | OwnerLevel | MasterLevel

  function Rank(level: UserLevel): nat {
    match level
    case NoneLevel => 0
    case LoggedLevel => 1
    case FriendLevel => 2
    case OwnerLevel => 3
    case MasterLevel => 4
  }

  function AfterHello(t: Tables, netmask: string, nick: string, level: UserLevel, time: string,
          secret: string): Tables {
    if Rank(level) > Rank(LoggedLevel) then t
    else
      var t1 := t.(user := Added(t.user, nick, secret));
      var t2 := if Exists(t.user, nick) then t1 else Sessions.LogOn(t1, netmask, nick, time);
      if t.user == map[] then t2.(access := t2.access[Fold(nick) := "m"]) else t2
  }

  /**
   What `!hello` changes, entry by entry: only a caller of no level or logged in gets through. The user
   table then gains the nickname, if it was missing, and the caller is logged on; the access table gets
   the entry of a master for the nickname exactly when there was no user at all.
   */
  lemma HelloIsExact(t: Tables, netmask: string, nick: string, level: UserLevel, time: string, secret: string,
          key: string)
    ensures var t' := AfterHello(t, netmask, nick, level, time, secret);
      var through, mine := level == NoneLevel || level == LoggedLevel, Fold(key) == Fold(nick);
      var new_ := through && mine && Lookup(t.user, nick) == None;
      && Lookup(t'.access, key) == (if through && mine && t.user == map[] then Some("m") else Lookup(t.access, key))
      && Lookup(t'.user, key) == (if new_ then Some(secret) else Lookup(t.user, key))
      && Lookup(t'.timelog, key) == (if new_ then Some(time) else Lookup(t.timelog, key))
      && Lookup(t'.usertonick, key) == (if new_ then Some(netmask) else Lookup(t.usertonick, key))
      && t'.channel == t.channel && t'.banlist == t.banlist
  {
    hide Fold;
    LogOnIsExact(t.(user := Added(t.user, nick, secret)), netmask, nick, time, key);
    hide Sessions.LogOn;
  }

  lemma SessionsOnly(t: Tables, netmask: string, login: string, time: string)
    ensures Sessions.LogOn(t, netmask, login, time).access == t.access
  {
    hide Fold, Added, Replaced, Deleted, Exists;
  }

  /**
   A caller who is already logged in for another account is let through, and
   then the login tables stop being inverse: that is the only way it happens.
   */
  lemma HelloKeepsInverse(t: Tables, netmask: string, nick: string, level: UserLevel, time: string, secret: string)
    requires Inverse(t)
    ensures Inverse(AfterHello(t, netmask, nick, level, time, secret)) <==>
      Rank(level) > Rank(LoggedLevel) || Exists(t.user, nick) || Free(t, netmask, nick)
  {
    var t1 := t.(user := Added(t.user, nick, secret));
    LogOnKeepsInverse(t1, netmask, nick, time);
    hide Sessions.LogOn, Fold, Free;
  }

  /** The new netmask of a user who changes nicknames. */
  datatype NickChange = NullRead | TooShort | MovesTo(netmask: string)

  /** The nickname stands behind the last space and one more character; the rest is the old netmask from its `!` on. */
  function NewNetmask(netmask: string, line: string): NickChange {
    match StrRChr(line, ' ')
    case None => NullRead
    case Some(nick) =>
      if |nick| <= 2 then TooShort
      else match StrChr(netmask, '!')
        case None => NullRead
        case Some(host) => MovesTo(nick[2..] + StrTok(host, ' '))
  }

  function NickOfSession(t: Tables, pNetmask: Option<string>, line: string): NickChange {
    if pNetmask.Some? && Exists(t.nicktouser, pNetmask.value) then NewNetmask(pNetmask.value, line) else TooShort
  }

  /** A line without a space, or the netmask of a session without `!`. */
  predicate NickReadsNull(t: Tables, pNetmask: Option<string>, line: string) {
    NickOfSession(t, pNetmask, line).NullRead?
  }

  function AfterNick(t: Tables, pNetmask: Option<string>, line: string, time: string): Tables {
    match NickOfSession(t, pNetmask, line)
    case MovesTo(netmask) =>
      var login := t.nicktouser[Fold(pNetmask.value)];
      Sessions.LogOn(Sessions.LogOut(t, login), netmask, login, time)
    case _ => t
  }

  lemma LineOfNick(head: string, nick: string)
    requires ' ' !in nick
    ensures StrRChr(head + " :" + nick, ' ') == Some(" :" + nick)
  {
    var line := head + " :" + nick;
    hide LastIndexOf;
    assert line[|head|] == ' ' && forall j :: |head| < j < |line| ==> line[j] == (":" + nick)[j - |head| - 1];
    assert LastIndexOf(line, ' ') == |head| + 1;
    assert line[|head|..] == " :" + nick;
  }

  lemma HostOfNetmask(nick: string, host: string)
    requires '!' !in nick && host != "" && host[0] == '!' && ' ' !in host
    ensures StrChr(nick + host, '!') == Some(host) && StrTok(host, ' ') == host
  {
    var netmask := nick + host;
    hide IndexOf;
    assert netmask[|nick|] == '!' && forall j :: 0 <= j < |nick| ==> netmask[j] == nick[j];
    assert IndexOf(netmask, '!') == |nick| && netmask[|nick|..] == host;
    assert IndexOf(host, ' ') == |host|;
  }

  /** The session moves to the new nickname at the same user and host. */
  lemma NewNetmaskKeepsHost(nick: string, host: string, head: string, newNick: string)
    requires '!' !in nick && host != "" && host[0] == '!' && ' ' !in host && newNick != "" && ' ' !in newNick
    ensures NewNetmask(nick + host, head + " :" + newNick) == MovesTo(newNick + host)
  {
    hide StrChr, StrRChr, StrTok;
    LineOfNick(head, newNick);
    HostOfNetmask(nick, host);
    assert (" :" + newNick)[2..] == newNick;
  }

  /** A change of nickname keeps the tables inverse unless the new netmask is somebody else's. */
  lemma NickKeepsInverse(t: Tables, netmask: string, line: string, time: string)
    requires Inverse(t) && Exists(t.nicktouser, netmask)
    ensures Inverse(AfterNick(t, Some(netmask), line, time)) <==>
      (NewNetmask(netmask, line).MovesTo? ==> Free(t, NewNetmask(netmask, line).netmask, t.nicktouser[Fold(netmask)]))
  {
    var login := t.nicktouser[Fold(netmask)];
    var t1 := Sessions.LogOut(t, login);
    LogOutKeepsInverse(t, login);
    LogOutIsExact(t, login);
    hide Inverse, Sessions.LogOn, Sessions.LogOut, Fold, NewNetmask;
    if NewNetmask(netmask, line).MovesTo? {
      LogOnKeepsInverse(t1, NewNetmask(netmask, line).netmask, login, time);
    }
  }

  /** Alice is the master; bob has logged in by password under the nickname eve. */
  const BOB_AS_EVE := Tables(map["alice" := "SL1", "bob" := "SL2"], map[], map["alice" := "m"], map[],
    map["bob" := "eve!u@h"], map["alice" := "1", "bob" := "2"], map["eve!u@h" := "bob"])

  /** He says hello, and an account eve is logged on to his netmask. */
  lemma HelloBreaksInverse(time: string, secret: string)
    ensures Inverse(BOB_AS_EVE) && !Inverse(AfterHello(BOB_AS_EVE, "eve!u@h", "eve", LoggedLevel, time, secret))
  {
    var t := BOB_AS_EVE;
    assert Fold("bob") == "bob" && Fold("eve") == "eve" && Fold("eve!u@h") == "eve!u@h";
    hide Fold;
    assert Pairs(t.usertonick, t.nicktouser, "bob") && Pairs(t.nicktouser, t.usertonick, "eve!u@h");
    HelloKeepsInverse(t, "eve!u@h", "eve", LoggedLevel, time, secret);
  }

  /** Alice went offline out of the bot's sight; bob, on the same host, is logged in as well. */
  const ALICE_AND_BOB := Tables(map["alice" := "SL1", "bob" := "SL2"], map[], map["alice" := "m"], map[],
    map["alice" := "al!u@h", "bob" := "bob!u@h"], map["alice" := "1", "bob" := "2"],
    map["al!u@h" := "alice", "bob!u@h" := "bob"])

  lemma AliceIsOn()
    ensures Pairs(ALICE_AND_BOB.usertonick, ALICE_AND_BOB.nicktouser, "alice")
    ensures Pairs(ALICE_AND_BOB.nicktouser, ALICE_AND_BOB.usertonick, "al!u@h")
  {
    assert Fold("alice") == "alice" && Fold("al!u@h") == "al!u@h";
    hide Fold;
  }

  lemma BobIsOn()
    ensures Pairs(ALICE_AND_BOB.usertonick, ALICE_AND_BOB.nicktouser, "bob")
    ensures Pairs(ALICE_AND_BOB.nicktouser, ALICE_AND_BOB.usertonick, "bob!u@h")
  {
    assert Fold("bob") == "bob" && Fold("bob!u@h") == "bob!u@h";
    hide Fold;
  }

  lemma BothAreOn()
    ensures Inverse(ALICE_AND_BOB)
    ensures Exists(ALICE_AND_BOB.nicktouser, "bob!u@h") && ALICE_AND_BOB.nicktouser[Fold("bob!u@h")] == "bob"
    ensures !Free(ALICE_AND_BOB, "al!u@h", "bob")
  {
    AliceIsOn();
    BobIsOn();
    assert Fold("alice") == "alice" && Fold("bob") == "bob" && Fold("al!u@h") == "al!u@h"
      && Fold("bob!u@h") == "bob!u@h";
    hide Fold, Pairs;
  }

  /** He takes the nickname she had, and both accounts are on under one netmask. */
  lemma NickBreaksInverse(time: string)
    ensures Inverse(ALICE_AND_BOB)
    ensures !Inverse(AfterNick(ALICE_AND_BOB, Some("bob!u@h"), ":bob!u@h NICK :al", time))
  {
    hide Fold, NewNetmask, Free, Inverse, Exists, AfterNick;
    BothAreOn();
    NewNetmaskKeepsHost("bob", "!u@h", ":bob!u@h NICK", "al");
    assert "bob" + "!u@h" == "bob!u@h" && "al" + "!u@h" == "al!u@h";
    assert ":bob!u@h NICK" + " :" + "al" == ":bob!u@h NICK :al";
    NickKeepsInverse(ALICE_AND_BOB, "bob!u@h", ":bob!u@h NICK :al", time);
  }

  /** Only the sessions differ. */
  predicate SameBut(t: Tables, t': Tables) {
    t' == t.(usertonick := t'.usertonick, nicktouser := t'.nicktouser)
  }

  lemma SameDead(t: Tables, t': Tables, login: string, lCheckTime: int)
    requires SameBut(t, t')
    ensures Dead(t, login, lCheckTime) <==> Dead(t', login, lCheckTime)
  {
  }

  lemma DeadByEntry(t: Tables, t': Tables, login: string, lCheckTime: int)
    requires Fold(login) == login && login in t.timelog && login in t'.timelog && t.timelog[login] == t'.timelog[login]
    ensures Dead(t, login, lCheckTime) <==> Dead(t', login, lCheckTime)
  {
  }

  lemma DeadStep(t: Tables, keys: seq<string>, k: nat, lCheckTime: int)
    requires k < |keys|
    ensures DeadAmong(t, keys[..k + 1], lCheckTime) ==
      DeadAmong(t, keys[..k], lCheckTime) + if Dead(t, keys[k], lCheckTime) then {keys[k]} else {}
  {
    hide Dead;
    assert keys[..k + 1] == keys[..k] + [keys[k]];
  }

  lemma EmptyList(keys: seq<string>, t: Table)
    requires forall k :: k in keys <==> k in t
    ensures keys == [] <==> t == map[]
  {
    if keys != [] {
      assert keys[0] in keys;
    }
  }

  lemma RmTables(t: Tables, login: string)
    ensures Sessions.RmAccount(t, login).timelog == t.timelog - {Fold(login)}
    ensures Sessions.RmAccount(t, login).user == t.user - {Fold(login)}
  {
    hide Fold, AccessKeys;
  }

  lemma NoneDead(t: Tables, lCheckTime: int)
    ensures DeadAmong(t, [], lCheckTime) == {}
  {
  }

  lemma NotYetDead(t: Tables, keys: seq<string>, k: nat, lCheckTime: int)
    requires k < |keys| && forall i, j :: 0 <= i < j < |keys| ==> keys[i] != keys[j]
    ensures keys[k] !in DeadAmong(t, keys[..k], lCheckTime)
  {
    hide Dead;
  }

  lemma AllDead(t: Tables, keys: seq<string>, lCheckTime: int)
    requires forall k :: k in keys <==> k in t.timelog
    ensures forall l :: l in DeadAmong(t, keys, lCheckTime) <==> l in t.timelog && Dead(t, l, lCheckTime)
  {
    hide Dead;
  }
}
