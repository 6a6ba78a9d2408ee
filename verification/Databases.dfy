/**
 The bot's databases: tables of strings whose keys are folded to lower case.
 */
module Databases {
  import opened CStrings
  import opened Options

  type Table = map<string, string>

  datatype DatabaseID = USER_DB | CHANNEL_DB | ACCESS_DB | BANLIST_DB | USERTONICK_DB | TIMELOG_DB | NICKTOUSER_DB

  /** All tables at once. */
  datatype Tables = Tables(user: Table, channel: Table, access: Table, banlist: Table,
                           usertonick: Table, timelog: Table, nicktouser: Table) {

    function At(db: DatabaseID): Table {
      match db
      case USER_DB => user
      case CHANNEL_DB => channel
      case ACCESS_DB => access
      case BANLIST_DB => banlist
      case USERTONICK_DB => usertonick
      case TIMELOG_DB => timelog
      case NICKTOUSER_DB => nicktouser
    }

    function With(db: DatabaseID, table: Table): Tables {
      match db
      case USER_DB => this.(user := table)
      case CHANNEL_DB => this.(channel := table)
      case ACCESS_DB => this.(access := table)
      case BANLIST_DB => this.(banlist := table)
      case USERTONICK_DB => this.(usertonick := table)
      case TIMELOG_DB => this.(timelog := table)
      case NICKTOUSER_DB => this.(nicktouser := table)
    }
  }

  /** `StrToLower`. */
  function Fold(s: string): (r: string)
    ensures |r| == |s| && forall i :: 0 <= i < |s| ==> r[i] == LowerChar(s[i])
  {
    seq(|s|, i requires 0 <= i < |s| => LowerChar(s[i]))
  }

  lemma FoldTwice(s: string)
    ensures Fold(Fold(s)) == Fold(s)
  {
  }

  lemma FoldConcat(s: string, t: string)
    ensures Fold(s + t) == Fold(s) + Fold(t)
  {
  }

  /** Every key of the table is folded. */
  ghost predicate Folded(t: Table) {
    forall k :: k in t ==> Fold(k) == k
  }

  function Exists(t: Table, key: string): bool {
    Fold(key) in t
  }

  /** What callers see of a table: the entry of a key, in whatever case the key is written. */
  function Lookup(t: Table, key: string): Option<string> {
    if Exists(t, key) then Some(t[Fold(key)]) else None
  }

  /** Insertion; an entry that is there stays. */
  function Added(t: Table, key: string, value: string): Table {
    if Exists(t, key) then t else t[Fold(key) := value]
  }

  /** Replacement; a missing entry stays missing. */
  function Replaced(t: Table, key: string, value: string): Table {
    if Exists(t, key) then t[Fold(key) := value] else t
  }

  function Deleted(t: Table, key: string): Table {
    t - {Fold(key)}
  }

  datatype Change =
    | Add(key: string, value: string)
    | Replace(key: string, value: string)
    | Delete(key: string)

  function Apply(t: Table, c: Change): Table {
    match c
    case Add(key, value) => Added(t, key, value)
    case Replace(key, value) => Replaced(t, key, value)
    case Delete(key) => Deleted(t, key)
  }

  function ApplyAll(t: Table, cs: seq<Change>): Table
    decreases |cs|
  {
    if cs == [] then t else ApplyAll(Apply(t, cs[0]), cs[1..])
  }

  /** The changes made under the key, whatever the case it was written in. */
  function Concerning(cs: seq<Change>, key: string): seq<Change>
    decreases |cs|
  {
    if cs == [] then []
    else if Fold(cs[0].key) == Fold(key) then [cs[0]] + Concerning(cs[1..], key)
    else Concerning(cs[1..], key)
  }

  /** A change shows under the keys that fold like its own, and under no other. */
  lemma ChangeShows(t: Table, c: Change, key: string)
    ensures Fold(c.key) != Fold(key) ==> Lookup(Apply(t, c), key) == Lookup(t, key)
    ensures Fold(c.key) == Fold(key) ==> Lookup(Apply(t, c), key) == match c
      case Add(_, value) => Some(if Lookup(t, key).Some? then Lookup(t, key).value else value)
      case Replace(_, value) => if Lookup(t, key).Some? then Some(value) else None
      case Delete(_) => None
  {
    hide Fold;
  }

  /**
   Over any run of changes a lookup depends on nothing but the entry it started from and the
   changes under its own key, and two keys that fold alike cannot be told apart.
   */
  lemma {:induction false} LookupIsItsHistory(t: Table, t': Table, cs: seq<Change>, key: string, key': string)
    requires Fold(key) == Fold(key') && Lookup(t, key) == Lookup(t', key')
    ensures Lookup(ApplyAll(t, cs), key) == Lookup(ApplyAll(t', Concerning(cs, key')), key')
    decreases |cs|
  {
    hide Fold, Lookup, Apply;
    if cs != [] {
      ChangeShows(t, cs[0], key);
      ChangeShows(t', cs[0], key');
      if Fold(cs[0].key) == Fold(key) {
        LookupIsItsHistory(Apply(t, cs[0]), Apply(t', cs[0]), cs[1..], key, key');
        assert ([cs[0]] + Concerning(cs[1..], key'))[1..] == Concerning(cs[1..], key');
      } else {
        LookupIsItsHistory(Apply(t, cs[0]), t', cs[1..], key, key');
      }
    }
  }

  /** The open databases. Passwords are kept as `crypt` gives them. */
  class Store {
    var dbf: Tables
    const crypt: string -> string

    constructor (crypt: string -> string, dbf: Tables)
      ensures this.crypt == crypt && this.dbf == dbf
    {
      this.crypt, this.dbf := crypt, dbf;
    }

    function Kept(db: DatabaseID, value: string): string {
      if db.USER_DB? then crypt(value) else value
    }

    method ExistDb(db: DatabaseID, key: string) returns (found: bool)
      ensures found <==> Lookup(dbf.At(db), key).Some?
    {
      var pKey := Fold(key);
      found := pKey in dbf.At(db);
    }

    method AddDb(db: DatabaseID, key: string, value: string) returns (ok: bool)
      modifies this`dbf
      ensures ok <==> !Exists(old(dbf).At(db), key)
      ensures dbf == old(dbf).With(db, Added(old(dbf).At(db), key, Kept(db, value)))
    {
      var pKey := Fold(key);
      FoldTwice(key);
      ok := ExistDb(db, pKey);
      if ok {
        return false;
      }
      dbf := dbf.With(db, dbf.At(db)[pKey := Kept(db, value)]);
      return true;
    }

    method ReplaceDb(db: DatabaseID, key: string, value: string) returns (ok: bool)
      modifies this`dbf
      ensures ok <==> Exists(old(dbf).At(db), key)
      ensures dbf == old(dbf).With(db, Replaced(old(dbf).At(db), key, Kept(db, value)))
    {
      var pKey := Fold(key);
      ok := ExistDb(db, key);
      if !ok {
        return false;
      }
      dbf := dbf.With(db, dbf.At(db)[pKey := Kept(db, value)]);
      return true;
    }

    method DelDb(db: DatabaseID, key: string) returns (ok: bool)
      modifies this`dbf
      ensures ok <==> Exists(old(dbf).At(db), key)
      ensures dbf == old(dbf).With(db, Deleted(old(dbf).At(db), key))
    {
      var pKey := Fold(key);
      ok := ExistDb(db, key);
      if !ok {
        assert Deleted(dbf.At(db), key) == dbf.At(db);
        return false;
      }
      dbf := dbf.With(db, dbf.At(db) - {pKey});
    }

    method GetDb(db: DatabaseID, key: string) returns (value: Option<string>)
      ensures value == Lookup(dbf.At(db), key)
    {
      var pKey := Fold(key);
      if pKey in dbf.At(db) {
        return Some(dbf.At(db)[pKey]);
      }
      return None;
    }

    /** Compares a value, a password in its encrypted form. */
    method CheckDb(db: DatabaseID, key: string, value: string) returns (equal: bool)
      ensures equal <==> Lookup(dbf.At(db), key) == Some(Kept(db, value))
    {
      var pKey := Fold(key);
      FoldTwice(key);
      equal := ExistDb(db, pKey);
      if equal {
        equal := dbf.At(db)[pKey] == Kept(db, value);
      }
    }

    /** The keys, each once, in whatever order the database gives them. */
    method ListDb(db: DatabaseID) returns (keys: seq<string>)
      ensures forall k :: k in keys <==> k in dbf.At(db)
      ensures forall i, j :: 0 <= i < j < |keys| ==> keys[i] != keys[j]
    {
      keys := [];
      var rest := dbf.At(db).Keys;
      while rest != {}
        invariant forall k :: k in dbf.At(db) <==> k in keys || k in rest
        invariant forall k :: k in keys ==> k !in rest
        invariant forall i, j :: 0 <= i < j < |keys| ==> keys[i] != keys[j]
        decreases |rest|
      {
        var k :| k in rest;
        keys := keys + [k];
        rest := rest - {k};
      }
    }
  }
}
