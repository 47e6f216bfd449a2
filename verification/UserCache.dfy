/** memos/store/user.go: users in the database, and a cache whose key is the ID converted to a rune. */
module UserCache {
  import opened Calendar

  datatype User = User(id: int, username: string)

  /** `string(user.ID)`: the code point itself, or U+FFFD for an ID that is no Unicode scalar value. */
  function KeyOf(id: int): int {
    if ValidRune(id) then id else 0xFFFD
  }

  predicate ValidRune(id: int) {
    0 <= id < 0xD800 || 0xE000 <= id <= 0x10FFFF
  }

  /** IDs are 32-bit. */
  predicate IsId(id: int) {
    -0x8000_0000 <= id <= 0x7FFF_FFFF
  }

  datatype State = State(rows: map<int, User>, cache: map<int, User>)

  /** Each call of the store is one step. The driver's failures leave everything as it is; which rows a
      listing finds is the driver's affair. Entries leave the cache at any time. */
  datatype Event =
    | Create(user: User)
    | Update(user: User)
    | List(found: seq<int>)
    | GetById(id: int)
    | Delete(id: int)
    | Evict(key: int)

  function CacheAll(s: State, found: seq<int>): map<int, User> {
    if found == [] then s.cache
    else
      var id := found[|found| - 1];
      var before := CacheAll(s, found[..|found| - 1]);
      if id in s.rows then before[KeyOf(id) := s.rows[id]] else before
  }

  /** `GetUser` with nothing but an ID. */
  function Lookup(s: State, id: int): Option<User> {
    if KeyOf(id) in s.cache then Some(s.cache[KeyOf(id)])
    else if id in s.rows then Some(s.rows[id])
    else None
  }

  function Step(s: State, e: Event): State {
    match e
    case Create(u) => if IsId(u.id) && u.id !in s.rows then State(s.rows[u.id := u], s.cache[KeyOf(u.id) := u]) else s
    case Update(u) => if u.id in s.rows then State(s.rows[u.id := u], s.cache[KeyOf(u.id) := u]) else s
    case List(found) => s.(cache := CacheAll(s, found))
    case GetById(id) => if KeyOf(id) in s.cache then s else s.(cache := CacheAll(s, [id]))
    case Delete(id) => State(s.rows - {id}, s.cache - {KeyOf(id)})
    case Evict(k) => s.(cache := s.cache - {k})
  }

  function Run(events: seq<Event>): State {
    if events == [] then State(map[], map[]) else Step(Run(events[..|events| - 1]), events[|events| - 1])
  }

  /** Everything cached is the current row of a user whose ID converts to that key. */
  predicate Inv(s: State) {
    && (forall id <- s.rows :: s.rows[id].id == id && IsId(id))
    && (forall k <- s.cache :: var u := s.cache[k]; KeyOf(u.id) == k && u.id in s.rows && s.rows[u.id] == u)
  }

  lemma {:induction false} CacheAllKeepsInv(s: State, found: seq<int>)
    requires Inv(s)
    ensures Inv(s.(cache := CacheAll(s, found)))
  {
    hide KeyOf;
    if found != [] {
      CacheAllKeepsInv(s, found[..|found| - 1]);
    }
  }

  lemma StepKeepsInv(s: State, e: Event)
    requires Inv(s)
    ensures Inv(Step(s, e))
  {
    hide KeyOf, CacheAll;
    match e
    case List(found) => CacheAllKeepsInv(s, found);
    case GetById(id) => CacheAllKeepsInv(s, [id]);
    case _ =>
  }

  lemma {:induction false} RunKeepsInv(events: seq<Event>)
    ensures Inv(Run(events))
  {
    hide Step;
    if events != [] {
      RunKeepsInv(events[..|events| - 1]);
      StepKeepsInv(Run(events[..|events| - 1]), events[|events| - 1]);
    }
  }

  function Row(s: State, id: int): Option<User> {
    if id in s.rows then Some(s.rows[id]) else None
  }

  /** Looking the ID up gives the current row after every run. */
  ghost predicate AlwaysRight(id: int) {
    forall events :: Lookup(Run(events), id) == Row(Run(events), id)
  }

  /** An ID is always looked up right exactly when its key is its own: a Unicode scalar value other than
      U+FFFD. */
  lemma RightExactly(id: int)
    requires IsId(id)
    ensures AlwaysRight(id) <==> ValidRune(id) && id != 0xFFFD
  {
    if ValidRune(id) && id != 0xFFFD {
      forall events ensures Lookup(Run(events), id) == Row(Run(events), id) {
        RunKeepsInv(events);
      }
    } else {
      var other := if id == 0xD800 then 0xD801 else 0xD800;
      var events := [Create(User(other, "u"))];
      assert events[..0] == [];
      assert Run(events) == State(map[other := User(other, "u")], map[0xFFFD := User(other, "u")]);
      assert Lookup(Run(events), id) != Row(Run(events), id);
    }
  }

  /** With only the user 55296 created, looking up 55297 finds that user. */
  lemma SharedKeyExample()
    ensures var u := User(55296, "u");
            Lookup(Run([Create(u)]), 55297) == Some(u) && Row(Run([Create(u)]), 55297) == None
  {
    var events := [Create(User(55296, "u"))];
    assert events[..0] == [];
    assert Run(events) == State(map[55296 := User(55296, "u")], map[0xFFFD := User(55296, "u")]);
  }

  /** In particular for every ID from 0 up to 55295. */
  lemma RightUpToSurrogates(id: int, events: seq<Event>)
    requires 0 <= id <= 55295
    ensures Lookup(Run(events), id) == Row(Run(events), id)
  {
    RightExactly(id);
  }

  class Store {
    var rows: map<int, User>
    var userCache: map<int, User>

    function Now(): State
      reads this
    {
      State(rows, userCache)
    }

    constructor ()
      ensures Now() == State(map[], map[])
    {
      rows, userCache := map[], map[];
    }

    method CreateUser(u: User) returns (ok: bool)
      modifies this
      ensures Now() == Step(old(Now()), Create(u)) && ok == (IsId(u.id) && u.id !in old(rows))
    {
      ok := IsId(u.id) && u.id !in rows;
      if ok {
        rows := rows[u.id := u];
        userCache := userCache[KeyOf(u.id) := u];
      }
    }

    method UpdateUser(u: User) returns (ok: bool)
      modifies this
      ensures Now() == Step(old(Now()), Update(u)) && ok == (u.id in old(rows))
    {
      ok := u.id in rows;
      if ok {
        rows := rows[u.id := u];
        userCache := userCache[KeyOf(u.id) := u];
      }
    }

    /** The rows a query finds, each cached on the way. */
    method ListUsers(found: seq<int>) returns (list: seq<User>)
      requires Inv(Now())
      modifies this
      ensures Now() == Step(old(Now()), List(found))
      ensures forall u :: u in list <==> exists id <- found :: id in rows && u == rows[id]
      ensures |found| == 1 ==> list == if found[0] in rows then [rows[found[0]]] else []
    {
      list := [];
      for i := 0 to |found|
        invariant rows == old(rows) && list == Rows(rows, found[..i])
      {
        assert found[..i + 1][..i] == found[..i];
        if found[i] in rows {
          list := list + [rows[found[i]]];
        }
      }
      assert found[..|found|] == found;
      RowsMembers(rows, found);
      for i := 0 to |found|
        invariant rows == old(rows) && userCache == CacheAll(old(Now()), found[..i])
      {
        assert found[..i + 1][..i] == found[..i];
        if found[i] in rows {
          userCache := userCache[KeyOf(rows[found[i]].id) := rows[found[i]]];
        }
      }
    }

    method GetUser(id: int) returns (user: Option<User>)
      requires Inv(Now())
      modifies this
      ensures Now() == Step(old(Now()), GetById(id)) && user == Lookup(old(Now()), id)
    {
      if KeyOf(id) in userCache {
        return Some(userCache[KeyOf(id)]);
      }
      var list := ListUsers([id]);
      if |list| == 0 {
        return None;
      }
      assert [id][..0] == [];
      userCache := userCache[KeyOf(list[0].id) := list[0]];
      return Some(list[0]);
    }

    method DeleteUser(id: int)
      modifies this
      ensures Now() == Step(old(Now()), Delete(id))
    {
      rows := rows - {id};
      userCache := userCache - {KeyOf(id)};
    }
  }

  function Rows(rows: map<int, User>, found: seq<int>): (list: seq<User>)
    ensures |found| == 1 ==> list == if found[0] in rows then [rows[found[0]]] else []
  {
    if found == [] then []
    else
      var id := found[|found| - 1];
      Rows(rows, found[..|found| - 1]) + if id in rows then [rows[id]] else []
  }

  lemma {:induction false} RowsMembers(rows: map<int, User>, found: seq<int>)
    ensures forall u :: u in Rows(rows, found) <==> exists id <- found :: id in rows && u == rows[id]
  {
    if found != [] {
      var n := |found| - 1;
      RowsMembers(rows, found[..n]);
      assert forall id <- found :: id in found[..n] || id == found[n];
      assert found[n] in found && forall id <- found[..n] :: id in found;
    }
  }
}
