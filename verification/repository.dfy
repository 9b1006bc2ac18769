/**
 An in-memory stand-in for the two JPA repositories: the account table and the
 message table, each a finite map from primary key to row, plus the identity
 counters the database uses to assign fresh keys.
 */
module Repository {
  import opened Entities

  /** Both tables and the next key each one will hand out. */
  datatype Store = Store(
    accounts: map<int, Account>,
    messages: map<int, Message>,
    nextAccountId: int,
    nextMessageId: int)

  /** What a mutating service call returns, together with the store after it. */
  datatype Step<T> = Step(result: T, store: Store)

  /** The store before anything has been saved. */
  const Empty: Store := Store(map[], map[], 1, 1)

  /** Every row sits under its own id, and every id is below its table's counter. */
  predicate Valid(s: Store) {
    && 1 <= s.nextAccountId
    && 1 <= s.nextMessageId
    && (forall id :: id in s.accounts ==> s.accounts[id].accountId == id && 1 <= id < s.nextAccountId)
    && (forall id :: id in s.messages ==> s.messages[id].messageId == id && 1 <= id < s.nextMessageId)
  }

  /** Some stored account has exactly this username. */
  predicate UsernameTaken(accounts: map<int, Account>, username: string) {
    exists id :: id in accounts && accounts[id].username == username
  }

  /** No two stored accounts share a username. */
  predicate UniqueUsernames(accounts: map<int, Account>) {
    forall i, j :: i in accounts && j in accounts && accounts[i].username == accounts[j].username ==> i == j
  }

  /** Every stored message is posted by a stored account. */
  predicate PostersExist(s: Store) {
    forall id :: id in s.messages ==> s.messages[id].postedBy in s.accounts
  }

  /** Every non-empty finite set of keys has a least element. */
  lemma {:induction false} Least(ids: set<int>) returns (least: int)
    requires ids != {}
    ensures least in ids
    ensures forall i :: i in ids ==> least <= i
  {
    // Each `if forall … { assert false; }` below names a witness term for the
    // solver, so that the `:|` choice after it is known to have a candidate.
    if forall i :: i !in ids { assert false; }
    var x :| x in ids;
    if ids == {x} {
      least := x;
    } else {
      var rest := ids - {x};
      var m := Least(rest);
      least := if x <= m then x else m;
      forall i | i in ids
        ensures least <= i
      {
        if i != x {
          assert i in rest;
        }
      }
    }
  }

  lemma LeastExists(ids: set<int>)
    requires ids != {}
    ensures exists m :: m in ids && forall i :: i in ids ==> m <= i
  {
    var m := Least(ids);
  }

  /** The least element of a non-empty set of keys. */
  function LeastId(ids: set<int>): (m: int)
    requires ids != {}
    ensures m in ids
    ensures forall i :: i in ids ==> m <= i
  {
    LeastExists(ids);
    // The impossible branch hands the solver the witness of `LeastExists`.
    if forall m :: m in ids ==> exists i :: i in ids && i < m then
      assert false; 0
    else
      var m :| m in ids && forall i :: i in ids ==> m <= i;
      m
  }

  /**
   The account lookup by username (`findByUsername`). When several rows share
   the username, the one with the least key is returned.
   */
  function FindByUsername(accounts: map<int, Account>, username: string): (r: Option<Account>)
    ensures r.None? <==> !UsernameTaken(accounts, username)
    ensures r.Some? ==> r.value in accounts.Values && r.value.username == username
    ensures UniqueUsernames(accounts) ==>
      forall id :: id in accounts && accounts[id].username == username ==> r == Some(accounts[id])
  {
    var ids := set id | id in accounts && accounts[id].username == username;
    assert forall id :: id in accounts && accounts[id].username == username ==> id in ids;
    if ids == {} then None else Some(accounts[LeastId(ids)])
  }

  /** Inserts a new account row under the next account key (`save` of a new entity). */
  function SaveNewAccount(s: Store, candidate: Account): (r: Step<Account>)
    ensures r.result == candidate.(accountId := r.result.accountId)
    ensures r.store.accounts == s.accounts[r.result.accountId := r.result]
    ensures r.store.messages == s.messages
    ensures Valid(s) ==> r.result.accountId !in s.accounts && Valid(r.store)
  {
    var saved := candidate.(accountId := s.nextAccountId);
    Step(saved, s.(accounts := s.accounts[saved.accountId := saved], nextAccountId := s.nextAccountId + 1))
  }

  /** Inserts a new message row under the next message key (`save` of a new entity). */
  function SaveNewMessage(s: Store, candidate: Message): (r: Step<Message>)
    ensures r.result == candidate.(messageId := r.result.messageId)
    ensures r.store.messages == s.messages[r.result.messageId := r.result]
    ensures r.store.accounts == s.accounts
    ensures Valid(s) ==> r.result.messageId !in s.messages && Valid(r.store)
  {
    var saved := candidate.(messageId := s.nextMessageId);
    Step(saved, s.(messages := s.messages[saved.messageId := saved], nextMessageId := s.nextMessageId + 1))
  }

  /** Removes the message row with this key and reports how many rows went (`deleteByMessageId`). */
  function DeleteByMessageId(s: Store, id: int): (r: Step<nat>)
    ensures r.result == |s.messages| - |r.store.messages|
    ensures r.store.messages.Keys == s.messages.Keys - {id}
    ensures forall k :: k in r.store.messages ==> r.store.messages[k] == s.messages[k]
    ensures r.store.accounts == s.accounts
  {
    if id in s.messages then
      var after := s.messages - {id};
      assert after.Keys == s.messages.Keys - {id};
      Step(1, s.(messages := after))
    else
      assert s.messages - {id} == s.messages;
      Step(0, s)
  }

  /** Which rows a scan of the message table keeps. */
  datatype Filter = All | PostedBy(accountId: int)

  predicate Keeps(f: Filter, m: Message) {
    match f
    case All => true
    case PostedBy(p) => m.postedBy == p
  }

  /** Every row sits under its own `messageId`. */
  predicate KeyedById(messages: map<int, Message>) {
    forall k :: k in messages ==> messages[k].messageId == k
  }

  /**
   A scan of the message table (`findAll`, `findAllByPostedBy`): the kept rows
   in an order the store chooses, each row once.
   */
  method Select(messages: map<int, Message>, f: Filter) returns (rows: seq<Message>)
    ensures forall m :: m in rows <==> m in messages.Values && Keeps(f, m)
    ensures |rows| <= |messages|
    ensures KeyedById(messages) ==> forall i, j :: 0 <= i < j < |rows| ==> rows[i] != rows[j]
  {
    rows := [];
    ghost var keys: seq<int> := [];
    var left := messages.Keys;
    while left != {}
      invariant left <= messages.Keys
      invariant |keys| == |rows|
      invariant forall i :: 0 <= i < |rows| ==>
        keys[i] in messages && keys[i] !in left && messages[keys[i]] == rows[i] && Keeps(f, rows[i])
      invariant forall i, j :: 0 <= i < j < |keys| ==> keys[i] != keys[j]
      invariant forall k :: k in messages && k !in left && Keeps(f, messages[k]) ==> messages[k] in rows
      invariant |rows| + |left| <= |messages|
      decreases |left|
    {
      // Names a key of `left`, so that the choice below has a candidate.
      if forall k :: k !in left { assert false; }
      var k :| k in left;
      if Keeps(f, messages[k]) {
        rows := rows + [messages[k]];
        keys := keys + [k];
      }
      left := left - {k};
    }
    forall m | m in messages.Values && Keeps(f, m)
      ensures m in rows
    {
      // Names the key under which `m` is stored.
      if forall k :: k in messages ==> messages[k] != m { assert false; }
    }
    if KeyedById(messages) {
      forall i, j | 0 <= i < j < |rows|
        ensures rows[i] != rows[j]
      {
        assert rows[i].messageId == keys[i] && rows[j].messageId == keys[j];
      }
    }
  }
}
