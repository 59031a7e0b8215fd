/**
 * The database the handlers share (`database.DB`), as three tables held in
 * primary-key order. Each table assigns the next serial key on insert; the
 * user table also enforces the unique constraints on username and email
 * declared at model/user.go:6-7.
 */
module Store {
  import opened Wrappers
  import opened Records
  import opened Query

  function UserKey(u: User): nat { u.id }
  function ItemKey(it: Item): nat { it.id }
  function PostKey(p: Post): nat { p.id }

  /** The condition `id = ?` on the item table. */
  function HasItemId(id: int): Item -> bool {
    (it: Item) => it.id == id
  }

  /** Primary keys are positive, below the next serial value, and strictly increase along the table. */
  ghost predicate KeysBelow<T>(rows: seq<T>, key: T -> nat, next: nat) {
    && next >= 1
    && (forall i, j :: 0 <= i < j < |rows| ==> key(rows[i]) < key(rows[j]))
    && (forall i :: 0 <= i < |rows| ==> 1 <= key(rows[i]) < next)
  }

  /** No two users share an email or a username. */
  ghost predicate UniqueCredentials(users: seq<User>) {
    forall i, j :: 0 <= i < j < |users| ==>
      users[i].email != users[j].email && users[i].username != users[j].username
  }

  /** Inserting `u` would violate a unique constraint. */
  predicate Clashes(users: seq<User>, u: User) {
    exists i :: 0 <= i < |users| && (users[i].email == u.email || users[i].username == u.username)
  }

  lemma KeysAppend<T>(rows: seq<T>, key: T -> nat, next: nat, x: T)
    requires KeysBelow(rows, key, next) && key(x) == next
    ensures KeysBelow(rows + [x], key, next + 1)
  {
  }

  lemma {:induction false} KeysRemove<T>(rows: seq<T>, key: T -> nat, next: nat, k: nat)
    requires KeysBelow(rows, key, next) && k < |rows|
    ensures KeysBelow(rows[..k] + rows[k + 1..], key, next)
  {
    var r := rows[..k] + rows[k + 1..];
    forall i, j | 0 <= i < j < |r| ensures key(r[i]) < key(r[j]) {
      var i' := if i < k then i else i + 1;
      var j' := if j < k then j else j + 1;
      assert r[i] == rows[i'] && r[j] == rows[j'];
    }
    forall i | 0 <= i < |r| ensures 1 <= key(r[i]) < next {
      assert r[i] == rows[if i < k then i else i + 1];
    }
  }

  /** A row keyed below every row of an ordered table can head it. */
  lemma KeysCons<T>(x: T, rows: seq<T>, key: T -> nat, next: nat)
    requires KeysBelow(rows, key, next) && 1 <= key(x) < next
    requires forall y :: y in rows ==> key(x) < key(y)
    ensures KeysBelow([x] + rows, key, next)
  {
    var r := [x] + rows;
    forall i, j | 0 <= i < j < |r| ensures key(r[i]) < key(r[j]) {
      assert r[j] == rows[j - 1];
      if i > 0 {
        assert r[i] == rows[i - 1];
      }
    }
  }

  /** The rows after the first of an ordered table are ordered too. */
  lemma KeysTail<T>(rows: seq<T>, key: T -> nat, next: nat)
    requires KeysBelow(rows, key, next) && rows != []
    ensures KeysBelow(rows[1..], key, next)
    ensures forall y :: y in rows[1..] ==> key(rows[0]) < key(y)
  {
    var tail := rows[1..];
    forall i, j | 0 <= i < j < |tail| ensures key(tail[i]) < key(tail[j]) {
      assert tail[i] == rows[i + 1] && tail[j] == rows[j + 1];
    }
    forall y | y in tail ensures key(rows[0]) < key(y) {
      var j :| 0 <= j < |tail| && tail[j] == y;
      assert y == rows[j + 1];
    }
  }

  /** A filtered read of a table lists its rows in primary-key order, as the table holds them. */
  lemma {:induction false} WhereKeepsKeyOrder<T(!new)>(rows: seq<T>, key: T -> nat, next: nat, keep: T -> bool)
    requires KeysBelow(rows, key, next)
    ensures KeysBelow(Where(rows, keep), key, next)
  {
    if rows != [] {
      var tail := rows[1..];
      KeysTail(rows, key, next);
      WhereKeepsKeyOrder(tail, key, next, keep);
      if keep(rows[0]) {
        assert Where(rows, keep) == [rows[0]] + Where(tail, keep);
        KeysCons(rows[0], Where(tail, keep), key, next);
      } else {
        assert Where(rows, keep) == Where(tail, keep);
      }
    }
  }

  /** With strictly increasing keys, the row with a given key is the only one. */
  lemma KeyedRowIsUnique(items: seq<Item>, next: nat, k: nat)
    requires KeysBelow(items, ItemKey, next) && k < |items|
    ensures IndexWhere(items, HasItemId(items[k].id)) == Some(k)
  {
    var m := IndexWhere(items, HasItemId(items[k].id));
    assert m.Some? && m.value <= k;
    assert ItemKey(items[m.value]) == ItemKey(items[k]);
  }

  /** Removing the row at `k` removes exactly the rows with its key, since keys are unique. */
  lemma {:induction false} RemovedRows(items: seq<Item>, next: nat, k: nat)
    requires KeysBelow(items, ItemKey, next) && k < |items|
    ensures forall it :: it in items[..k] + items[k + 1..] <==> it in items && it.id != items[k].id
  {
    var r := items[..k] + items[k + 1..];
    forall it
      ensures it in r <==> it in items && it.id != items[k].id
    {
      if it in r {
        var i :| 0 <= i < |r| && r[i] == it;
        var j := if i < k then i else i + 1;
        assert r[i] == items[j] && ItemKey(items[j]) != ItemKey(items[k]);
      }
      if it in items && it.id != items[k].id {
        var j :| 0 <= j < |items| && items[j] == it;
        assert it == r[if j < k then j else j - 1];
      }
    }
  }

  class Database {
    var users: seq<User>
    var items: seq<Item>
    var posts: seq<Post>
    var nextUserId: nat
    var nextItemId: nat
    var nextPostId: nat

    ghost predicate Valid()
      reads this
    {
      && KeysBelow(users, UserKey, nextUserId) && UniqueCredentials(users)
      && KeysBelow(items, ItemKey, nextItemId)
      && KeysBelow(posts, PostKey, nextPostId)
    }

    /** An empty, freshly migrated database. */
    constructor ()
      ensures Valid()
      ensures users == [] && items == [] && posts == []
    {
      users, items, posts := [], [], [];
      nextUserId, nextItemId, nextPostId := 1, 1, 1;
    }

    /** `db.Create(&user)`: the row gets the next key unless a unique constraint or the storage layer rejects it. */
    method InsertUser(u: User, outcome: Outcome) returns (stored: Option<User>)
      requires Valid()
      modifies this`users, this`nextUserId
      ensures Valid()
      ensures stored.Some? <==> outcome.Ok? && !Clashes(old(users), u)
      ensures stored.Some? ==> && stored.value == u.(id := old(nextUserId))
                               && users == old(users) + [stored.value]
                               && nextUserId == old(nextUserId) + 1
      ensures stored.None? ==> users == old(users) && nextUserId == old(nextUserId)
    {
      if outcome.Err? || Clashes(users, u) {
        return None;
      }
      var row := u.(id := nextUserId);
      KeysAppend(users, UserKey, nextUserId, row);
      users := users + [row];
      nextUserId := nextUserId + 1;
      stored := Some(row);
    }

    /** `db.Create(&item)`. */
    method InsertItem(it: Item, outcome: Outcome) returns (stored: Option<Item>)
      requires Valid()
      modifies this`items, this`nextItemId
      ensures Valid()
      ensures stored.Some? <==> outcome.Ok?
      ensures stored.Some? ==> && stored.value == it.(id := old(nextItemId))
                               && items == old(items) + [stored.value]
                               && nextItemId == old(nextItemId) + 1
      ensures stored.None? ==> items == old(items) && nextItemId == old(nextItemId)
    {
      if outcome.Err? {
        return None;
      }
      var row := it.(id := nextItemId);
      KeysAppend(items, ItemKey, nextItemId, row);
      items := items + [row];
      nextItemId := nextItemId + 1;
      stored := Some(row);
    }

    /** `db.Save(&item)` of a row read from the table: the row with that key is overwritten. */
    method SaveItem(it: Item, outcome: Outcome) returns (ok: bool)
      requires Valid() && IndexWhere(items, HasItemId(it.id)).Some?
      modifies this`items
      ensures Valid()
      ensures ok <==> outcome.Ok?
      ensures items == if ok then old(items)[IndexWhere(old(items), HasItemId(it.id)).value := it] else old(items)
    {
      if outcome.Err? {
        return false;
      }
      var k := IndexWhere(items, HasItemId(it.id)).value;
      items := items[k := it];
      ok := true;
    }

    /** `db.Delete(&item)` of a row read from the table: the row with that key is removed. */
    method DeleteItemRow(id: nat, outcome: Outcome) returns (ok: bool)
      requires Valid() && IndexWhere(items, HasItemId(id)).Some?
      modifies this`items
      ensures Valid()
      ensures ok <==> outcome.Ok?
      ensures items == if ok then
                         var k := IndexWhere(old(items), HasItemId(id)).value;
                         old(items)[..k] + old(items)[k + 1..]
                       else old(items)
    {
      if outcome.Err? {
        return false;
      }
      var k := IndexWhere(items, HasItemId(id)).value;
      KeysRemove(items, ItemKey, nextItemId, k);
      items := items[..k] + items[k + 1..];
      ok := true;
    }

    /** `db.Create(&post)`. */
    method InsertPost(p: Post, outcome: Outcome) returns (stored: Option<Post>)
      requires Valid()
      modifies this`posts, this`nextPostId
      ensures Valid()
      ensures stored.Some? <==> outcome.Ok?
      ensures stored.Some? ==> && stored.value == p.(id := old(nextPostId))
                               && posts == old(posts) + [stored.value]
                               && nextPostId == old(nextPostId) + 1
      ensures stored.None? ==> posts == old(posts) && nextPostId == old(nextPostId)
    {
      if outcome.Err? {
        return None;
      }
      var row := p.(id := nextPostId);
      KeysAppend(posts, PostKey, nextPostId, row);
      posts := posts + [row];
      nextPostId := nextPostId + 1;
      stored := Some(row);
    }
  }
}
