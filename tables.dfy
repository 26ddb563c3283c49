/**
  The three tables of the application database (`users`, `list`, `list_item`)
  and the queries the request handlers run against them.

  A table is a sequence of rows in insertion order. A query ending in
  `.first()` is modelled as "the earliest row of the sequence that matches";
  the handlers keep row ids strictly increasing along each sequence, so this is
  also the row with the lowest id. SQL itself leaves the order unspecified
  without ORDER BY: this is the model's assumption about the database.
*/
module Tables {
  import opened Wrappers

  /** A row of `users`; `password` holds the password hash. */
  datatype User = User(id: nat, email: string, password: string, name: string)

  /** A row of `list`: a named collection owned by the user `userId`. */
  datatype List = List(id: nat, userId: nat, name: string)

  /** A row of `list_item`: one piece of external content placed in list `listId`. */
  datatype ListItem = ListItem(
    id: nat,
    listId: nat,
    contentId: int,
    title: string,
    posterPath: string,
    contentType: string)

  // ---------------------------------------------------------------------------
  // Generic query building blocks
  // ---------------------------------------------------------------------------

  /** The index of the earliest element satisfying `p`, if any. */
  function FirstIndex<T>(s: seq<T>, p: T -> bool): (r: Option<nat>)
    ensures r.Some? ==> r.value < |s| && p(s[r.value])
    ensures r.Some? ==> forall j :: 0 <= j < r.value ==> !p(s[j])
    ensures r.None? <==> forall j :: 0 <= j < |s| ==> !p(s[j])
  {
    if |s| == 0 then None
    else if p(s[0]) then Some(0)
    else match FirstIndex(s[1..], p)
      case None => None
      case Some(k) => Some(k + 1)
  }

  /** The elements satisfying `p`, in their original order (a `filter_by(...).all()` without `order_by`). */
  function Filter<T(!new)>(s: seq<T>, p: T -> bool): (r: seq<T>)
    ensures |r| <= |s|
    ensures forall x :: x in r <==> x in s && p(x)
  {
    if |s| == 0 then []
    else (if p(s[0]) then [s[0]] else []) + Filter(s[1..], p)
  }

  /** Filtering distributes over concatenation: rows appended later are listed later. */
  lemma {:induction false} FilterAppend<T(!new)>(s: seq<T>, t: seq<T>, p: T -> bool)
    ensures Filter(s + t, p) == Filter(s, p) + Filter(t, p)
  {
    if |s| == 0 {
      assert s + t == t;
    } else {
      assert (s + t)[1..] == s[1..] + t;
      FilterAppend(s[1..], t, p);
    }
  }

  /** Filtering a sequence none of whose elements satisfy `p` gives nothing. */
  lemma {:induction false} FilterNone<T(!new)>(s: seq<T>, p: T -> bool)
    requires forall j :: 0 <= j < |s| ==> !p(s[j])
    ensures Filter(s, p) == []
  {
    if |s| > 0 {
      FilterNone(s[1..], p);
    }
  }

  // ---------------------------------------------------------------------------
  // Well-formed tables: positive ids below the table's next id, increasing in table order
  // ---------------------------------------------------------------------------

  ghost predicate UsersWellFormed(users: seq<User>, nextId: nat) {
    && (forall i :: 0 <= i < |users| ==> 0 < users[i].id < nextId)
    && (forall i, j :: 0 <= i < j < |users| ==> users[i].id < users[j].id)
    && EmailsUnique(users)
  }

  ghost predicate ListsWellFormed(lists: seq<List>, nextId: nat, nextUserId: nat) {
    && (forall i :: 0 <= i < |lists| ==> 0 < lists[i].id < nextId && lists[i].userId < nextUserId)
    && (forall i, j :: 0 <= i < j < |lists| ==> lists[i].id < lists[j].id)
  }

  ghost predicate ItemsWellFormed(items: seq<ListItem>, nextId: nat) {
    && (forall i :: 0 <= i < |items| ==> 0 < items[i].id < nextId)
    && (forall i, j :: 0 <= i < j < |items| ==> items[i].id < items[j].id)
  }

  /** A user with a fresh id and an unused email keeps `users` well formed. */
  lemma UsersAppend(users: seq<User>, nextId: nat, u: User)
    requires UsersWellFormed(users, nextId)
    requires u.id == nextId > 0
    requires UserWithEmail(users, u.email).None?
    ensures UsersWellFormed(users + [u], nextId + 1)
    ensures UserWithId(users + [u], u.id).Some?
  {
    var s := users + [u];
    assert s[|users|] == u;
    forall i, j | 0 <= i < j < |s| ensures s[i].email != s[j].email {
      if j == |users| {
        assert s[i] == users[i];
      }
    }
  }

  /** Two lists with fresh ids owned by an existing user id keep `list` well formed. */
  lemma ListsAppend(lists: seq<List>, nextId: nat, nextUserId: nat, a: List, b: List)
    requires ListsWellFormed(lists, nextId, nextUserId)
    requires a.id == nextId > 0 && b.id == nextId + 1
    requires a.userId == nextUserId && b.userId == nextUserId
    ensures ListsWellFormed(lists + [a, b], nextId + 2, nextUserId + 1)
  {
  }

  /** Deleting a row keeps `list_item` well formed. */
  lemma ItemsRemoveAt(items: seq<ListItem>, nextId: nat, i: nat)
    requires ItemsWellFormed(items, nextId)
    requires i < |items|
    ensures ItemsWellFormed(items[..i] + items[i + 1..], nextId)
  {
    var s := items[..i] + items[i + 1..];
    assert forall k :: 0 <= k < |s| ==> s[k] == if k < i then items[k] else items[k + 1];
  }

  // ---------------------------------------------------------------------------
  // users
  // ---------------------------------------------------------------------------

  /** `User.query.filter_by(email=email).first()` */
  function UserWithEmail(users: seq<User>, email: string): (r: Option<User>)
    ensures r.Some? <==> exists i :: 0 <= i < |users| && users[i].email == email
    ensures r.Some? ==> r.value.email == email
    ensures r.Some? ==> exists i :: 0 <= i < |users| && users[i] == r.value &&
                                    forall j :: 0 <= j < i ==> users[j].email != email
  {
    match FirstIndex(users, (u: User) => u.email == email)
    case None => None
    case Some(i) => Some(users[i])
  }

  /** `User.query.get(id)`: the row whose primary key is `id`. */
  function UserWithId(users: seq<User>, id: nat): (r: Option<User>)
    ensures r.Some? <==> exists i :: 0 <= i < |users| && users[i].id == id
    ensures r.Some? ==> r.value in users && r.value.id == id
  {
    match FirstIndex(users, (u: User) => u.id == id)
    case None => None
    case Some(i) => Some(users[i])
  }

  /** No two users share an email address (the `unique=True` column constraint). */
  ghost predicate EmailsUnique(users: seq<User>) {
    forall i, j :: 0 <= i < j < |users| ==> users[i].email != users[j].email
  }

  /** Under unique emails the lookup by email finds THE user with that email. */
  lemma UserWithEmailIsOnly(users: seq<User>, email: string, k: nat)
    requires EmailsUnique(users)
    requires k < |users| && users[k].email == email
    ensures UserWithEmail(users, email) == Some(users[k])
  {
    var i :| 0 <= i < |users| && users[i] == UserWithEmail(users, email).value &&
             forall j :: 0 <= j < i ==> users[j].email != email;
    if i < k {
      assert users[i].email != users[k].email;
    }
  }

  // ---------------------------------------------------------------------------
  // list
  // ---------------------------------------------------------------------------

  /** `List.query.filter_by(user_id=uid).first()` */
  function FirstListOwnedBy(lists: seq<List>, uid: nat): (r: Option<List>)
    ensures r.Some? <==> exists i :: 0 <= i < |lists| && lists[i].userId == uid
    ensures r.Some? ==> r.value in lists && r.value.userId == uid
  {
    match FirstIndex(lists, (l: List) => l.userId == uid)
    case None => None
    case Some(i) => Some(lists[i])
  }

  /** `List.query.filter_by(name=name).first()`: the earliest list of that name, whoever owns it. */
  function FirstListNamed(lists: seq<List>, name: string): (r: Option<List>)
    ensures r.Some? <==> exists i :: 0 <= i < |lists| && lists[i].name == name
    ensures r.Some? ==> r.value.name == name
    ensures r.Some? ==> exists i :: 0 <= i < |lists| && lists[i] == r.value &&
                                    forall j :: 0 <= j < i ==> lists[j].name != name
  {
    match FirstIndex(lists, (l: List) => l.name == name)
    case None => None
    case Some(i) => Some(lists[i])
  }

  /**
    The list a handler works on for the user `uid`:
    `List.query.filter_by(user_id=uid).first() and List.query.filter_by(name=name).first()`.
    Python's `and` yields the first operand when it is `None` and the second otherwise,
    so the owner only decides whether there is a result, never which list it is.
  */
  function ResolveList(lists: seq<List>, uid: nat, name: string): (r: Option<List>)
    ensures r.Some? <==> (exists i :: 0 <= i < |lists| && lists[i].userId == uid) &&
                         (exists i :: 0 <= i < |lists| && lists[i].name == name)
    ensures r.Some? ==> r.value.name == name
    ensures r.Some? ==> exists i :: 0 <= i < |lists| && lists[i] == r.value &&
                                    forall j :: 0 <= j < i ==> lists[j].name != name
  {
    if FirstListOwnedBy(lists, uid).Some? then FirstListNamed(lists, name) else None
  }

  /** Every list owned by `uid`, in table order. */
  function ListsOwnedBy(lists: seq<List>, uid: nat): (r: seq<List>)
    ensures forall l :: l in r <==> l in lists && l.userId == uid
  {
    Filter(lists, (l: List) => l.userId == uid)
  }

  /** Appending two lists for a user who owned none leaves that user with exactly those two. */
  lemma NewOwnerLists(lists: seq<List>, uid: nat, watchlist: List, favourites: List)
    requires forall i :: 0 <= i < |lists| ==> lists[i].userId < uid
    requires watchlist.userId == uid && favourites.userId == uid
    ensures ListsOwnedBy(lists + [watchlist, favourites], uid) == [watchlist, favourites]
  {
    var p := (l: List) => l.userId == uid;
    FilterAppend(lists, [watchlist, favourites], p);
    FilterNone(lists, p);
    assert [watchlist, favourites][1..] == [favourites];
  }

  // ---------------------------------------------------------------------------
  // list_item
  // ---------------------------------------------------------------------------

  /** `ListItem.query.filter_by(list_id=lid)`: the items of one list, in table order. */
  function ItemsInList(items: seq<ListItem>, lid: nat): (r: seq<ListItem>)
    ensures forall it :: it in r <==> it in items && it.listId == lid
  {
    Filter(items, (it: ListItem) => it.listId == lid)
  }

  /** Appending a row to the table adds it to the end of its own list and to no other list. */
  lemma ItemsInListAppend(items: seq<ListItem>, item: ListItem, lid: nat)
    ensures ItemsInList(items + [item], lid) ==
            ItemsInList(items, lid) + (if item.listId == lid then [item] else [])
  {
    FilterAppend(items, [item], (it: ListItem) => it.listId == lid);
  }

  /** Deleting row `i` takes it out of its own list and leaves the rest of every list in place. */
  lemma ItemsInListRemoveAt(items: seq<ListItem>, i: nat, lid: nat)
    requires i < |items|
    ensures ItemsInList(items, lid) ==
            ItemsInList(items[..i], lid) + ((if items[i].listId == lid then [items[i]] else []) +
            ItemsInList(items[i + 1..], lid))
    ensures ItemsInList(items[..i] + items[i + 1..], lid) ==
            ItemsInList(items[..i], lid) + ItemsInList(items[i + 1..], lid)
  {
    var p := (it: ListItem) => it.listId == lid;
    var before, row, after := items[..i], [items[i]], items[i + 1..];
    assert items == before + (row + after);
    FilterAppend(before, row + after, p);
    FilterAppend(row, after, p);
    FilterAppend(before, after, p);
    assert Filter(row, p) == if items[i].listId == lid then row else [] by {
      assert row[1..] == [];
    }
  }

  /** Deleting a row of another list leaves list `lid` as it was. */
  lemma ItemsInListRemoveOther(items: seq<ListItem>, i: nat, lid: nat)
    requires i < |items| && items[i].listId != lid
    ensures ItemsInList(items[..i] + items[i + 1..], lid) == ItemsInList(items, lid)
  {
    ItemsInListRemoveAt(items, i, lid);
    var after := ItemsInList(items[i + 1..], lid);
    assert [] + after == after;
  }

  /** `ListItem.query.filter_by(list_id=lid).first()` is truthy. */
  predicate SomeItemInList(items: seq<ListItem>, lid: nat) {
    exists it :: it in items && it.listId == lid
  }

  /** `ListItem.query.filter_by(content_id=cid).first()` is truthy. */
  predicate SomeItemWithContent(items: seq<ListItem>, cid: int) {
    exists it :: it in items && it.contentId == cid
  }

  /** `ListItem.query.filter_by(content_type=ctype).first()` is truthy. */
  predicate SomeItemOfType(items: seq<ListItem>, ctype: string) {
    exists it :: it in items && it.contentType == ctype
  }

  /**
    The "already exists" test of the add handlers, as written: three separate
    queries over the whole table, the first comparing `list_id` with the
    USER's id. None of them is restricted to the list being added to.
  */
  predicate AddRejected(items: seq<ListItem>, uid: nat, cid: int, ctype: string) {
    SomeItemInList(items, uid) && SomeItemWithContent(items, cid) && SomeItemOfType(items, ctype)
  }

  /**
    The delete of the remove handlers:
    `db.session.delete(ListItem.query.filter_by(content_id=cid).first())`.
    The earliest row with that content id goes, whatever list it is in;
    with no such row the delete of `None` fails (`None` here).
  */
  function RemoveFirstWithContent(items: seq<ListItem>, cid: int): (r: Option<seq<ListItem>>)
    ensures r.None? <==> forall j :: 0 <= j < |items| ==> items[j].contentId != cid
    ensures r.Some? ==> exists i :: 0 <= i < |items| && items[i].contentId == cid &&
                                    (forall j :: 0 <= j < i ==> items[j].contentId != cid) &&
                                    r.value == items[..i] + items[i + 1..]
    ensures r.Some? ==> |r.value| == |items| - 1
  {
    match FirstIndex(items, (it: ListItem) => it.contentId == cid)
    case None => None
    case Some(i) => Some(items[..i] + items[i + 1..])
  }
}
