/**
  Where the handlers, as written, do not do what their comments and page
  names say: for each, inputs that show the difference, and the evidently
  intended behaviour with its property proved. The handlers in module
  Handlers stay as written; the corrected members here stand beside them.
*/
module Findings {
  import opened Wrappers
  import opened Tables
  import opened Handlers
  import opened Scenarios

  // ---------------------------------------------------------------------------
  // 1. The list a handler works on ignores its owner
  // ---------------------------------------------------------------------------

  /** Any two users who own some list are given the same list. */
  lemma ResolveListOwnerIrrelevant(lists: seq<List>, u1: nat, u2: nat, name: string)
    requires exists i :: 0 <= i < |lists| && lists[i].userId == u1
    requires exists i :: 0 <= i < |lists| && lists[i].userId == u2
    ensures ResolveList(lists, u1, name) == ResolveList(lists, u2, name)
  {
  }

  /** After two registrations, user 2's "Watchlist" is user 1's. */
  lemma SecondUserGetsFirstUsersList()
    ensures var lists := [List(1, 1, WATCHLIST), List(2, 1, FAVOURITES),
                          List(3, 2, WATCHLIST), List(4, 2, FAVOURITES)];
            ResolveList(lists, 2, WATCHLIST) == Some(List(1, 1, WATCHLIST))
  {
    var lists := [List(1, 1, WATCHLIST), List(2, 1, FAVOURITES),
                  List(3, 2, WATCHLIST), List(4, 2, FAVOURITES)];
    assert lists[2].userId == 2 && lists[0].name == WATCHLIST;
    var i :| 0 <= i < |lists| && lists[i] == ResolveList(lists, 2, WATCHLIST).value &&
             forall j :: 0 <= j < i ==> lists[j].name != WATCHLIST;
    assert i == 0;
  }

  /** The intended resolution: the earliest list with that name owned by that user. */
  function OwnedList(lists: seq<List>, uid: nat, name: string): (r: Option<List>)
    ensures r.Some? <==> exists i :: 0 <= i < |lists| && lists[i].userId == uid && lists[i].name == name
    ensures r.Some? ==> r.value.userId == uid && r.value.name == name
    ensures r.Some? ==> exists i :: 0 <= i < |lists| && lists[i] == r.value &&
                                    forall j :: 0 <= j < i ==> !(lists[j].userId == uid && lists[j].name == name)
  {
    match FirstIndex(lists, (l: List) => l.userId == uid && l.name == name)
    case None => None
    case Some(i) => Some(lists[i])
  }

  /** A user who has just registered is given the two lists created for them. */
  lemma OwnedListAfterRegister(lists: seq<List>, uid: nat, watchlist: List, favourites: List)
    requires forall i :: 0 <= i < |lists| ==> lists[i].userId < uid
    requires watchlist == List(watchlist.id, uid, WATCHLIST)
    requires favourites == List(favourites.id, uid, FAVOURITES)
    ensures OwnedList(lists + [watchlist, favourites], uid, WATCHLIST) == Some(watchlist)
    ensures OwnedList(lists + [watchlist, favourites], uid, FAVOURITES) == Some(favourites)
  {
    var all := lists + [watchlist, favourites];
    assert all[|lists|] == watchlist && all[|lists| + 1] == favourites;
    assert all[|lists|].userId == uid && all[|lists|].name == WATCHLIST;
    assert all[|lists| + 1].userId == uid && all[|lists| + 1].name == FAVOURITES;
    assert forall j :: 0 <= j < |lists| ==> all[j] == lists[j];
    assert WATCHLIST != FAVOURITES by { assert WATCHLIST[0] != FAVOURITES[0]; }
    assert OwnedList(all, uid, WATCHLIST).Some?;
    var w :| 0 <= w < |all| && all[w] == OwnedList(all, uid, WATCHLIST).value &&
             forall j :: 0 <= j < w ==> !(all[j].userId == uid && all[j].name == WATCHLIST);
    assert all[w].userId == uid && all[w].name == WATCHLIST;
    assert w == |lists|;
    assert OwnedList(all, uid, FAVOURITES).Some?;
    var f :| 0 <= f < |all| && all[f] == OwnedList(all, uid, FAVOURITES).value &&
             forall j :: 0 <= j < f ==> !(all[j].userId == uid && all[j].name == FAVOURITES);
    assert all[f].userId == uid && all[f].name == FAVOURITES;
    assert f == |lists| + 1;
  }

  // ---------------------------------------------------------------------------
  // 2. The "already exists" test is not about the target list
  // ---------------------------------------------------------------------------

  /**
    A false "already exists": user 1 adds TV show 42, which is in no list at
    all, but some item is in list 1, some item has id 42 and some item is a TV show.
    `FalseRejectionAfterTwoAdds` reaches a table of this kind with the handlers.
  */
  lemma AddRejectedWithoutDuplicate()
    ensures var items := [ListItem(1, 1, 7, "Seven", "/7.jpg", "tv"),
                          ListItem(2, 2, 42, "Answer", "/42.jpg", "movie")];
            && AddRejected(items, 1, 42, "tv")
            && forall it :: it in items ==> !(it.contentId == 42 && it.contentType == "tv")
  {
    var items := [ListItem(1, 1, 7, "Seven", "/7.jpg", "tv"),
                  ListItem(2, 2, 42, "Answer", "/42.jpg", "movie")];
    assert items[0] in items && items[1] in items;
  }

  /** A lone user's own two lists resolve to themselves. */
  lemma LoneUserLists()
    ensures var lists := [List(1, 1, WATCHLIST), List(2, 1, FAVOURITES)];
            && ResolveList(lists, 1, WATCHLIST) == Some(lists[0])
            && ResolveList(lists, 1, FAVOURITES) == Some(lists[1])
  {
    var lists := [List(1, 1, WATCHLIST), List(2, 1, FAVOURITES)];
    assert lists[0].userId == 1 && lists[0].name == WATCHLIST && lists[1].name == FAVOURITES;
    assert WATCHLIST != FAVOURITES by { assert WATCHLIST[0] != FAVOURITES[0]; }
    var w :| 0 <= w < |lists| && lists[w] == ResolveList(lists, 1, WATCHLIST).value &&
             forall j :: 0 <= j < w ==> lists[j].name != WATCHLIST;
    assert w == 0;
    assert ResolveList(lists, 1, FAVOURITES).Some?;
    var f :| 0 <= f < |lists| && lists[f] == ResolveList(lists, 1, FAVOURITES).value &&
             forall j :: 0 <= j < f ==> lists[j].name != FAVOURITES;
    assert lists[f].name == FAVOURITES;
    assert lists[0].name != FAVOURITES;
    assert f != 0;
    assert f == 1;
  }

  /** User 1, with movie 42 in the watchlist (list 1), adds TV show 7 to favourites (list 2). */
  method AddShowToFavourites(app: App) returns (added: Response)
    requires app.Valid()
    requires app.lists == [List(1, 1, WATCHLIST), List(2, 1, FAVOURITES)] && app.session == Some(1)
    requires app.items == [ListItem(1, 1, 42, "Title", "/poster.jpg", "movie")] && app.nextItemId == 2
    modifies app`items, app`nextItemId
    ensures app.Valid()
    ensures app.items == [ListItem(1, 1, 42, "Title", "/poster.jpg", "movie"), ListItem(2, 2, 7, "Seven", "/7.jpg", "tv")]
    ensures added.Render? && added.page == FavouritesPage
  {
    var movie := ListItem(1, 1, 42, "Title", "/poster.jpg", "movie");
    LoneUserLists();
    assert ResolveList(app.lists, 1, FAVOURITES) == Some(List(2, 1, FAVOURITES));
    assert !AddRejected(app.items, 1, 7, "tv") by {
      assert !SomeItemWithContent(app.items, 7);
    }
    added := app.AddToFavourites(7, "Seven", "/7.jpg", "tv");
    var show := ListItem(2, 2, 7, "Seven", "/7.jpg", "tv");
    assert app.items == [movie] + [show];
  }

  /**
    The false "already exists" reached through the handlers: user 1 puts movie
    42 in the watchlist and TV show 7 in favourites; adding TV show 42 to the
    watchlist is then refused, though no list holds it.
  */
  method FalseRejectionAfterTwoAdds(hash: string -> string) returns (refused: Response, stored: seq<ListItem>)
    ensures refused == Redirect(Some(AlreadyInWatchlist), WatchlistPage)
    ensures stored == [ListItem(1, 1, 42, "Title", "/poster.jpg", "movie"), ListItem(2, 2, 7, "Seven", "/7.jpg", "tv")]
    ensures forall it :: it in stored ==> !(it.contentId == 42 && it.contentType == "tv")
  {
    var app, viewed := OneWatchlistItem(hash);
    var added := AddShowToFavourites(app);
    assert AddRejected(app.items, 1, 42, "tv") by {
      assert app.items[0] in app.items && app.items[1] in app.items;
    }
    refused := app.AddToWatchlist(42, "Answer", "/42.jpg", "tv");
    stored := app.items;
  }

  /** A fresh application in which users 1 ("a@x.com") and 2 ("b@x.com") have registered. */
  method TwoRegisteredUsers(hash: string -> string) returns (app: App)
    ensures fresh(app) && app.Valid()
    ensures app.lists == [List(1, 1, WATCHLIST), List(2, 1, FAVOURITES),
                          List(3, 2, WATCHLIST), List(4, 2, FAVOURITES)]
    ensures app.items == [] && app.session == Some(2) && app.nextItemId == 1
  {
    app := OneRegisteredUser(hash);
    assert UserWithEmail(app.users, "b@x.com").None? by {
      assert app.users[0].email != "b@x.com";
    }
    var second := app.Register("B", "b@x.com", "pw2");
    assert app.session == Some(2);
  }

  /** User 2 adds movie 42 to "their" watchlist while no item is in list 2: it lands in list 1. */
  method User2AddsAnswer(app: App) returns (resp: Response)
    requires app.Valid()
    requires app.lists == [List(1, 1, WATCHLIST), List(2, 1, FAVOURITES),
                           List(3, 2, WATCHLIST), List(4, 2, FAVOURITES)]
    requires app.session == Some(2)
    requires forall it :: it in app.items ==> it.listId == 1
    modifies app`items, app`nextItemId
    ensures app.Valid()
    ensures app.items == old(app.items) + [ListItem(old(app.nextItemId), 1, 42, "Answer", "/42.jpg", "movie")]
    ensures app.nextItemId == old(app.nextItemId) + 1
    ensures resp == Render(WatchlistPage, List(1, 1, WATCHLIST), ItemsInList(app.items, 1))
  {
    SecondUserGetsFirstUsersList();
    assert ResolveList(app.lists, 2, WATCHLIST) == Some(List(1, 1, WATCHLIST));
    assert !AddRejected(app.items, 2, 42, "movie") by {
      assert !SomeItemInList(app.items, 2);
    }
    resp := app.AddToWatchlist(42, "Answer", "/42.jpg", "movie");
  }

  /**
    A missed duplicate: user 2 adds movie 42 twice. Both adds go to user 1's
    watchlist (finding 1), and the second is not rejected because no item has
    `list_id` 2, so that watchlist ends up holding movie 42 twice.
  */
  method DuplicateAcceptedTwice(hash: string -> string) returns (first: Response, second: Response)
    ensures first.Render? && first.list == List(1, 1, WATCHLIST)
    ensures second == Render(WatchlistPage, List(1, 1, WATCHLIST),
                             [ListItem(1, 1, 42, "Answer", "/42.jpg", "movie"),
                              ListItem(2, 1, 42, "Answer", "/42.jpg", "movie")])
  {
    var app := TwoRegisteredUsers(hash);
    first := User2AddsAnswer(app);
    assert app.items == [ListItem(1, 1, 42, "Answer", "/42.jpg", "movie")];
    second := User2AddsAnswerAgain(app);
  }

  /** The second of those adds, made while list 1 holds exactly the first copy. */
  method User2AddsAnswerAgain(app: App) returns (resp: Response)
    requires app.Valid()
    requires app.lists == [List(1, 1, WATCHLIST), List(2, 1, FAVOURITES),
                           List(3, 2, WATCHLIST), List(4, 2, FAVOURITES)]
    requires app.session == Some(2)
    requires app.items == [ListItem(1, 1, 42, "Answer", "/42.jpg", "movie")] && app.nextItemId == 2
    modifies app`items, app`nextItemId
    ensures resp == Render(WatchlistPage, List(1, 1, WATCHLIST),
                           [ListItem(1, 1, 42, "Answer", "/42.jpg", "movie"),
                            ListItem(2, 1, 42, "Answer", "/42.jpg", "movie")])
  {
    var one := app.items[0];
    resp := User2AddsAnswer(app);
    var two := ListItem(2, 1, 42, "Answer", "/42.jpg", "movie");
    assert app.items == [one, two];
    BothInList(one, two, 1);
  }

  /** Two rows of list `lid` are the whole of that list, in table order. */
  lemma BothInList(a: ListItem, b: ListItem, lid: nat)
    requires a.listId == lid && b.listId == lid
    ensures ItemsInList([a, b], lid) == [a, b]
  {
    ItemsInListAppend([], a, lid);
    ItemsInListAppend([a], b, lid);
    assert [a] + [b] == [a, b];
  }

  /** The intended test: the target list already holds that content id and type. */
  predicate AlreadyListed(items: seq<ListItem>, lid: nat, cid: int, ctype: string) {
    exists it :: it in items && it.listId == lid && it.contentId == cid && it.contentType == ctype
  }

  /** The intended invariant: no (list, content id, content type) twice. */
  ghost predicate NoDuplicates(items: seq<ListItem>) {
    forall i, j :: 0 <= i < j < |items| ==>
      !(items[i].listId == items[j].listId && items[i].contentId == items[j].contentId &&
        items[i].contentType == items[j].contentType)
  }

  /** The intended add: append unless the target list already holds the content. */
  function AddOnce(items: seq<ListItem>, item: ListItem): (r: seq<ListItem>)
    ensures AlreadyListed(r, item.listId, item.contentId, item.contentType)
    ensures AlreadyListed(items, item.listId, item.contentId, item.contentType) ==> r == items
    ensures !AlreadyListed(items, item.listId, item.contentId, item.contentType) ==> r == items + [item]
  {
    if AlreadyListed(items, item.listId, item.contentId, item.contentType) then items
    else
      assert item in items + [item];
      items + [item]
  }

  /** Adding the same content to the same list again changes nothing, whatever the new row's id. */
  lemma AddOnceIdempotent(items: seq<ListItem>, item: ListItem, again: ListItem)
    requires again.listId == item.listId && again.contentId == item.contentId
    requires again.contentType == item.contentType
    ensures AddOnce(AddOnce(items, item), again) == AddOnce(items, item)
  {
  }

  /** The intended add keeps every (list, content id, content type) unique. */
  lemma AddOncePreservesNoDuplicates(items: seq<ListItem>, item: ListItem)
    requires NoDuplicates(items)
    ensures NoDuplicates(AddOnce(items, item))
  {
    var r := AddOnce(items, item);
    if r != items {
      forall i, j | 0 <= i < j < |r|
        ensures !(r[i].listId == r[j].listId && r[i].contentId == r[j].contentId &&
                  r[i].contentType == r[j].contentType)
      {
        if j == |items| {
          assert r[i] in items;
        }
      }
    }
  }

  // ---------------------------------------------------------------------------
  // 3. Removal ignores the list it is asked to remove from
  // ---------------------------------------------------------------------------

  /**
    User 1 has movie 42 in both lists (1 = watchlist, 2 = favourites).
    Removing it "from favourites" deletes the watchlist row instead.
  */
  lemma RemoveFromFavouritesHitsWatchlist()
    ensures var items := [ListItem(1, 1, 42, "Answer", "/42.jpg", "movie"),
                          ListItem(2, 2, 42, "Answer", "/42.jpg", "movie")];
            RemoveFirstWithContent(items, 42) == Some([items[1]])
  {
    var items := [ListItem(1, 1, 42, "Answer", "/42.jpg", "movie"),
                  ListItem(2, 2, 42, "Answer", "/42.jpg", "movie")];
    assert items[0].contentId == 42;
    var i :| 0 <= i < |items| && items[i].contentId == 42 &&
             (forall j :: 0 <= j < i ==> items[j].contentId != 42) &&
             RemoveFirstWithContent(items, 42).value == items[..i] + items[i + 1..];
    assert i == 0;
    assert items[..0] + items[1..] == [items[1]];
  }

  /** The intended delete: the earliest row with that content id within list `lid`. */
  function RemoveFromList(items: seq<ListItem>, lid: nat, cid: int): (r: Option<seq<ListItem>>)
    ensures r.None? <==> forall j :: 0 <= j < |items| ==> !(items[j].listId == lid && items[j].contentId == cid)
    ensures r.Some? ==> exists i :: 0 <= i < |items| && items[i].listId == lid && items[i].contentId == cid &&
                                    r.value == items[..i] + items[i + 1..]
  {
    match FirstIndex(items, (it: ListItem) => it.listId == lid && it.contentId == cid)
    case None => None
    case Some(i) => Some(items[..i] + items[i + 1..])
  }

  /** The intended delete leaves every other list exactly as it was. */
  lemma RemoveFromListOtherListsUnchanged(items: seq<ListItem>, lid: nat, cid: int, other: nat)
    requires RemoveFromList(items, lid, cid).Some?
    requires other != lid
    ensures ItemsInList(RemoveFromList(items, lid, cid).value, other) == ItemsInList(items, other)
  {
    var r := RemoveFromList(items, lid, cid).value;
    var i :| 0 <= i < |items| && items[i].listId == lid && items[i].contentId == cid && r == items[..i] + items[i + 1..];
    ItemsInListRemoveOther(items, i, other);
  }

  /** The intended delete takes exactly one row out of list `lid`. */
  lemma RemoveFromListShrinksList(items: seq<ListItem>, lid: nat, cid: int)
    requires RemoveFromList(items, lid, cid).Some?
    ensures |ItemsInList(RemoveFromList(items, lid, cid).value, lid)| == |ItemsInList(items, lid)| - 1
  {
    var r := RemoveFromList(items, lid, cid).value;
    var i :| 0 <= i < |items| && items[i].listId == lid && items[i].contentId == cid && r == items[..i] + items[i + 1..];
    ItemsInListRemoveAt(items, i, lid);
    assert (if items[i].listId == lid then [items[i]] else []) == [items[i]];
  }

  // ---------------------------------------------------------------------------
  // 4. The new password is never stored
  // ---------------------------------------------------------------------------

  /**
    User 1 changes "pw1" to "pw2" and is told it worked; yet afterwards "pw2"
    is refused and "pw1" still logs in.
  */
  method PasswordChangeHasNoEffect(hash: string -> string)
    returns (change: Response, withNew: Response, withOld: Response)
    requires hash("pw1") != hash("pw2")
    ensures change == Redirect(Some(PasswordChanged), EditProfilePage)
    ensures withNew == Redirect(Some(PasswordIncorrect), LoginPage)
    ensures withOld == Redirect(None, SearchPage)
  {
    var app := OneRegisteredUser(hash);
    var account := User(1, "a@x.com", hash("pw1"), "A");
    UserWithEmailIsOnly(app.users, "a@x.com", 0);
    assert UserWithEmail(app.users, "a@x.com") == Some(account);
    assert UserWithId(app.users, 1) == Some(account) by {
      assert app.users[0] == account;
    }
    assert account.password != hash("pw2");
    change := app.ChangePassword("pw1", "pw2", "pw2");
    var loggedOut := app.Logout();
    withNew := app.Login("a@x.com", "pw2");
    withOld := app.Login("a@x.com", "pw1");
  }

  /** The intended update of `change_password`: the row of user `uid` gets password hash `pwHash`. */
  function WithPassword(users: seq<User>, uid: nat, pwHash: string): (r: seq<User>)
    ensures |r| == |users|
    ensures forall i :: 0 <= i < |r| ==>
      r[i] == if users[i].id == uid then users[i].(password := pwHash) else users[i]
  {
    if |users| == 0 then []
    else [if users[0].id == uid then users[0].(password := pwHash) else users[0]]
         + WithPassword(users[1..], uid, pwHash)
  }

  /** Changing a password keeps the table well formed and leaves its user findable by id. */
  lemma WithPasswordWellFormed(users: seq<User>, nextId: nat, uid: nat, pwHash: string)
    requires UsersWellFormed(users, nextId)
    ensures UsersWellFormed(WithPassword(users, uid, pwHash), nextId)
    ensures UserWithId(users, uid).Some? ==> UserWithId(WithPassword(users, uid, pwHash), uid).Some?
  {
    var r := WithPassword(users, uid, pwHash);
    assert forall i :: 0 <= i < |r| ==> r[i].id == users[i].id && r[i].email == users[i].email;
    if UserWithId(users, uid).Some? {
      var i :| 0 <= i < |users| && users[i].id == uid;
      assert r[i].id == uid;
    }
  }

  /** After the intended change, logging in by that user's email finds the row with the new hash. */
  lemma WithPasswordLogsIn(users: seq<User>, nextId: nat, uid: nat, pwHash: string)
    requires UsersWellFormed(users, nextId)
    requires UserWithId(users, uid).Some?
    ensures var u := UserWithId(users, uid).value;
      UserWithEmail(WithPassword(users, uid, pwHash), u.email) == Some(u.(password := pwHash))
  {
    var u := UserWithId(users, uid).value;
    var r := WithPassword(users, uid, pwHash);
    var k :| 0 <= k < |users| && users[k] == u;
    WithPasswordWellFormed(users, nextId, uid, pwHash);
    assert r[k] == u.(password := pwHash);
    UserWithEmailIsOnly(r, u.email, k);
  }

  /**
    The intended `change_password`: on success the logged-in user's row stores
    the new hash, so that the new password logs in.
  */
  method ChangePasswordIntended(app: App, currentPassword: string, newPassword: string, confirmNewPassword: string)
    returns (resp: Response)
    requires app.Valid()
    modifies app`users
    ensures app.Valid()
    ensures old(app.session).None? ==> resp == ServerError(AnonymousUser) && app.users == old(app.users)
    ensures old(app.session).Some? ==>
      var u := UserWithId(old(app.users), old(app.session).value).value;
      && (u.password != app.hash(currentPassword) ==>
            resp == Redirect(Some(CurrentPasswordMismatch), ChangePasswordPage) && app.users == old(app.users))
      && (u.password == app.hash(currentPassword) && newPassword != confirmNewPassword ==>
            resp == Redirect(Some(NewPasswordsDiffer), ChangePasswordPage) && app.users == old(app.users))
      && (u.password == app.hash(currentPassword) && newPassword == confirmNewPassword ==>
            && resp == Redirect(Some(PasswordChanged), EditProfilePage)
            && app.users == WithPassword(old(app.users), u.id, app.hash(newPassword))
            && UserWithEmail(app.users, u.email) == Some(u.(password := app.hash(newPassword))))
  {
    if app.session.None? {
      return ServerError(AnonymousUser);
    }
    var uid := app.session.value;
    var currentUser := UserWithId(app.users, uid).value;
    if currentUser.password != app.hash(currentPassword) {
      return Redirect(Some(CurrentPasswordMismatch), ChangePasswordPage);
    }
    if newPassword != confirmNewPassword {
      return Redirect(Some(NewPasswordsDiffer), ChangePasswordPage);
    }
    StorePassword(app, currentUser, app.hash(newPassword));
    return Redirect(Some(PasswordChanged), EditProfilePage);
  }

  /** `current_user.password = hash; db.session.commit()` for the logged-in user `u`. */
  method StorePassword(app: App, u: User, pwHash: string)
    requires app.Valid() && app.session == Some(u.id) && UserWithId(app.users, u.id) == Some(u)
    modifies app`users
    ensures app.Valid()
    ensures app.users == WithPassword(old(app.users), u.id, pwHash)
    ensures UserWithEmail(app.users, u.email) == Some(u.(password := pwHash))
  {
    var updated := WithPassword(app.users, u.id, pwHash);
    WithPasswordWellFormed(app.users, app.nextUserId, u.id, pwHash);
    WithPasswordLogsIn(app.users, app.nextUserId, u.id, pwHash);
    assert StateWellFormed(updated, app.lists, app.items, app.session, app.nextUserId, app.nextListId, app.nextItemId);
    app.users := updated;
  }
}
