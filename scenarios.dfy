/**
  End-to-end request sequences against a fresh application, with the
  responses they are guaranteed to produce. Each follows from the handlers'
  contracts alone.
*/
module Scenarios {
  import opened Wrappers
  import opened Tables
  import opened Handlers

  /** Registering the same email twice: the second attempt is refused and adds no account. */
  method RegisterTwice(hash: string -> string, name: string, email: string, password: string)
    returns (first: Response, second: Response, accounts: nat, ownLists: seq<List>)
    ensures first == Redirect(None, SearchPage)
    ensures second == Redirect(Some(EmailInUse), LoginPage)
    ensures accounts == 1
    ensures ownLists == [List(1, 1, WATCHLIST), List(2, 1, FAVOURITES)]
  {
    var app := new App(hash);
    first := app.Register(name, email, password);
    second := app.Register(name, email, password);
    accounts := |app.users|;
    ownLists := ListsOwnedBy(app.lists, 1);
  }

  /** Login after registering: a wrong password and an unknown email fail, the right password logs in. */
  method LoginAfterRegister(hash: string -> string)
    returns (wrongPassword: Response, unknownEmail: Response, rightPassword: Response, session: Option<nat>)
    requires hash("pw1") != hash("pw2")
    ensures wrongPassword == Redirect(Some(PasswordIncorrect), LoginPage)
    ensures unknownEmail == Redirect(Some(NoAccount), LoginPage)
    ensures rightPassword == Redirect(None, SearchPage)
    ensures session == Some(1)
  {
    var app := OneRegisteredUser(hash);
    var account := User(1, "a@x.com", hash("pw1"), "A");
    UserWithEmailIsOnly(app.users, "a@x.com", 0);
    assert UserWithEmail(app.users, "a@x.com") == Some(account);
    assert account.password != hash("pw2");
    assert UserWithEmail(app.users, "b@x.com").None? by {
      assert app.users[0].email != "b@x.com";
    }
    var loggedOut := app.Logout();
    wrongPassword := app.Login("a@x.com", "pw2");
    unknownEmail := app.Login("b@x.com", "pw1");
    rightPassword := app.Login("a@x.com", "pw1");
    session := app.session;
  }

  /** A fresh application in which user 1 ("A", "a@x.com", "pw1") has just registered. */
  method OneRegisteredUser(hash: string -> string) returns (app: App)
    ensures fresh(app) && app.Valid() && app.hash == hash
    ensures app.users == [User(1, "a@x.com", hash("pw1"), "A")]
    ensures app.lists == [List(1, 1, WATCHLIST), List(2, 1, FAVOURITES)]
    ensures app.items == [] && app.session == Some(1)
    ensures app.nextUserId == 2 && app.nextListId == 3 && app.nextItemId == 1
  {
    app := new App(hash);
    assert UserWithEmail(app.users, "a@x.com").None?;
    var registered := app.Register("A", "a@x.com", "pw1");
    assert app.session == Some(1);
  }

  /** User 1 of `OneRegisteredUser` adds content 42 to the watchlist and views it. */
  method OneWatchlistItem(hash: string -> string) returns (app: App, afterAdd: Response)
    ensures fresh(app) && app.Valid()
    ensures app.lists == [List(1, 1, WATCHLIST), List(2, 1, FAVOURITES)]
    ensures app.items == [ListItem(1, 1, 42, "Title", "/poster.jpg", "movie")] && app.session == Some(1)
    ensures app.nextItemId == 2
    ensures afterAdd == Render(WatchlistPage, List(1, 1, WATCHLIST), app.items)
  {
    app := OneRegisteredUser(hash);
    var watchlist := List(1, 1, WATCHLIST);
    assert ResolveList(app.lists, 1, WATCHLIST) == Some(watchlist) by {
      assert app.lists[0].userId == 1;
      var i :| 0 <= i < |app.lists| && app.lists[i] == ResolveList(app.lists, 1, WATCHLIST).value &&
               forall j :: 0 <= j < i ==> app.lists[j].name != WATCHLIST;
      assert i == 0;
    }
    assert !AddRejected([], 1, 42, "movie");
    var added := app.AddToWatchlist(42, "Title", "/poster.jpg", "movie");
    var item := ListItem(1, 1, 42, "Title", "/poster.jpg", "movie");
    assert app.items == [item];
    ItemsInListAppend([], item, 1);
    assert ItemsInList(app.items, 1) == [item];
    afterAdd := app.Watchlist();
  }

  /** A lone user adds content 42 to the watchlist, sees it listed once, removes it and sees an empty list. */
  method AddViewRemove(hash: string -> string)
    returns (afterAdd: Response, afterRemove: Response)
    ensures afterAdd.Render? && afterAdd.page == WatchlistPage
    ensures |afterAdd.items| == 1 && afterAdd.items[0].contentId == 42
    ensures afterRemove == Render(WatchlistPage, List(1, 1, WATCHLIST), [])
  {
    var app;
    app, afterAdd := OneWatchlistItem(hash);
    assert ResolveList(app.lists, 1, WATCHLIST) == Some(List(1, 1, WATCHLIST)) by {
      assert app.lists[0] == List(1, 1, WATCHLIST);
    }
    assert RemoveFirstWithContent(app.items, 42) == Some([]);
    var removed := app.RemoveFromWatchlist(42);
    assert app.items == [];
    assert ItemsInList([], 1) == [];
    afterRemove := app.Watchlist();
  }
}
