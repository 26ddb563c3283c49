/**
  The request handlers of the web application, as operations on the database
  tables and the login session.

  Each handler returns the response it would send: a redirect (with the flash
  message it shows, if any), a rendered list page, or a server error for an
  exception the handler does not catch. Form rendering for GET requests is
  presentation and is not modelled; the handlers here are the POST branches
  and the plain GET routes.
*/
module Handlers {
  import opened Wrappers
  import opened Tables

  const WATCHLIST := "Watchlist"
  const FAVOURITES := "Favourites"

  /** The pages a handler redirects to or renders. */
  datatype Page = LoginPage | SearchPage | WatchlistPage | FavouritesPage | ChangePasswordPage | EditProfilePage

  /** The flash messages a handler shows. */
  datatype Flash =
    | EmailInUse              // "Email address already in use, please sign in instead."
    | NoAccount               // "We cannot find an account with that email address. ..."
    | PasswordIncorrect       // "Password incorrect, please try again."
    | AlreadyInWatchlist      // "Item already exists in watchlist."
    | AlreadyInFavourites     // "Item already exists in favourites."
    | CurrentPasswordMismatch // "Current password does not match. Please try again."
    | NewPasswordsDiffer      // "Passwords do not match. Please try again."
    | PasswordChanged         // "Password changed successfully."

  /** The uncaught exceptions a handler can raise. */
  datatype Failure =
    | AnonymousUser  // an attribute (`id`, `password`) read on the anonymous `current_user`
    | NoList         // `.id` read on a list query that gave `None`
    | DeleteNone     // `db.session.delete(None)`

  datatype Response =
    | Redirect(flash: Option<Flash>, to: Page)
    | Render(page: Page, list: List, items: seq<ListItem>)
    | ServerError(cause: Failure)

  /**
    The application state: the three tables, the id each table gives its next
    row, and the session slot holding the logged-in user's id.
    `hash` stands for `generate_password_hash`; `check_password_hash(stored, pw)`
    is `stored == hash(pw)`.
  */
  ghost predicate StateWellFormed(users: seq<User>, lists: seq<List>, items: seq<ListItem>, session: Option<nat>,
                                  nextUserId: nat, nextListId: nat, nextItemId: nat) {
    && 0 < nextUserId && 0 < nextListId && 0 < nextItemId
    && UsersWellFormed(users, nextUserId)
    && ListsWellFormed(lists, nextListId, nextUserId)
    && ItemsWellFormed(items, nextItemId)
    && (session.Some? ==> UserWithId(users, session.value).Some?)
  }

  class App {
    const hash: string -> string
    var users: seq<User>
    var lists: seq<List>
    var items: seq<ListItem>
    var session: Option<nat>
    var nextUserId: nat
    var nextListId: nat
    var nextItemId: nat

    /** Ids are positive and increase along each table, emails are unique, the session names a user. */
    ghost predicate Valid()
      reads this
    {
      StateWellFormed(users, lists, items, session, nextUserId, nextListId, nextItemId)
    }

    /** An empty database and nobody logged in. */
    constructor (hash: string -> string)
      ensures Valid()
      ensures this.hash == hash
      ensures users == [] && lists == [] && items == [] && session == None
      ensures nextUserId == 1 && nextListId == 1 && nextItemId == 1
    {
      this.hash := hash;
      users, lists, items := [], [], [];
      session := None;
      nextUserId, nextListId, nextItemId := 1, 1, 1;
    }

    /** `register` (POST): create the account, log it in, create its two lists. */
    method Register(name: string, email: string, password: string) returns (resp: Response)
      requires Valid()
      modifies this`users, this`lists, this`session, this`nextUserId, this`nextListId
      ensures Valid()
      ensures old(UserWithEmail(users, email)).Some? ==>
        && resp == Redirect(Some(EmailInUse), LoginPage)
        && users == old(users) && lists == old(lists) && session == old(session)
        && nextUserId == old(nextUserId) && nextListId == old(nextListId)
      ensures old(UserWithEmail(users, email)).None? ==>
        var uid := old(nextUserId);
        var watchlist := List(old(nextListId), uid, WATCHLIST);
        var favourites := List(old(nextListId) + 1, uid, FAVOURITES);
        && resp == Redirect(None, SearchPage)
        && users == old(users) + [User(uid, email, hash(password), name)]
        && session == Some(uid)
        && lists == old(lists) + [watchlist, favourites]
        && ListsOwnedBy(lists, uid) == [watchlist, favourites]
        && nextUserId == uid + 1 && nextListId == old(nextListId) + 2
    {
      if UserWithEmail(users, email).Some? {
        return Redirect(Some(EmailInUse), LoginPage);
      }
      ghost var before := lists;
      CreateAccount(name, email, password);
      NewOwnerLists(before, session.value, lists[|lists| - 2], lists[|lists| - 1]);
      return Redirect(None, SearchPage);
    }

    /** The fresh-email path of `register`: store the user, log in, create the two lists. */
    method CreateAccount(name: string, email: string, password: string)
      requires Valid()
      requires UserWithEmail(users, email).None?
      modifies this`users, this`lists, this`session, this`nextUserId, this`nextListId
      ensures Valid()
      ensures var uid := old(nextUserId);
        var watchlist := List(old(nextListId), uid, WATCHLIST);
        var favourites := List(old(nextListId) + 1, uid, FAVOURITES);
        && users == old(users) + [User(uid, email, hash(password), name)]
        && session == Some(uid)
        && lists == old(lists) + [watchlist, favourites]
        && nextUserId == uid + 1 && nextListId == old(nextListId) + 2
    {
      var uid := nextUserId;
      var newUser := User(uid, email, hash(password), name);
      var watchlist := List(nextListId, uid, WATCHLIST);
      var favourites := List(nextListId + 1, uid, FAVOURITES);
      UsersAppend(users, uid, newUser);
      ListsAppend(lists, nextListId, uid, watchlist, favourites);
      users := users + [newUser];
      nextUserId := uid + 1;
      // login_user(new_user)
      session := Some(uid);
      lists := lists + [watchlist, favourites];
      nextListId := nextListId + 2;
    }

    /** `login` (POST): only a known email with a matching password sets the session. */
    method Login(email: string, password: string) returns (resp: Response)
      requires Valid()
      modifies this`session
      ensures Valid()
      ensures old(UserWithEmail(users, email)).None? ==>
        resp == Redirect(Some(NoAccount), LoginPage) && session == old(session)
      ensures old(UserWithEmail(users, email)).Some? && old(UserWithEmail(users, email)).value.password != hash(password) ==>
        resp == Redirect(Some(PasswordIncorrect), LoginPage) && session == old(session)
      ensures old(UserWithEmail(users, email)).Some? && old(UserWithEmail(users, email)).value.password == hash(password) ==>
        resp == Redirect(None, SearchPage) && session == Some(old(UserWithEmail(users, email)).value.id)
    {
      var user := UserWithEmail(users, email);
      if user.None? {
        resp := Redirect(Some(NoAccount), LoginPage);
      } else if user.value.password != hash(password) {
        resp := Redirect(Some(PasswordIncorrect), LoginPage);
      } else {
        assert UserWithId(users, user.value.id).Some? by {
          var i :| 0 <= i < |users| && users[i] == user.value;
        }
        session := Some(user.value.id);
        resp := Redirect(None, SearchPage);
      }
    }

    /** `logout`: always clears the session. */
    method Logout() returns (resp: Response)
      requires Valid()
      modifies this`session
      ensures Valid()
      ensures session == None && resp == Redirect(None, SearchPage)
    {
      session := None;
      resp := Redirect(None, SearchPage);
    }

    /** `watchlist`: the items of the resolved "Watchlist", which need not be the user's own. */
    method Watchlist() returns (resp: Response)
      requires Valid()
      ensures session.None? ==> resp == ServerError(AnonymousUser)
      ensures session.Some? && ResolveList(lists, session.value, WATCHLIST).None? ==>
        resp == ServerError(NoList)
      ensures session.Some? && ResolveList(lists, session.value, WATCHLIST).Some? ==>
        var l := ResolveList(lists, session.value, WATCHLIST).value;
        resp == Render(WatchlistPage, l, ItemsInList(items, l.id))
    {
      if session.None? {
        return ServerError(AnonymousUser);
      }
      var userWatchlist := ResolveList(lists, session.value, WATCHLIST);
      if userWatchlist.None? {
        return ServerError(NoList);
      }
      var watchlistItems := ItemsInList(items, userWatchlist.value.id);
      return Render(WatchlistPage, userWatchlist.value, watchlistItems);
    }

    /** `favourites`: the items of the resolved "Favourites", which need not be the user's own. */
    method Favourites() returns (resp: Response)
      requires Valid()
      ensures session.None? ==> resp == ServerError(AnonymousUser)
      ensures session.Some? && ResolveList(lists, session.value, FAVOURITES).None? ==>
        resp == ServerError(NoList)
      ensures session.Some? && ResolveList(lists, session.value, FAVOURITES).Some? ==>
        var l := ResolveList(lists, session.value, FAVOURITES).value;
        resp == Render(FavouritesPage, l, ItemsInList(items, l.id))
    {
      if session.None? {
        return ServerError(AnonymousUser);
      }
      var userFavourites := ResolveList(lists, session.value, FAVOURITES);
      if userFavourites.None? {
        return ServerError(NoList);
      }
      var favouritesItems := ItemsInList(items, userFavourites.value.id);
      return Render(FavouritesPage, userFavourites.value, favouritesItems);
    }

    /** Appends one row to `list_item` under a fresh id. */
    method AppendItem(lid: nat, contentId: int, title: string, posterPath: string, contentType: string)
      returns (item: ListItem)
      requires Valid()
      modifies this`items, this`nextItemId
      ensures Valid()
      ensures item == ListItem(old(nextItemId), lid, contentId, title, posterPath, contentType)
      ensures items == old(items) + [item]
      ensures ItemsInList(items, lid) == ItemsInList(old(items), lid) + [item]
      ensures nextItemId == old(nextItemId) + 1
    {
      item := ListItem(nextItemId, lid, contentId, title, posterPath, contentType);
      ItemsInListAppend(items, item, lid);
      items := items + [item];
      nextItemId := nextItemId + 1;
    }

    /**
      `add_to_watchlist`: reject when the three global tests all hold; otherwise
      append the item to the resolved "Watchlist" and render that list. The list
      is only dereferenced after the duplicate test.
    */
    method AddToWatchlist(contentId: int, title: string, posterPath: string, contentType: string)
      returns (resp: Response)
      requires Valid()
      modifies this`items, this`nextItemId
      ensures Valid()
      ensures old(session).None? ==> resp == ServerError(AnonymousUser) && items == old(items) && nextItemId == old(nextItemId)
      ensures old(session).Some? && AddRejected(old(items), old(session).value, contentId, contentType) ==>
        resp == Redirect(Some(AlreadyInWatchlist), WatchlistPage) && items == old(items) && nextItemId == old(nextItemId)
      ensures old(session).Some? && !AddRejected(old(items), old(session).value, contentId, contentType) &&
              ResolveList(lists, session.value, WATCHLIST).None? ==>
        resp == ServerError(NoList) && items == old(items) && nextItemId == old(nextItemId)
      ensures old(session).Some? && !AddRejected(old(items), old(session).value, contentId, contentType) &&
              ResolveList(lists, session.value, WATCHLIST).Some? ==>
        var l := ResolveList(lists, session.value, WATCHLIST).value;
        var item := ListItem(old(nextItemId), l.id, contentId, title, posterPath, contentType);
        && items == old(items) + [item]
        && ItemsInList(items, l.id) == ItemsInList(old(items), l.id) + [item]
        && nextItemId == old(nextItemId) + 1
        && resp == Render(WatchlistPage, l, ItemsInList(items, l.id))
    {
      if session.None? {
        return ServerError(AnonymousUser);
      }
      var uid := session.value;
      var userWatchlist := ResolveList(lists, uid, WATCHLIST);
      if AddRejected(items, uid, contentId, contentType) {
        return Redirect(Some(AlreadyInWatchlist), WatchlistPage);
      }
      if userWatchlist.None? {
        return ServerError(NoList);
      }
      var newItem := AppendItem(userWatchlist.value.id, contentId, title, posterPath, contentType);
      var watchlistItems := ItemsInList(items, userWatchlist.value.id);
      return Render(WatchlistPage, userWatchlist.value, watchlistItems);
    }

    /**
      `add_to_favourites`: as `add_to_watchlist` with "Favourites", except that
      the resolved list is dereferenced (printed) BEFORE the duplicate test, so
      an unresolved list fails first.
    */
    method AddToFavourites(contentId: int, title: string, posterPath: string, contentType: string)
      returns (resp: Response)
      requires Valid()
      modifies this`items, this`nextItemId
      ensures Valid()
      ensures old(session).None? ==> resp == ServerError(AnonymousUser) && items == old(items) && nextItemId == old(nextItemId)
      ensures old(session).Some? && ResolveList(lists, session.value, FAVOURITES).None? ==>
        resp == ServerError(NoList) && items == old(items) && nextItemId == old(nextItemId)
      ensures old(session).Some? && ResolveList(lists, session.value, FAVOURITES).Some? &&
              AddRejected(old(items), old(session).value, contentId, contentType) ==>
        resp == Redirect(Some(AlreadyInFavourites), FavouritesPage) && items == old(items) && nextItemId == old(nextItemId)
      ensures old(session).Some? && ResolveList(lists, session.value, FAVOURITES).Some? &&
              !AddRejected(old(items), old(session).value, contentId, contentType) ==>
        var l := ResolveList(lists, session.value, FAVOURITES).value;
        var item := ListItem(old(nextItemId), l.id, contentId, title, posterPath, contentType);
        && items == old(items) + [item]
        && ItemsInList(items, l.id) == ItemsInList(old(items), l.id) + [item]
        && nextItemId == old(nextItemId) + 1
        && resp == Render(FavouritesPage, l, ItemsInList(items, l.id))
    {
      if session.None? {
        return ServerError(AnonymousUser);
      }
      var uid := session.value;
      var userFavourites := ResolveList(lists, uid, FAVOURITES);
      if userFavourites.None? {
        return ServerError(NoList);
      }
      if AddRejected(items, uid, contentId, contentType) {
        return Redirect(Some(AlreadyInFavourites), FavouritesPage);
      }
      var newItem := AppendItem(userFavourites.value.id, contentId, title, posterPath, contentType);
      var favouritesItems := ItemsInList(items, userFavourites.value.id);
      return Render(FavouritesPage, userFavourites.value, favouritesItems);
    }

    /** Deletes the earliest row with `contentId`, from whichever list; fails when there is none. */
    method DeleteFirstWithContent(contentId: int) returns (deleted: bool)
      requires Valid()
      modifies this`items
      ensures Valid()
      ensures deleted <==> RemoveFirstWithContent(old(items), contentId).Some?
      ensures deleted ==> items == RemoveFirstWithContent(old(items), contentId).value
      ensures !deleted ==> items == old(items)
    {
      var remaining := RemoveFirstWithContent(items, contentId);
      if remaining.None? {
        return false;
      }
      ghost var i :| 0 <= i < |items| && remaining.value == items[..i] + items[i + 1..];
      ItemsRemoveAt(items, nextItemId, i);
      items := remaining.value;
      return true;
    }

    /** `remove_from_watchlist`: needs no login; deletes the earliest row with that content id. */
    method RemoveFromWatchlist(contentId: int) returns (resp: Response)
      requires Valid()
      modifies this`items
      ensures Valid()
      ensures RemoveFirstWithContent(old(items), contentId).None? ==>
        resp == ServerError(DeleteNone) && items == old(items)
      ensures RemoveFirstWithContent(old(items), contentId).Some? ==>
        resp == Redirect(None, WatchlistPage) && items == RemoveFirstWithContent(old(items), contentId).value
    {
      var deleted := DeleteFirstWithContent(contentId);
      resp := if deleted then Redirect(None, WatchlistPage) else ServerError(DeleteNone);
    }

    /** `remove_from_favourites`: the same delete, redirecting to the favourites page. */
    method RemoveFromFavourites(contentId: int) returns (resp: Response)
      requires Valid()
      modifies this`items
      ensures Valid()
      ensures RemoveFirstWithContent(old(items), contentId).None? ==>
        resp == ServerError(DeleteNone) && items == old(items)
      ensures RemoveFirstWithContent(old(items), contentId).Some? ==>
        resp == Redirect(None, FavouritesPage) && items == RemoveFirstWithContent(old(items), contentId).value
    {
      var deleted := DeleteFirstWithContent(contentId);
      resp := if deleted then Redirect(None, FavouritesPage) else ServerError(DeleteNone);
    }

    /**
      `change_password` (POST). The handler returns right after flashing
      success, so the code that would store the new hash never runs: the method
      modifies nothing, whatever the outcome.
    */
    method ChangePassword(currentPassword: string, newPassword: string, confirmNewPassword: string)
      returns (resp: Response)
      requires Valid()
      ensures session.None? ==> resp == ServerError(AnonymousUser)
      ensures session.Some? && UserWithId(users, session.value).value.password != hash(currentPassword) ==>
        resp == Redirect(Some(CurrentPasswordMismatch), ChangePasswordPage)
      ensures session.Some? && UserWithId(users, session.value).value.password == hash(currentPassword) &&
              newPassword != confirmNewPassword ==>
        resp == Redirect(Some(NewPasswordsDiffer), ChangePasswordPage)
      ensures session.Some? && UserWithId(users, session.value).value.password == hash(currentPassword) &&
              newPassword == confirmNewPassword ==>
        resp == Redirect(Some(PasswordChanged), EditProfilePage)
    {
      if session.None? {
        return ServerError(AnonymousUser);
      }
      var currentUser := UserWithId(users, session.value).value;
      if currentUser.password != hash(currentPassword) {
        return Redirect(Some(CurrentPasswordMismatch), ChangePasswordPage);
      } else if newPassword != confirmNewPassword {
        return Redirect(Some(NewPasswordsDiffer), ChangePasswordPage);
      } else {
        return Redirect(Some(PasswordChanged), EditProfilePage);
      }
    }
  }
}
