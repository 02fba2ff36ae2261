/**
 * The application shell: the rule that turns a direct visit to a path into
 * its hash URL, the light/dark theme and its persistence, and the guard and
 * route table that decide which page is shown.
 */
module App {
  import opened Wrappers
  import opened Text

  // ---------------------------------------------------------------------
  // Hash normalisation

  /** A hash counts as present when it is neither empty, `#` nor `#/`. */
  predicate HasHash(hash: string) {
    hash != [] && hash != "#" && hash != "#/"
  }

  /** `HashNormalizer`: the hash to assign, if any. Without a hash, a visit to
    * a path other than `/` moves that path, with its query, into the hash. */
  function HashTarget(hash: string, pathname: string, search: string): (r: Option<string>)
    ensures r.Some? <==> !HasHash(hash) && pathname != [] && pathname != "/"
    ensures r.Some? ==> r.value == "#" + pathname + search
  {
    if !HasHash(hash) && pathname != [] && pathname != "/" then Some("#" + pathname + search) else None
  }

  /** The hash assigned is a present one, so the rule does not fire again,
    * and what follows its `#` is the visited path with its query. */
  lemma HashTargetSettles(hash: string, pathname: string, search: string)
    requires HashTarget(hash, pathname, search).Some?
    ensures HasHash(HashTarget(hash, pathname, search).value)
    ensures HashTarget(hash, pathname, search).value[1..] == pathname + search
    ensures HashTarget(HashTarget(hash, pathname, search).value, pathname, search).None?
  {
    var h := "#" + pathname + search;
    assert h[1] == pathname[0] && |h| == 1 + |pathname| + |search|;
    assert |pathname| == 1 ==> pathname == [pathname[0]];
  }

  // ---------------------------------------------------------------------
  // Theme

  /** `handleToggleTheme`: dark becomes light, anything else becomes dark. */
  function Toggled(theme: string): (r: string)
    ensures r == "light" || r == "dark"
    ensures r == "light" <==> theme == "dark"
    ensures r != theme
  {
    if theme == "dark" then "light" else "dark"
  }

  /** Toggling twice from one of the two themes comes back to it. */
  lemma ToggleTwice(theme: string)
    requires theme == "dark" || theme == "light"
    ensures Toggled(Toggled(theme)) == theme
  {
  }

  /** The theme on start: the stored one, or light when none is stored. */
  function InitialTheme(stored: Option<string>): (r: string)
    ensures r != []
    ensures stored.Some? && stored.value != [] ==> r == stored.value
    ensures stored.None? || stored.value == [] ==> r == "light"
  {
    if stored.Some? && stored.value != [] then stored.value else "light"
  }

  /** The theme state of the application, the `data-theme` attribute of the
    * document and the `theme` entry of local storage. */
  class Theme {
    var theme: string
    var dataTheme: Option<string>
    var stored: Option<string>

    /** Reads the stored theme; nothing is written yet. */
    constructor (stored: Option<string>)
      ensures theme == InitialTheme(stored)
      ensures this.stored == stored && dataTheme == None
    {
      theme := InitialTheme(stored);
      this.stored := stored;
      dataTheme := None;
    }

    /** The effect run on each theme change: the document and the storage
      * take the current theme. */
    method Apply()
      modifies this`dataTheme, this`stored
      ensures dataTheme == Some(theme) && stored == Some(theme)
    {
      dataTheme := Some(theme);
      stored := Some(theme);
    }

    /** The toggle, followed by its effect. */
    method Toggle()
      modifies this
      ensures theme == Toggled(old(theme))
      ensures dataTheme == Some(theme) && stored == Some(theme)
    {
      theme := Toggled(theme);
      Apply();
    }
  }

  /** What was stored is what the next start-up reads back. */
  method Reload(t: Theme) returns (next: Theme)
    requires t.stored == Some(t.theme) && t.theme != []
    ensures next.theme == t.theme
  {
    next := new Theme(t.stored);
  }

  // ---------------------------------------------------------------------
  // Guard and routes

  /** The pages of the application. */
  datatype Page = JournalHome | PostPage(id: string) | AdminLogin | AdminDashboard

  /** What a route shows: the access check in progress, a page, or a redirect. */
  datatype Screen = CheckingAccess | Show(page: Page) | RedirectTo(path: string)

  const LoginPath := "/admin/login"

  /** `ProtectedRoute`: the loader while the sign-in state is loading, whoever
    * the user; then the page for a signed-in user and a redirect to the login
    * page for anyone else. */
  function Guard(loading: bool, signedIn: bool, page: Page): (s: Screen)
    ensures loading <==> s == CheckingAccess
    ensures !loading ==> (s == Show(page) <==> signedIn)
    ensures !loading && !signedIn ==> s == RedirectTo(LoginPath)
  {
    if loading then CheckingAccess
    else if signedIn then Show(page)
    else RedirectTo(LoginPath)
  }

  /** The `:id` of a `/post/:id` path: one non-empty segment. */
  function PostId(path: string): (r: Option<string>)
    ensures r.Some? ==> path == "/post/" + r.value && r.value != [] && '/' !in r.value
  {
    if StartsWith(path, "/post/") && |path| > 6 && '/' !in path[6..] then
      assert path == path[..6] + path[6..];
      Some(path[6..])
    else None
  }

  /** The route table; a path that matches no route shows nothing. */
  function Route(path: string, loading: bool, signedIn: bool): (r: Option<Screen>)
  {
    if path == "/" then Some(Guard(loading, signedIn, JournalHome))
    else if path == LoginPath then Some(Show(AdminLogin))
    else if path == "/admin/dashboard" then Some(Guard(loading, signedIn, AdminDashboard))
    else if PostId(path).Some? then Some(Guard(loading, signedIn, PostPage(PostId(path).value)))
    else None
  }

  /** Without a signed-in user the login page is the only page shown; the
    * redirect leads to it, and it shows whatever the sign-in state. */
  lemma OnlyLoginIsOpen(path: string, loading: bool)
    ensures Route(path, loading, false).Some? && Route(path, loading, false).value.Show? ==>
      path == LoginPath && Route(path, loading, false).value.page == AdminLogin
    ensures Route(path, loading, false).Some? && Route(path, loading, false).value.RedirectTo? ==>
      Route(Route(path, loading, false).value.path, loading, false) == Some(Show(AdminLogin))
  {
  }

  /** A signed-in user, once loading is over, sees a page on every route. */
  lemma SignedInSeesPages(path: string)
    ensures Route(path, false, true).Some? ==> Route(path, false, true).value.Show?
  {
  }

  /** Every id without `/` is the id of its own `/post/` path. */
  lemma PostIdOf(id: string)
    requires id != [] && '/' !in id
    ensures PostId("/post/" + id) == Some(id)
  {
    var path := "/post/" + id;
    assert path[..6] == "/post/" && path[6..] == id;
  }

  /** A signed-in user who has finished loading sees the post of any such id. */
  lemma SignedInSeesPost(id: string)
    requires id != [] && '/' !in id
    ensures Route("/post/" + id, false, true) == Some(Show(PostPage(id)))
  {
    var path := "/post/" + id;
    PostIdOf(id);
    assert path[1] == 'p';
  }
}
