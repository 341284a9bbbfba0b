/**
 * The request handling of src/urlshortener/app.py: one reserved admin
 * path with a password-gated form, and every other path a short-code
 * redirect.
 */
module App {
  import opened Wrappers
  import Db
  import Auth

  const ADMIN_PATH: string := "/urlshorteneradmin"
  const PLACEHOLDER: string := "{{url_rows}}"
  const FALLBACK_PAGE: string := "<h1>Admin Panel</h1><p>Template not found</p>"

  /** Form fields as `parse_qs` yields them: every present field has at least one value. */
  type Form = f: map<string, seq<string>> | forall name :: name in f ==> f[name] != []

  /** The POST body: parsed fields, or the message of the exception reading them raised. */
  datatype FormInput = Parsed(fields: Form) | Unreadable(error: string)

  /** `PATH_INFO` and `REQUEST_METHOD` (possibly absent) and the request body. */
  datatype Request = Request(path: Option<string>, requestMethod: Option<string>, body: FormInput)

  /** The markup `get_admin_html` emits for one mapping, kept abstract. */
  datatype RowFragment = RowFragment(mapping: Db.Mapping)

  /** The rendered admin page: template characters, and the row list where the placeholder stood. */
  datatype Chunk = Char(c: char) | UrlRows(rows: seq<RowFragment>)

  datatype Body = Text(text: string) | Html(chunks: seq<Chunk>)

  /** Status line, headers and body handed to `start_response` and returned. */
  datatype Response = Response(status: string, headers: seq<(string, string)>, body: Body)

  function PathOf(req: Request): string { req.path.GetOr("/") }

  function MethodOf(req: Request): string { req.requestMethod.GetOr("GET") }

  /** `params.get(name, [''])[0]` */
  function First(f: Form, name: string): (v: string)
    ensures name !in f ==> v == ""
    ensures name in f ==> v == f[name][0]
  {
    if name in f then f[name][0] else ""
  }

  /** `path.lstrip('/')`: the longest suffix of `path` not starting with '/'. */
  function StripLeadingSlashes(path: string): (code: string)
    ensures |code| <= |path| && code == path[|path| - |code|..]
    ensures forall i :: 0 <= i < |path| - |code| ==> path[i] == '/'
    ensures code == [] || code[0] != '/'
  {
    if path != [] && path[0] == '/' then StripLeadingSlashes(path[1..]) else path
  }

  // ---------------------------------------------------------------------
  // Responses

  function PlainText(status: string, text: string): Response
  {
    Response(status, [("Content-Type", "text/plain")], Text(text))
  }

  function Found(longUrl: string): Response
  {
    Response("302 Found", [("Location", longUrl)], Text(""))
  }

  const SEE_OTHER: Response := Response("303 See Other", [("Location", ADMIN_PATH)], Text(""))
  const UNAUTHORIZED: Response := PlainText("401 Unauthorized", "Invalid password")
  const METHOD_NOT_ALLOWED: Response := PlainText("405 Method Not Allowed", "Method Not Allowed")

  function ServerError(error: string): Response
  {
    PlainText("500 Internal Server Error", "Error: " + error)
  }

  function AdminPage(html: seq<Chunk>): Response
  {
    Response("200 OK", [("Content-Type", "text/html; charset=utf-8")], Html(html))
  }

  // ---------------------------------------------------------------------
  // Redirect flow

  /** What `handle_redirect` answers for `path` against table contents `t`. */
  function RedirectOutcome(t: Db.Table, path: string): (r: Response)
    ensures r.status in {"302 Found", "404 Not Found"} && r.body.Text?
  {
    var code := StripLeadingSlashes(path);
    if code == "" then PlainText("404 Not Found", "Not Found")
    else
      match Db.Lookup(t, code)
      case Some(longUrl) => if longUrl != "" then Found(longUrl) else PlainText("404 Not Found", "Short URL not found")
      case None => PlainText("404 Not Found", "Short URL not found")
  }

  /**
   * A redirect answers 302 exactly when the stripped code names a row with a
   * non-empty URL, with that URL as `Location` and an empty body; otherwise 404,
   * `Not Found` for the empty code and `Short URL not found` for any other.
   */
  lemma RedirectStatus(t: Db.Table, path: string)
    ensures var r, code := RedirectOutcome(t, path), StripLeadingSlashes(path);
      && (r.status == "302 Found" <==> code != "" && code in t && t[code].longUrl != "")
      && (r.status == "302 Found" ==> r.headers == [("Location", t[code].longUrl)] && r.body == Text(""))
      && (r.status != "302 Found" ==> r.status == "404 Not Found" && r.headers == [("Content-Type", "text/plain")])
      && (r.status != "302 Found" ==> r.body == Text(if code == "" then "Not Found" else "Short URL not found"))
  {
  }

  /** A path that strips to nothing is answered without consulting the table. */
  lemma RootIgnoresStore(t1: Db.Table, t2: Db.Table, path: string)
    requires StripLeadingSlashes(path) == ""
    ensures RedirectOutcome(t1, path) == RedirectOutcome(t2, path) == PlainText("404 Not Found", "Not Found")
  {
  }

  /** One leading slash in front of a code that does not start with '/' strips back to the code. */
  lemma StripOneSlash(code: string)
    requires code == [] || code[0] != '/'
    ensures StripLeadingSlashes("/" + code) == code
  {
    var p := "/" + code;
    var r := StripLeadingSlashes(p);
    if |r| < |code| {
      assert p[1] == code[0];
    }
    assert |r| != |p|;
  }

  /** A code that starts with '/' is never the code a path strips to: no request reaches it. */
  lemma SlashCodeUnreachable(code: string, path: string)
    requires code != [] && code[0] == '/'
    ensures StripLeadingSlashes(path) != code
  {
  }

  /** `/urlshorteneradmin/` is not the admin path; it asks for the code `urlshorteneradmin/`. */
  lemma TrailingSlashIsARedirect()
    ensures "/urlshorteneradmin/" != ADMIN_PATH
    ensures StripLeadingSlashes("/urlshorteneradmin/") == "urlshorteneradmin/"
  {
    StripOneSlash("urlshorteneradmin/");
  }

  // ---------------------------------------------------------------------
  // Admin POST

  /** The store effect an admin form asks for. */
  datatype Action = Reject | Add(shortCode: string, longUrl: string) | Delete(shortCode: string) | Ignore

  /** The decisions of `handle_admin_post` on parsed fields. */
  function PlanPost(f: Form): (a: Action)
    ensures a.Reject? <==> !Auth.CheckPassword(First(f, "password"))
    ensures a.Add? ==> First(f, "action") == "add" && a.shortCode == First(f, "short_code") != "" && a.longUrl == First(f, "long_url") != ""
    ensures a.Delete? ==> First(f, "action") == "delete" && a.shortCode == First(f, "short_code") != ""
    ensures (Auth.CheckPassword(First(f, "password")) && First(f, "action") == "add"
             && First(f, "short_code") != "" && First(f, "long_url") != "") ==> a.Add?
    ensures (Auth.CheckPassword(First(f, "password")) && First(f, "action") == "delete"
             && First(f, "short_code") != "") ==> a.Delete?
  {
    if !Auth.CheckPassword(First(f, "password")) then Reject
    else if First(f, "action") == "add" then
      if First(f, "short_code") != "" && First(f, "long_url") != "" then Add(First(f, "short_code"), First(f, "long_url"))
      else Ignore
    else if First(f, "action") == "delete" then
      if First(f, "short_code") != "" then Delete(First(f, "short_code")) else Ignore
    else Ignore
  }

  /** The response to an admin POST; the result of the store call plays no part. */
  function PostResponse(input: FormInput): (r: Response)
    ensures r.status == "500 Internal Server Error" <==> input.Unreadable?
    ensures r.status in {"500 Internal Server Error", "401 Unauthorized", "303 See Other"}
  {
    match input
    case Unreadable(error) => ServerError(error)
    case Parsed(f) => if PlanPost(f).Reject? then UNAUTHORIZED else SEE_OTHER
  }

  /** The table after an admin POST, `fail` being a storage error in the one write. */
  function PostEffect(t: Db.Table, input: FormInput, now: nat, fail: bool): (t': Db.Table)
    ensures t' != t ==> input.Parsed? && !fail && Auth.CheckPassword(First(input.fields, "password"))
    ensures input.Parsed? ==> forall c :: c in t && c != First(input.fields, "short_code") ==> c in t' && t'[c] == t[c]
    ensures input.Parsed? ==> forall c :: c in t' && c != First(input.fields, "short_code") ==> c in t
  {
    match input
    case Unreadable(_) => t
    case Parsed(f) =>
      match PlanPost(f)
      case Add(c, u) => if fail then t else Db.Execute(t, Db.InsertOrReplace(c, u, now))
      case Delete(c) => if fail then t else Db.Execute(t, Db.DeleteWhere(c))
      case _ => t
  }

  /** Wrong password: 401 and the table untouched, whatever the other fields say. */
  lemma PasswordGate(t: Db.Table, f: Form, now: nat, fail: bool)
    ensures PostResponse(Parsed(f)).status == "401 Unauthorized" <==> !Auth.CheckPassword(First(f, "password"))
    ensures !Auth.CheckPassword(First(f, "password")) ==> PostEffect(t, Parsed(f), now, fail) == t
  {
  }

  /** Every authenticated POST ends in 303 back to the admin page. */
  lemma AuthorizedPostRedirects(f: Form)
    requires Auth.CheckPassword(First(f, "password"))
    ensures PostResponse(Parsed(f)) == SEE_OTHER
  {
  }

  /** `action=add` saves exactly when both fields are non-empty. */
  lemma AddRule(t: Db.Table, f: Form, now: nat)
    requires Auth.CheckPassword(First(f, "password")) && First(f, "action") == "add"
    ensures var c, u := First(f, "short_code"), First(f, "long_url");
      PostEffect(t, Parsed(f), now, false) == if c != "" && u != "" then t[c := Db.Row(u, now)] else t
  {
  }

  /** `action=delete` deletes exactly when the code is non-empty. */
  lemma DeleteRule(t: Db.Table, f: Form, now: nat)
    requires Auth.CheckPassword(First(f, "password")) && First(f, "action") == "delete"
    ensures var c := First(f, "short_code");
      PostEffect(t, Parsed(f), now, false) == if c != "" then t - {c} else t
  {
  }

  /** Any other action, and any failed write, leaves the table as it was. */
  lemma InertPosts(t: Db.Table, input: FormInput, now: nat)
    ensures PostEffect(t, input, now, true) == t
    ensures input.Parsed? && First(input.fields, "action") !in {"add", "delete"} ==> PostEffect(t, input, now, false) == t
  {
  }

  /** No POST ever stores the empty code. */
  lemma NoEmptyCodeStored(t: Db.Table, input: FormInput, now: nat, fail: bool)
    requires "" !in t
    ensures "" !in PostEffect(t, input, now, fail)
  {
  }

  /** Requesting `/c` for a stored code `c` redirects to its URL. */
  lemma FollowStored(t: Db.Table, c: string)
    requires c in t && t[c].longUrl != "" && c != "" && c[0] != '/'
    ensures RedirectOutcome(t, "/" + c) == Found(t[c].longUrl)
  {
    StripOneSlash(c);
  }

  /** Requesting `/c` for a code `c` not in the table answers 404. */
  lemma FollowMissing(t: Db.Table, c: string)
    requires c !in t && c != "" && c[0] != '/'
    ensures RedirectOutcome(t, "/" + c) == PlainText("404 Not Found", "Short URL not found")
  {
    StripOneSlash(c);
  }

  /** Adding `c` -> `u` as admin, then requesting `/c`, redirects to `u`. */
  lemma AddThenFollow(t: Db.Table, f: Form, now: nat, c: string, u: string)
    requires Auth.CheckPassword(First(f, "password")) && First(f, "action") == "add"
    requires First(f, "short_code") == c && First(f, "long_url") == u
    requires c != "" && u != "" && c[0] != '/'
    ensures PostResponse(Parsed(f)) == SEE_OTHER
    ensures RedirectOutcome(PostEffect(t, Parsed(f), now, false), "/" + c) == Found(u)
  {
    AddRule(t, f, now);
    FollowStored(t[c := Db.Row(u, now)], c);
  }

  /** Deleting `c` as admin, then requesting `/c`, answers 404. */
  lemma DeleteThenFollow(t: Db.Table, f: Form, now: nat, c: string)
    requires Auth.CheckPassword(First(f, "password")) && First(f, "action") == "delete"
    requires First(f, "short_code") == c && c != "" && c[0] != '/'
    ensures PostResponse(Parsed(f)) == SEE_OTHER
    ensures RedirectOutcome(PostEffect(t, Parsed(f), now, false), "/" + c) == PlainText("404 Not Found", "Short URL not found")
  {
    DeleteRule(t, f, now);
    FollowMissing(t - {c}, c);
  }

  // ---------------------------------------------------------------------
  // Admin page

  /** Template text copied through unchanged. */
  function Literal(s: string): (html: seq<Chunk>)
    ensures |html| == |s|
    ensures forall i :: 0 <= i < |s| ==> html[i] == Char(s[i])
  {
    if s == [] then [] else [Char(s[0])] + Literal(s[1..])
  }

  /** `template.replace('{{url_rows}}', url_rows)`: left to right, non-overlapping. */
  function Substitute(template: string, rows: seq<RowFragment>): (html: seq<Chunk>)
    ensures |html| <= |template|
    ensures html == [] <==> template == []
    ensures forall i :: 0 <= i < |html| && html[i].UrlRows? ==> html[i].rows == rows
    decreases |template|
  {
    if template == [] then []
    else if PLACEHOLDER <= template then [UrlRows(rows)] + Substitute(template[|PLACEHOLDER|..], rows)
    else [Char(template[0])] + Substitute(template[1..], rows)
  }

  /** Puts the placeholder back wherever the rows were inserted. */
  function Restore(html: seq<Chunk>): string
  {
    if html == [] then ""
    else
      (match html[0]
       case Char(c) => [c]
       case UrlRows(_) => PLACEHOLDER) + Restore(html[1..])
  }

  /** The page starts with the placeholder spelled out as plain template text. */
  ghost predicate SpellsPlaceholder(html: seq<Chunk>)
  {
    |PLACEHOLDER| <= |html| && html[..|PLACEHOLDER|] == Literal(PLACEHOLDER)
  }

  /** Substitution loses no template text: restoring the placeholder gives the template back. */
  lemma {:induction false} RestoreSubstitute(template: string, rows: seq<RowFragment>)
    ensures Restore(Substitute(template, rows)) == template
    decreases |template|
  {
    if template != [] {
      var html := Substitute(template, rows);
      if PLACEHOLDER <= template {
        var rest := template[|PLACEHOLDER|..];
        RestoreSubstitute(rest, rows);
        assert html[1..] == Substitute(rest, rows);
        assert template == PLACEHOLDER + rest;
      } else {
        RestoreSubstitute(template[1..], rows);
        assert html[1..] == Substitute(template[1..], rows);
        assert template == [template[0]] + template[1..];
      }
    }
  }

  /** Plain text at the head of the page is the text at the head of the template. */
  lemma {:induction false} LiteralPrefix(template: string, rows: seq<RowFragment>, s: string)
    requires |s| <= |Substitute(template, rows)| && Substitute(template, rows)[..|s|] == Literal(s)
    ensures s <= template
    decreases |s|
  {
    if s != [] {
      var html := Substitute(template, rows);
      assert html[0] == Char(s[0]);
      assert template != [] && !(PLACEHOLDER <= template);
      assert html[1..] == Substitute(template[1..], rows);
      assert Literal(s)[1..] == Literal(s[1..]);
      assert Substitute(template[1..], rows)[..|s[1..]|] == html[1..|s|];
      LiteralPrefix(template[1..], rows, s[1..]);
    }
  }

  /** Every occurrence is replaced: the placeholder is nowhere left as plain text. */
  lemma {:induction false} PlaceholderNotLeft(template: string, rows: seq<RowFragment>, i: nat)
    requires i <= |Substitute(template, rows)|
    ensures !SpellsPlaceholder(Substitute(template, rows)[i..])
    decreases |template|
  {
    var html := Substitute(template, rows);
    if template != [] {
      var rest := if PLACEHOLDER <= template then template[|PLACEHOLDER|..] else template[1..];
      assert html[1..] == Substitute(rest, rows);
      if i == 0 {
        if SpellsPlaceholder(html) {
          assert html[0] == Char(PLACEHOLDER[0]);
          LiteralPrefix(template, rows, PLACEHOLDER);
          assert false;
        }
      } else {
        PlaceholderNotLeft(rest, rows, i - 1);
        assert html[i..] == Substitute(rest, rows)[i - 1..];
      }
    }
  }

  /** A template without the placeholder is served as it is. */
  lemma {:induction false} NoPlaceholderVerbatim(template: string, rows: seq<RowFragment>)
    requires forall i :: 0 <= i <= |template| ==> !(PLACEHOLDER <= template[i..])
    ensures Substitute(template, rows) == Literal(template)
    decreases |template|
  {
    if template != [] {
      assert template[0..] == template;
      forall i | 0 <= i <= |template[1..]|
        ensures !(PLACEHOLDER <= template[1..][i..])
      {
        assert template[1..][i..] == template[i + 1..];
      }
      NoPlaceholderVerbatim(template[1..], rows);
    }
  }

  /** `rows` holds one fragment per listed mapping, in listing order. */
  ghost predicate RendersRows(urls: seq<Db.Mapping>, rows: seq<RowFragment>)
  {
    |rows| == |urls| && forall i :: 0 <= i < |urls| ==> rows[i] == RowFragment(urls[i])
  }

  /** What `get_admin_html` may return for table `t`. */
  ghost predicate AdminView(t: Db.Table, template: Option<string>, html: seq<Chunk>)
  {
    match template
    case None => html == Literal(FALLBACK_PAGE)
    case Some(text) =>
      exists urls, rows :: Db.Listing(t, urls) && RendersRows(urls, rows) && html == Substitute(text, rows)
  }

  /** The listing on the admin page has exactly one row per stored mapping. */
  lemma OneRowPerMapping(t: Db.Table, urls: seq<Db.Mapping>, rows: seq<RowFragment>)
    requires Db.Listing(t, urls) && RendersRows(urls, rows)
    ensures |rows| == |t|
    ensures forall c :: c in t ==> exists i :: 0 <= i < |rows| && rows[i].mapping.shortCode == c
  {
    Db.ListingCount(t, urls);
    forall c | c in t
      ensures exists i :: 0 <= i < |rows| && rows[i].mapping.shortCode == c
    {
      var i :| 0 <= i < |urls| && urls[i].shortCode == c;
      assert rows[i].mapping.shortCode == c;
    }
  }

  /** The `url_rows +=` loop of `get_admin_html`. */
  method BuildUrlRows(urls: seq<Db.Mapping>) returns (rows: seq<RowFragment>)
    ensures RendersRows(urls, rows)
  {
    rows := [];
    for i := 0 to |urls|
      invariant |rows| == i
      invariant forall j :: 0 <= j < i ==> rows[j] == RowFragment(urls[j])
    {
      rows := rows + [RowFragment(urls[i])];
    }
  }

  /** `get_admin_html`; `template` is the template file's text, `None` when it is missing. */
  method GetAdminHtml(db: Db.Database, template: Option<string>) returns (html: seq<Chunk>)
    requires db.Valid() && db.initialized
    ensures AdminView(db.table, template, html)
  {
    var urls := db.GetAllUrls();
    if template.None? {
      return Literal(FALLBACK_PAGE);
    }
    var rows := BuildUrlRows(urls);
    html := Substitute(template.value, rows);
  }

  // ---------------------------------------------------------------------
  // Handlers

  /** `handle_redirect` */
  method HandleRedirect(db: Db.Database, path: string) returns (resp: Response)
    requires db.Valid() && (db.initialized || StripLeadingSlashes(path) == "")
    ensures resp == RedirectOutcome(db.table, path)
  {
    var shortCode := StripLeadingSlashes(path);
    if shortCode == "" {
      return PlainText("404 Not Found", "Not Found");
    }
    var longUrl := db.GetLongUrl(shortCode);
    if longUrl.Some? && longUrl.value != "" {
      resp := Found(longUrl.value);
    } else {
      resp := PlainText("404 Not Found", "Short URL not found");
    }
  }

  /**
   * `handle_admin_post`; `now` is the clock reading, `fail` a storage error in
   * the write. Without the `urls` table the write fails like any storage error.
   */
  method HandleAdminPost(db: Db.Database, input: FormInput, now: nat, fail: bool) returns (resp: Response)
    requires db.Valid()
    modifies db`table
    ensures db.Valid()
    ensures resp == PostResponse(input)
    ensures db.table == PostEffect(old(db.table), input, now, fail || !db.initialized)
    ensures "" !in old(db.table) ==> "" !in db.table
  {
    if "" !in db.table {
      NoEmptyCodeStored(db.table, input, now, fail || !db.initialized);
    }
    if input.Unreadable? {
      return ServerError(input.error);
    }
    var params := input.fields;
    var password := First(params, "password");
    var action := First(params, "action");
    if !Auth.CheckPassword(password) {
      return UNAUTHORIZED;
    }
    if action == "add" {
      var shortCode := First(params, "short_code");
      var longUrl := First(params, "long_url");
      if shortCode != "" && longUrl != "" {
        var saved := db.SaveUrl(shortCode, longUrl, now, fail);
      }
    } else if action == "delete" {
      var shortCode := First(params, "short_code");
      if shortCode != "" {
        var deleted := db.DeleteUrl(shortCode, fail);
      }
    }
    resp := SEE_OTHER;
  }

  /**
   * What `handle_admin` does for request method `verb`, the table going from
   * `t` to `t'`: GET serves the page and changes nothing, POST is the form
   * handler, any other method is 405 and changes nothing.
   */
  ghost predicate AdminOutcome(t: Db.Table, t': Db.Table, verb: string, input: FormInput, now: nat, fail: bool,
                               template: Option<string>, resp: Response)
  {
    if verb == "GET" then
      t' == t && ServesPage(t', template, resp)
    else if verb == "POST" then
      resp == PostResponse(input) && t' == PostEffect(t, input, now, fail)
    else
      t' == t && resp == METHOD_NOT_ALLOWED
  }

  /** `resp` is the 200 admin page for table `t` and `template`. */
  ghost predicate ServesPage(t: Db.Table, template: Option<string>, resp: Response)
  {
    resp.body.Html? && resp == AdminPage(resp.body.chunks) && AdminView(t, template, resp.body.chunks)
  }

  /** The GET branch of `handle_admin`: the page, with the store untouched. */
  method ServeAdminPage(db: Db.Database, template: Option<string>) returns (resp: Response)
    requires db.Valid() && db.initialized
    ensures ServesPage(db.table, template, resp)
  {
    var html := GetAdminHtml(db, template);
    resp := AdminPage(html);
  }

  /** `handle_admin` */
  method HandleAdmin(db: Db.Database, verb: string, input: FormInput, now: nat, fail: bool, template: Option<string>)
    returns (resp: Response)
    requires db.Valid() && (verb == "GET" ==> db.initialized)
    modifies db`table
    ensures db.Valid()
    ensures AdminOutcome(old(db.table), db.table, verb, input, now, fail || !db.initialized, template, resp)
    ensures "" !in old(db.table) ==> "" !in db.table
  {
    if verb == "GET" {
      resp := ServeAdminPage(db, template);
    } else if verb == "POST" {
      resp := HandleAdminPost(db, input, now, fail);
    } else {
      resp := METHOD_NOT_ALLOWED;
    }
  }

  /**
   * `application`: the admin handler for exactly `/urlshorteneradmin`, the
   * redirect handler for every other path. No request stores the empty code.
   * Without the `urls` table, the requests modelled are those that never read
   * it: paths that strip to the empty code, and admin requests other than GET.
   */
  method Application(db: Db.Database, req: Request, now: nat, fail: bool, template: Option<string>)
    returns (resp: Response)
    requires db.Valid()
    requires db.initialized || StripLeadingSlashes(PathOf(req)) == "" || (PathOf(req) == ADMIN_PATH && MethodOf(req) != "GET")
    modifies db`table
    ensures db.Valid()
    ensures PathOf(req) != ADMIN_PATH ==> db.table == old(db.table) && resp == RedirectOutcome(db.table, PathOf(req))
    ensures PathOf(req) == ADMIN_PATH ==>
      AdminOutcome(old(db.table), db.table, MethodOf(req), req.body, now, fail || !db.initialized, template, resp)
    ensures "" !in old(db.table) ==> "" !in db.table
  {
    var path := PathOf(req);
    if path == ADMIN_PATH {
      resp := HandleAdmin(db, MethodOf(req), req.body, now, fail, template);
    } else {
      resp := HandleRedirect(db, path);
    }
  }
}
