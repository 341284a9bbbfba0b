# urlshortener, modelled in Dafny

A model of the request handling and the mapping store of the `urlshortener` WSGI
application. The application keeps short code → long URL mappings in one SQLite
table, `urls`. Any path other than `/urlshorteneradmin` is a short-code lookup:
the answer is 302 to the stored URL, or 404. The admin path serves an HTML page
listing every mapping (GET). It also takes a password-gated form (POST), which
adds or deletes one mapping and then redirects back with 303.

Modules, one per source file:

- `Auth` (`auth.dfy`): `check_password`.
- `Db` (`db.dfy`):
  - the table, as `Table = map<string, Row>`;
  - the mapping statements;
  - class `Database`, whose `table` field the writes update in place.
  A write goes through `Transaction`, which models `get_connection` on a
  single statement. The statement runs on a pending copy of the table. The copy
  is committed when nothing fails and discarded otherwise. `get_all_urls` is
  specified by the `Listing` predicate: every row exactly once, newest first.
  The `ORDER BY` sort is modelled as a selection loop.
- `App` (`app.dfy`):
  - routing;
  - the redirect handler;
  - the admin GET and POST handlers;
  - the admin page, built as template text with the row list substituted at
    every `{{url_rows}}`.
  The redirect and POST handlers are proved equal to functions of the request
  and the table (`RedirectOutcome`, `PostResponse`/`PostEffect`). The page that
  `GetAdminHtml` returns is proved to satisfy the relation `AdminView`, which
  leaves the order of rows with equal `created_at` open. The lemmas are stated
  about these functions and the relation.
- `Wrappers` (`wrappers.dfy`): `Option`.

Inputs the source takes from its environment are parameters of the model:

- `now: nat` is the value of `CURRENT_TIMESTAMP` for a saved row.
- `fail: bool` is a storage error during a write: on connect, execute or commit.
- `template: Option<string>` is the content of `templates/admin.html`; `None` means the file is missing.
- `FormInput` is the parsed POST body, or, as `Unreadable(message)`, the exception that reading or decoding it raised.

The model follows the code in these places:

- The password check compares plaintext against the literal `admin123`. The `ADMIN_PASSWORD_HASH` that `auth.py` imports is never consulted. `config.py` defines only `DB_PATH`, so that name is missing there; the model takes the import as succeeding.
- Row values go into the page without HTML escaping: the rows are an abstract `RowFragment` of the mapping.
- The store accepts the empty code. Only the POST handler keeps it out (`App.NoEmptyCodeStored`).

`path.lstrip('/')` removes every leading slash. So a code that starts with `/`
can be stored through the admin form but can never be reached by a request
(`App.SlashCodeUnreachable`). `/urlshorteneradmin/` is a lookup of the code
`urlshorteneradmin/`, not the admin page.

## Model

| member | source | states |
|---|---|---|
| Auth.CheckPassword | src/urlshortener/auth.py:7-13 | a password is accepted if and only if it is exactly `admin123` |
| Auth.AcceptedPasswordIsUnique | src/urlshortener/auth.py:13 | two accepted passwords are equal: there is exactly one credential |
| Auth.RejectsEmpty | src/urlshortener/auth.py:13 | the empty password, which a missing form field gives, is rejected |
| Db.Execute | src/urlshortener/db.py:52-66 | `INSERT OR REPLACE` adds the key with the new row; `DELETE` removes the key; every other row is unchanged |
| Db.Lookup | src/urlshortener/db.py:38-44 | the lookup finds a URL exactly when the code is a key, and the URL it finds is that row's |
| Db.SaveThenGet | src/urlshortener/db.py:47-58 | after saving (c, u), looking up c gives u |
| Db.SaveKeepsOthers | src/urlshortener/db.py:52-55 | saving c leaves the lookup of every other code unchanged |
| Db.SaveReplacesRow | src/urlshortener/db.py:29-56 | saving an existing code replaces its row (the primary key): the row count grows only for a new code |
| Db.LastSaveWins | src/urlshortener/db.py:52-55 | two saves of the same code have the effect of the second alone |
| Db.DeleteThenGet | src/urlshortener/db.py:61-69 | after deleting c, its lookup finds nothing, and other codes are untouched |
| Db.DeleteIsIdempotent | src/urlshortener/db.py:61-69 | deleting an absent code changes nothing; deleting twice is the same as deleting once |
| Db.ListingCount | src/urlshortener/db.py:72-78 | a listing has exactly as many entries as the table has rows |
| Db.SavedRowListedFirst | src/urlshortener/db.py:72-78 | a row saved later than every other row heads the listing |
| Db.Database.constructor | src/urlshortener/db.py:12 | a new database file has no schema and no rows |
| Db.Database.InitDb | src/urlshortener/db.py:25-35 | after `init_db` the table exists, and existing rows are kept (`IF NOT EXISTS`) |
| Db.Database.Transaction | src/urlshortener/db.py:9-22 | a statement commits exactly when the table exists and no storage error occurs; otherwise the rollback leaves the table as it was |
| Db.Database.SaveUrl | src/urlshortener/db.py:47-58 | `True` with the row upserted, or `False` with the table unchanged |
| Db.Database.DeleteUrl | src/urlshortener/db.py:61-69 | `True` with the code gone, whether or not it existed, or `False` with the table unchanged |
| Db.Database.GetLongUrl | src/urlshortener/db.py:38-44 | the read finds a URL exactly when the code is a key of the committed table, and the URL is that row's |
| Db.Database.GetAllUrls | src/urlshortener/db.py:72-78 | the result lists every row exactly once, with matching values, in non-increasing `created_at` order |
| Db.Newest | src/urlshortener/db.py:76 | picks a row whose `created_at` is at least every other row's (the `DESC` order's next row) |
| App.First | src/urlshortener/app.py:87-88 | a missing field reads as the empty string, and a present field reads as its first value |
| App.RedirectOutcome | src/urlshortener/app.py:33-53 | a redirect lookup answers only 302 or 404, always with a body of text |
| App.StripLeadingSlashes | src/urlshortener/app.py:36 | the result is the suffix of the path left after removing a prefix made only of `/`, and it does not itself start with `/` |
| App.RedirectStatus | src/urlshortener/app.py:33-53 | 302 with `Location` set to the stored URL and an empty body exactly when the stripped code is non-empty and stored with a non-empty URL; otherwise a plain-text 404 whose body is `Not Found` for the empty code and `Short URL not found` for an absent code or an empty stored URL |
| App.RootIgnoresStore | src/urlshortener/app.py:36-41 | a path of slashes only gives 404 `Not Found` whatever the table holds |
| App.StripOneSlash | src/urlshortener/app.py:36 | `/c` strips to `c` for a code not starting with `/` |
| App.SlashCodeUnreachable | src/urlshortener/app.py:36 | no path strips to a code that starts with `/` |
| App.TrailingSlashIsARedirect | src/urlshortener/app.py:27-30 | `/urlshorteneradmin/` is not the admin path and asks for the code `urlshorteneradmin/` |
| App.PlanPost | src/urlshortener/app.py:87-106 | the form is rejected exactly when the password is wrong; an authorized `action=add` form yields an add exactly when `short_code` and `long_url` are both non-empty, and the add carries them; an authorized `action=delete` form yields a delete exactly when `short_code` is non-empty, and the delete carries it |
| App.PostResponse | src/urlshortener/app.py:78-114 | a POST is answered only 500, 401 or 303, and 500 exactly when the body could not be read |
| App.PostEffect | src/urlshortener/app.py:95-106 | the table changes only for a readable, authorized POST whose write succeeds, and only the row of the form's `short_code` can change |
| App.PasswordGate | src/urlshortener/app.py:87-93 | a POST gets 401 exactly when the password is wrong, and a wrong password leaves the table unchanged |
| App.AuthorizedPostRedirects | src/urlshortener/app.py:108-110 | every POST with the right password is answered 303 to the admin path |
| App.AddRule | src/urlshortener/app.py:96-101 | `action=add` upserts exactly when both `short_code` and `long_url` are non-empty, and otherwise changes nothing |
| App.DeleteRule | src/urlshortener/app.py:103-106 | `action=delete` removes the code exactly when it is non-empty, and otherwise changes nothing |
| App.InertPosts | src/urlshortener/app.py:95-110 | a failed write, or an action other than add or delete, leaves the table unchanged |
| App.NoEmptyCodeStored | src/urlshortener/app.py:96-106 | no POST puts the empty code into a table without it |
| App.FollowStored | src/urlshortener/app.py:44-53 | requesting `/c` for a stored code with a non-empty URL redirects to that URL |
| App.FollowMissing | src/urlshortener/app.py:44-53 | requesting `/c` for an unknown code gives 404 `Short URL not found` |
| App.AddThenFollow | src/urlshortener/app.py:96-110 | after an authorized add of (c, u), requesting `/c` redirects to u |
| App.DeleteThenFollow | src/urlshortener/app.py:103-110 | after an authorized delete of c, requesting `/c` gives 404 |
| App.Substitute | src/urlshortener/app.py:151 | the substituted page has no more chunks than the template has characters, and is empty exactly when the template is; every chunk inserted at a placeholder carries the full row list |
| App.Literal | src/urlshortener/app.py:151 | template text without placeholders is copied character for character |
| App.RestoreSubstitute | src/urlshortener/app.py:151 | substitution loses no template text: putting the placeholder back wherever rows were inserted gives the template |
| App.PlaceholderNotLeft | src/urlshortener/app.py:151 | every occurrence is replaced: no run of template characters in the substituted page, starting at any position, spells `{{url_rows}}` |
| App.NoPlaceholderVerbatim | src/urlshortener/app.py:151 | a template with no occurrence of the placeholder is served unchanged |
| App.OneRowPerMapping | src/urlshortener/app.py:133-149 | the page's row list has one row per stored mapping, and every stored code appears in it |
| App.BuildUrlRows | src/urlshortener/app.py:133-149 | the loop builds one row fragment per listed mapping, in listing order |
| App.GetAdminHtml | src/urlshortener/app.py:117-155 | the page is the fallback text when the template is missing, and otherwise the template with a newest-first listing of the table at every placeholder |
| App.HandleRedirect | src/urlshortener/app.py:33-53 | the response is `RedirectOutcome` of the path against the committed table; a path that strips to the empty code is answered even without the `urls` table |
| App.HandleAdminPost | src/urlshortener/app.py:78-114 | the response is `PostResponse` and the new table is `PostEffect` of the old one; an unreadable body gives 500 `Error: <message>` and no change; without the `urls` table the write fails as a storage error does, and the answer is still 401, 303 or 500; the empty code is never stored |
| App.ServeAdminPage | src/urlshortener/app.py:60-67 | a GET is answered 200 with `text/html; charset=utf-8` and the admin page of the table |
| App.HandleAdmin | src/urlshortener/app.py:56-75 | GET serves the page and changes nothing; POST is the form handler; any other method gives 405 and changes nothing; only GET needs the `urls` table |
| App.Application | src/urlshortener/app.py:8-30 | exactly the path `/urlshorteneradmin` (a missing path is `/`, a missing method is `GET`) goes to the admin handler; every other path is a redirect lookup and changes nothing; without the `urls` table, the root path and admin requests other than GET are still answered |

## Left out

- The WSGI interface (`environ`, `start_response`, body encoding to bytes), the `Content-Length` header and `print` logging: a response is a status, a header list and a body value.
- Reading the request body: `CONTENT_LENGTH` parsing, the byte read, UTF-8 decoding and `parse_qs` become the `FormInput` parameter. A failure in any of them is `Unreadable`.
- Opening and reading the template file: it is the `template` parameter.
- The markup of one table row (escaping, attribute text) is abstract: `RowFragment` carries the mapping it is built from.
- SQLite's `CURRENT_TIMESTAMP` and its text format: `created_at` is a caller-supplied `nat`.
- Reads never fail in the model. Unlike the writes, they have no storage-error flag. In the source, `get_long_url` and `get_all_urls` raise on a missing `urls` table or on a locked or unreadable file, and no request handler catches the error. The members below therefore require the table, and do not model that failure:
- Db.Database.GetLongUrl: requires the `urls` table to exist.
- Db.Database.GetAllUrls: requires the `urls` table to exist.
- App.HandleRedirect: requires the `urls` table for a path that strips to a non-empty code.
- App.GetAdminHtml: requires the `urls` table, because the page lists it first.
- App.ServeAdminPage: requires the `urls` table, as `App.GetAdminHtml` does.
- App.HandleAdmin: requires the `urls` table for GET.
- App.Application: requires the `urls` table for GET of the admin page and for a lookup of a non-empty code.
- App.PlaceholderNotLeft: the page is a list of template characters and row lists, not one string. Once the rows are joined in as text, the placeholder can form anew. For an empty table, `{{{url_rows}}{url_rows}}` becomes `{{url_rows}}`. The lemma promises only that no run of template characters spells the placeholder.
- App.FollowStored, App.AddThenFollow: `path` is `PATH_INFO` as the server decodes it. WSGI servers decode it as ISO-8859-1, but the form fields are decoded as UTF-8. So the round trip from adding a code to requesting it holds only for ASCII codes. A code such as `café` can be added, but a request for `/café` arrives as a different string and gets 404.
- Db.Database.InitDb: does not model a failing `CREATE TABLE`.
- Concurrent requests and connections: each operation is one atomic step on the table.
- `hash_password`, bcrypt, `config.py`, `manage.py` and `dev_server.py` are not part of this model. `check_password` does not use them.
