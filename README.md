# Comments, sign-in and page script of the YoungChai blog, in Dafny

This project models the comment system of the YoungChai blog and the
script that runs its pages. The blog is an Eleventy site served by
Cloudflare Pages. Its server functions are:

- `GET /api/comments?post=<slug>` lists the approved comments of one post,
  oldest first.
- `POST /api/comments` validates a submission and sanitises it. It hashes
  the client address, allows at most three comments per address per
  minute, checks that the parent comment exists, and inserts the row,
  approved, into the D1 `comments` table.
- `GET /api/admin/comments` lists every comment, newest first, at most 500.
- `/api/auth` is the GitHub OAuth sign-in of the content editor. It hands
  the access token to the editor window when the `CMS_ALLOWED_USERS`
  allow-list admits the login. An unset or empty allow-list admits every
  login.
- `/api/auth/admin` is the same sign-in for the moderation page. Every
  reply is a 302 redirect. Without a `code` it goes to GitHub's authorize
  page. After the callback it goes to `/admin/comments/`, carrying either
  `error=<message>` or the token.

The page script (`menu.js`) keeps a scroll-lock counter. It opens and
closes the mobile menu and the search overlay, filters and renders the
search results with HTML escaping, and toggles the navigation accordions.

## How the model is built

- **Strings.** Strings are sequences of UTF-16 code units
  (`JsStrings.JsString`).
- **Missing values.** An optional JSON field or environment variable is an
  `Option`, and "falsy" means absent or empty.
- **The database.** A read sees the binding as `CommentsApi.Binding`: no
  binding, a query that throws, or the table's rows.
- **Writes.** A write goes to the table object `CommentStore.CommentsTable`,
  whose INSERT appends a row under the next id.
- **The POST handler.** `CommentsApi.HandlePost` and
  `CommentsApi.StoreComment` are methods that follow the handler step by
  step, including the hash loop of `hashIP` (`CommentHelpers.HashIP`). They
  are proved equal to the pure `CommentsApi.PostEffect`, and the properties
  of the endpoint are proved about `CommentsApi.PostEffect`.
- **GitHub calls.** The two fetches of each sign-in handler are inputs
  (`GitHubOAuth.Fetched`), so a fetch that throws is one more case. The
  random `state` and the request's origin are parameters too.
- **The page.** The page is the class `MenuPage.Page`. Its methods are the
  script's functions, and each one is specified by a function on the value
  `MenuPage.PageView`. `MenuPage.Page.Handle` delivers one browser event
  and keeps the scroll lock balanced.

Where the code and the documented behaviour differ, the model follows the
code:

- The sanitiser escapes `<`, `>`, `"` and `'` but not `&`.
- The presence and length checks run on the raw, untrimmed fields, so a
  name of spaces is accepted and stored as the empty string
  (`CommentsProperties.BlankNameStoredEmpty`).
- The stored name and content can be longer than 100 and 5000 code units
  once escaped (`CommentHelpers.Sanitize` bounds the growth by six per
  code unit).
- The moderation listing checks no credentials.

## Model

| member | source | states |
|---|---|---|
| CommentHelpers.ToInt32 | functions/api/comments.js:11 | `hash & hash` yields the signed 32-bit value congruent to its input modulo 2^32 |
| CommentHelpers.ShiftSubtractIsStep | functions/api/comments.js:10-11 | `((hash << 5) - hash) + char` followed by `& hash` is one step h·31 + c of the rolling hash, wrapped to 32 bits |
| CommentHelpers.Hash | functions/api/comments.js:6-12 | the address hash is always a signed 32-bit integer |
| CommentHelpers.HashOrderMatters | functions/api/comments.js:8-12 | the hash is order-sensitive: two distinct code units hash differently in the two orders |
| CommentHelpers.HexString | functions/api/comments.js:13 | defines `toString(16)` of an integer, with a `-` for negatives; its meaning is given by `CommentHelpers.HexRoundTrip` and `CommentHelpers.HexInjective` |
| CommentHelpers.HexNat | functions/api/comments.js:13 | `toString(16)` of a non-negative number is a non-empty digit string without a sign |
| CommentHelpers.HexRoundTrip | functions/api/comments.js:13 | the hexadecimal text of the hash, with its `-` sign, reads back to the same integer |
| CommentHelpers.HexInjective | functions/api/comments.js:13 | two stored `ip_hash` strings are equal exactly when the two hashes are equal |
| CommentHelpers.HashIP | functions/api/comments.js:6-14 | the for loop over the code units returns the hex text of the fold `Hash` (loop invariant over the prefix) |
| CommentHelpers.Sanitize | functions/api/comments.js:17-25 | a falsy input gives `''`; the result holds none of `<`, `>`, `"`, `'`, has no white space at either end, and is at most six code units per input code unit |
| CommentHelpers.ReplaceChain | functions/api/comments.js:19-24 | defines the four global replacements in the order written; `CommentHelpers.ChainIsSinglePass` gives its meaning |
| CommentHelpers.ChainIsSinglePass | functions/api/comments.js:19-24 | the four chained global `replace` calls equal one pass that maps each code unit to its entity, because no replacement contains a character a later call looks for |
| CommentHelpers.EscapeFacts | functions/api/comments.js:21-24 | the pass leaves no escaped character, keeps the edges free of white space, keeps emptiness, grows by at most six per code unit, and changes nothing when there is nothing to escape |
| CommentHelpers.SanitizeIdempotent | functions/api/comments.js:17-25 | sanitising an already sanitised value changes nothing |
| CommentHelpers.SanitizeMergesAmpersand | functions/api/comments.js:21-24 | `&` is not escaped, so `<` and the text `&lt;` are stored alike and the sanitiser cannot be undone |
| CommentHelpers.SanitizeOfFree | functions/api/comments.js:17-25 | a non-empty string with nothing to escape and no surrounding white space passes through unchanged |
| CommentHelpers.IsValidEmail | functions/api/comments.js:28-32 | an absent or empty address is valid; an accepted address has at least five code units and no white space |
| CommentHelpers.EmailShapeLength | functions/api/comments.js:30 | any string the pattern matches has at least five code units and no white space |
| CommentHelpers.EmailPatternMeans | functions/api/comments.js:30 | the pattern `^[^\s@]+@[^\s@]+\.[^\s@]+$` holds exactly when the address has no white space, exactly one `@` not at the start, and a `.` strictly inside the part after it |
| JsStrings.Trim | functions/api/comments.js:20 | `trim()` removes the leading and trailing white space and nothing else: the result is a window of the input, starts and ends with a non-space, and only spaces surround it |
| JsStrings.TrimOfTrimmed | functions/api/comments.js:20 | trimming a string without edge white space returns it unchanged |
| JsStrings.Lower | functions/api/auth.js:74 | defines lower-casing on the ASCII letters; `JsStrings.LowerIdentifiesCase` and `JsStrings.LowerFacts` state what it does |
| JsStrings.LowerIdentifiesCase | functions/api/auth.js:78 | `toLowerCase` maps two strings to the same value exactly when they differ only in letter case |
| JsStrings.LowerFacts | functions/api/auth.js:74 | lower-casing leaves no upper-case letter, keeps white space in place, and is idempotent |
| JsStrings.Split | functions/api/auth.js:74 | `split(',')` yields one piece more than there are commas, and no piece holds a comma |
| JsStrings.JoinSplit | functions/api/auth.js:74 | joining the pieces of a split with the separator gives back the original string |
| JsStrings.SplitJoin | functions/api/auth.js:74 | splitting a join of comma-free pieces gives back the pieces |
| CommentStore.AppendKeepsWellFormed | functions/api/comments.js:186-196 | appending a row under the next id and advancing the counter keeps ids positive, below the counter and strictly increasing |
| CommentStore.Sort | functions/api/comments.js:78 | keeps the length; `CommentStore.SortSorted` and `CommentStore.SortPermutes` state that it orders the rows and only rearranges them |
| CommentStore.SortSorted | functions/api/comments.js:78 | the `ORDER BY created_at` result is in order, ascending or descending as asked |
| CommentStore.SortPermutes | functions/api/comments.js:78 | the ordered result is a permutation of the selected rows |
| CommentStore.SortKeepsIds | functions/api/comments.js:74-79 | ordering neither drops nor duplicates a comment id |
| CommentStore.CommentsTable.Insert | functions/api/comments.js:186-196 | the INSERT appends exactly the given row under the next id, approved and stamped with the current time, returns that id as `last_row_id`, and keeps the table well formed |
| CommentsApi.VisibleOnMembers | functions/api/comments.js:74-79 | `WHERE post_slug = ? AND approved = 1` selects a row exactly when it belongs to the post and is approved, and selects nothing the table does not hold |
| CommentsApi.HandleGet | functions/api/comments.js:49-94 | 400 exactly when `post` is falsy; otherwise an empty 200 exactly when there is no binding, a 500 with the error's message exactly when the query throws, and a listing exactly when the table is bound; a listing is oldest first, holds each visible row's id once, and every entry is the public projection (no email, approval or ip_hash) of an approved row of that post |
| CommentsApi.ListingIds | functions/api/comments.js:74-81 | the listed ids are, as a multiset, the ids of the approved rows of the post |
| CommentsApi.ListingRows | functions/api/comments.js:74-81 | every listed entry comes from an approved row of the requested post |
| CommentsApi.ValidationFailure | functions/api/comments.js:105-133 | a body passes exactly when post, name and content are present, the name is at most 100 and the content at most 5000 code units, and a present email matches the pattern; otherwise the first failing check in the order missing fields, name, content, email is reported, always as a 400 |
| CommentsApi.ClientIP | functions/api/comments.js:153 | defines the client address: the `CF-Connecting-IP` header, or `unknown` when it is missing or empty; `CommentsProperties.CreatedRow` states the stored hash |
| CommentsApi.IpHashOf | functions/api/comments.js:153-154 | defines the stored address hash; `CommentHelpers.HashIP` computes it with the source's loop |
| CommentsApi.RecentCount | functions/api/comments.js:157-160 | defines the number of rows from the same address hash under a minute old; `CommentsProperties.AcceptedCounts` and `CommentsProperties.FourthWithinAMinuteRefused` state how acceptances raise it |
| CommentsApi.ParentExists | functions/api/comments.js:172-177 | defines the parent lookup: a row with that id on the same post; `CommentsProperties.PostAcceptedExactly` states its role |
| CommentsApi.NewRow | functions/api/comments.js:186-196 | defines the inserted row; `CommentsProperties.CreatedRow` states each of its fields |
| CommentsApi.PostEffect | functions/api/comments.js:97-217 | a refused submission leaves the table unchanged; an accepted one returns the next id, advances the counter, and appends one row after the unchanged old rows; a well-formed table stays well formed |
| CommentsApi.StoreEffect | functions/api/comments.js:146-205 | after validation: rate limit, then parent check, then insert; refusals change nothing; an insert appends one row under the next id |
| CommentsApi.HandlePost | functions/api/comments.js:97-144 | the handler's checks in the order written, followed by the store, produce exactly `PostEffect`'s outcome and new table, and keep the table valid |
| CommentsApi.StoreComment | functions/api/comments.js:146-205 | sanitising, hashing with the loop, counting recent rows, checking the parent and inserting produce exactly `StoreEffect`'s outcome and new table |
| CommentsProperties.PostAcceptedExactly | functions/api/comments.js:105-205 | a submission is accepted exactly when the body parses, passes the four checks, a binding exists, fewer than three comments from the same address hash are under a minute old, and a truthy `parent_id` names a row of the same (sanitised) post |
| CommentsProperties.Accepted | functions/api/comments.js:186-196 | an accepted submission passed every check, and the new table is the old one with the sanitised row appended |
| CommentsProperties.CreatedRow | functions/api/comments.js:146-196 | the new row carries the next id, the sanitised post, name and content, the email sanitised or null, `parent_id \|\| null`, `approved = 1`, the current time and the hash of `CF-Connecting-IP` (or of `unknown`) |
| CommentsProperties.PostStatuses | functions/api/comments.js:97-217 | each refusal gets its reply in the handler's order: a body that is not JSON 500, a failed check its 400, a valid body without a binding 503, three recent comments from the address 429, an unknown parent 400; an accepted comment 201 |
| CommentsProperties.StoreStatuses | functions/api/comments.js:157-196 | once a binding exists, the rate limit is checked before the parent, and the only outcomes are 429, parent not found, or the new comment under the next id |
| CommentsProperties.NoBindingNoStore | functions/api/comments.js:105-144 | without a binding the reply depends on the body alone and is never a 201 |
| CommentsProperties.AcceptedCounts | functions/api/comments.js:157-160 | an accepted comment adds exactly one to the recent count of its address for any window that contains its time |
| CommentsProperties.FourthWithinAMinuteRefused | functions/api/comments.js:157-169 | after three accepted comments from one address, a valid fourth less than a minute after each of them is refused with 429 |
| CommentsProperties.PostKeepsInvariants | functions/api/comments.js:146-196 | every submission keeps the table well formed, each reply's parent an earlier row of the same post, and every stored field free of `<`, `>`, `"`, `'` |
| CommentsProperties.ParentIdsSmaller | functions/api/comments.js:172-183 | in a threaded table with increasing ids a reply's parent id is smaller than its own id, so following parents terminates |
| CommentsProperties.VisibleOnAppend | functions/api/comments.js:74-79 | the read of a table with one more row is the old read followed by that row when it is visible on the post |
| CommentsProperties.AppendedListedOnce | functions/api/comments.js:74-81 | after a visible row is appended under the next id, a read of its post lists that row's projection exactly once |
| CommentsProperties.NewCommentListedOnce | functions/api/comments.js:74-196 | an accepted comment is listed exactly once by a read of its sanitised slug; a slug that sanitises to nothing cannot be read (400) |
| CommentsProperties.BlankNameStoredEmpty | functions/api/comments.js:105-150 | a name of one space passes the presence check and is stored as the empty string |
| Sequences.Take | functions/api/admin/comments/index.js:33 | `LIMIT n` keeps the first min(n, length) elements, a prefix of the input |
| AdminComments.AdminList | functions/api/admin/comments/index.js:14-53 | 503 exactly when there is no binding; failure exactly when the query throws; otherwise the newest 500 rows |
| AdminComments.AdminReplyShape | functions/api/admin/comments/index.js:18-52 | 503 with an empty list, 500 without `success`, or 200 with `success: true` |
| AdminComments.NewestShape | functions/api/admin/comments/index.js:29-34 | the listing is newest first, holds min(500, rows) rows, and takes each from the table |
| AdminComments.SmallTableListedWhole | functions/api/admin/comments/index.js:28-34 | with at most 500 rows every comment, approved or not, is listed |
| AdminComments.NewestAreMostRecent | functions/api/admin/comments/index.js:29-34 | a row left out of the listing is no newer than any row in it |
| GitHubOAuth.SignIn | functions/api/auth.js:23-32 | the authorize request goes to GitHub's authorize endpoint, with the given scope and state, and a redirect URI that is the request's origin followed by the callback path |
| GitHubOAuth.Entry | functions/api/auth.js:74 | each allow-list entry has no surrounding white space and no upper-case letter |
| GitHubOAuth.ParseAllowList | functions/api/auth.js:73-75 | an unset or empty variable gives the empty list; otherwise one entry per comma-separated piece, each trimmed and lower-cased |
| GitHubOAuth.Decide | functions/api/auth.js:78 | the missing-login failure happens exactly when the list is non-empty and there is no login; a login is admitted exactly when the list is empty or holds its lower-cased form |
| GitHubOAuth.DecisionIgnoresCase | functions/api/auth.js:78 | logins differing only in case get the same decision |
| GitHubOAuth.AdmittedExactly | functions/api/auth.js:73-78 | a login is admitted exactly when the variable is unset or empty, or one of its pieces, trimmed, equals the login up to case |
| GitHubOAuth.ListedNameAdmitted | functions/api/auth.js:73-78 | a variable written as comma-joined names admits each of them in any case and with surrounding spaces |
| CmsAuth.CmsSignIn | functions/api/auth.js:18-170 | defines the handler's decision tree over the fetch results; the `CmsAuth` lemmas below state its replies |
| CmsAuth.NoCodeRedirects | functions/api/auth.js:23-32 | without `code` the reply is a 302 to GitHub with scope `repo,user`, redirect URI `<origin>/api/auth` and the given state, whatever the fetches would return |
| CmsAuth.TokenErrorStopsEarly | functions/api/auth.js:54-56 | a token reply with `error` is answered 400 without a token, before the user is looked up |
| CmsAuth.TokenOnlyWhenAdmitted | functions/api/auth.js:18-170 | the 200 token page is reached exactly when the exchange and lookup succeed and the allow-list admits the login; it carries GitHub's token; every other reply carries none |
| CmsAuth.UnlistedLoginRefused | functions/api/auth.js:78-137 | with a non-empty allow-list, a login it does not name gets the 403 page naming that login |
| CmsAuth.ThrownFetchFails | functions/api/auth.js:37-169 | a token exchange that throws, or a user lookup that throws after a token reply without `error`, is answered 500 with `Authentication failed: ` and the error's message, and no token |
| CmsAuth.MissingLoginFails | functions/api/auth.js:70-169 | with a non-empty allow-list, a user reply without a login makes `toLowerCase` throw, answered with 500 |
| CmsAuth.StatusIgnoresCase | functions/api/auth.js:78 | logins differing only in case get the same status |
| UriEncoding.Utf8 | functions/api/auth/admin.js:47 | a non-surrogate code unit encodes to one to three UTF-8 bytes |
| UriEncoding.Encode | functions/api/auth/admin.js:47 | defines `encodeURIComponent`; `UriEncoding.DecodeEncode` and `UriEncoding.EncodedHasNoDelimiters` state what it does |
| UriEncoding.EncodeSafe | functions/api/auth/admin.js:47 | `encodeURIComponent` output holds only unreserved characters and `%` |
| UriEncoding.EncodedHasNoDelimiters | functions/api/auth/admin.js:47 | an encoded component holds no `=`, `&`, `#` or `?` |
| UriEncoding.DecodeEncode | functions/api/auth/admin.js:47 | decoding the encoded component gives back the original string |
| UriEncoding.EncodeInjective | functions/api/auth/admin.js:47 | two strings encode alike exactly when they are equal |
| AdminAuth.AdminDecision | functions/api/auth/admin.js:15-95 | defines which outcome the handler settles on: GitHub, an error message, or the session |
| AdminAuth.AdminSignIn | functions/api/auth/admin.js:10-96 | defines the 302 address built for each outcome; `AdminAuth.SessionOnlyWhenAdmitted` states its replies |
| AdminAuth.ErrorLocationDecodes | functions/api/auth/admin.js:47-48 | the error address starts with `<origin>/admin/comments/?error=`, and its parameter decodes back to the message |
| AdminAuth.ErrorLocationHasNoToken | functions/api/auth/admin.js:46-94 | an error address never contains `token=` when the origin holds no `=` |
| AdminAuth.NoCodeRedirects | functions/api/auth/admin.js:15-24 | without `code` the redirect goes to GitHub with scope `read:user` and redirect URI `<origin>/api/auth/admin` |
| AdminAuth.TokenErrorMessage | functions/api/auth/admin.js:46-49 | a token error leads to the error page with `error_description`, or `OAuth failed` when there is none, whatever the user lookup would return |
| AdminAuth.ThrownFetchFails | functions/api/auth/admin.js:29-95 | a token exchange that throws, or a user lookup that throws after a token reply without `error`, redirects to the error page with `Authentication failed: ` and the error's message, and no token |
| AdminAuth.DeniedCarriesNoToken | functions/api/auth/admin.js:71-75 | a login the allow-list does not name goes to the error page with `Access denied for @<login>. You are not authorized.` and no token |
| AdminAuth.SessionOnlyWhenAdmitted | functions/api/auth/admin.js:10-96 | every reply is a 302; the session redirect happens exactly when the exchange and lookup succeed and the login is admitted, and it carries GitHub's token and the user; every error redirect is free of `token=` |
| SearchText.EscapeHtml | src/assets/js/menu.js:28-39 | escaping never shortens the text |
| SearchText.EscapeHtmlInert | src/assets/js/menu.js:28-39 | the escaped text holds no `<`, `>`, `"` or `'` |
| SearchText.EscapeHtmlKeepsPlainText | src/assets/js/menu.js:28-39 | text without any of the five special characters is left unchanged |
| SearchText.UnescapeEscape | src/assets/js/menu.js:28-39 | the browser reading the entities back gets exactly the original text |
| SearchText.EscapeHtmlNotIdempotent | src/assets/js/menu.js:28-39 | unlike the server's sanitiser, escaping twice differs from escaping once, because `&` is escaped too |
| SearchText.Matching | src/assets/js/menu.js:143-147 | the filter keeps exactly the posts whose title, description or category contains the needle, and never more posts than it was given |
| SearchText.MatchingAppend | src/assets/js/menu.js:143-147 | the filter keeps the posts' order: it distributes over concatenation |
| SearchText.FilterPosts | src/assets/js/menu.js:137-149 | defines the items `filterPosts` renders; `SearchText.FilterPostsMeans` states which |
| SearchText.FilterPostsMeans | src/assets/js/menu.js:137-149 | an empty query shows the first six posts; any other shows exactly the posts matching its lower-cased form |
| SearchText.FilterIgnoresQueryCase | src/assets/js/menu.js:137-149 | queries differing only in letter case select the same posts |
| SearchText.EntriesFor | src/assets/js/menu.js:123-133 | one rendered entry per item, in order |
| SearchText.RenderSearchResults | src/assets/js/menu.js:114-135 | defines what the list and the empty message show; `SearchText.RenderedResults` states it |
| SearchText.RenderedResults | src/assets/js/menu.js:114-135 | the empty message shows exactly when there are no items; at most eight entries, the first items in order; no text field of an entry can inject markup |
| MenuPage.Lock | src/assets/js/menu.js:16-19 | defines `lockScroll` on the view; `MenuPage.LockThenUnlock` states it |
| MenuPage.Unlock | src/assets/js/menu.js:21-26 | defines `unlockScroll` on the view; `MenuPage.UnlockClamps` states it |
| MenuPage.MenuState | src/assets/js/menu.js:41-62 | defines `setMenuState` on the view; `MenuPage.StepKeepsBalance` states the invariant it keeps |
| MenuPage.UnlockClamps | src/assets/js/menu.js:21-26 | the count never goes below zero, and `no-scroll` changes only by being cleared when the count reaches zero |
| MenuPage.LockThenUnlock | src/assets/js/menu.js:16-26 | lock adds one and sets `no-scroll`; lock then unlock restores the count, with `no-scroll` kept exactly when another lock is held |
| MenuPage.StepKeepsBalance | src/assets/js/menu.js:41-264 | every event the browser can deliver keeps the lock balanced: the count is the number of open panels (menu, search), and `no-scroll` is set exactly while it is positive |
| MenuPage.SearchOpensOnDefaults | src/assets/js/menu.js:151-183 | opening the search shows the rendering of the first six posts, with the empty message exactly when there are none; closing it again hides the message |
| MenuPage.InputIgnoredWithoutOverlay | src/assets/js/menu.js:185-208 | without the search overlay the script registers no input listener, so typing in the search field changes nothing |
| MenuPage.AccordionFlipsOne | src/assets/js/menu.js:233-264 | a click flips only its own accordion, and only when it has a sub-navigation; two clicks restore the page |
| MenuPage.Page.constructor | src/assets/js/menu.js:13-14 | the page starts with nothing open, nothing locked and no search data |
| MenuPage.Page.LockScroll | src/assets/js/menu.js:16-19 | the page's new state is `Lock` of the old one |
| MenuPage.Page.UnlockScroll | src/assets/js/menu.js:21-26 | the page's new state is `Unlock` of the old one |
| MenuPage.Page.SetMenuState | src/assets/js/menu.js:41-62 | the new state is `MenuState`: opening sets the expanded flag and the close icon and locks; closing hides the menu and unlocks; nothing happens without the menu elements |
| MenuPage.Page.ToggleMenu | src/assets/js/menu.js:64-67 | sets the menu to the opposite of its current `aria-expanded` |
| MenuPage.Page.RenderSearchResultsOf | src/assets/js/menu.js:114-135 | the results and empty message become `RenderSearchResults` of the items, or stay as they were when either element is missing |
| MenuPage.Page.FilterPostsBy | src/assets/js/menu.js:137-149 | the rendered results are those of `FilterPosts` on the loaded posts |
| MenuPage.Page.OpenSearch | src/assets/js/menu.js:151-164 | shows the overlay, locks scrolling and renders the default posts |
| MenuPage.Page.CloseSearch | src/assets/js/menu.js:166-174 | hides the overlay and the empty message and unlocks scrolling |
| MenuPage.Page.ToggleSearch | src/assets/js/menu.js:176-183 | opens a hidden overlay and closes a visible one |
| MenuPage.Page.OnEscape | src/assets/js/menu.js:81-89 | Escape closes the search when it is showing, otherwise the menu |
| MenuPage.Page.LoadSearchData | src/assets/js/menu.js:103-112 | an empty or malformed data script gives no posts; a missing one leaves them as they were |
| MenuPage.Page.ToggleAccordion | src/assets/js/menu.js:233-264 | the new state is `AccordionToggled` of the old one |
| MenuPage.Page.Handle | src/assets/js/menu.js:69-264 | delivers one event to the handler the script registers for it, and does nothing for search input when no listener is registered; keeps the scroll lock balanced |

## Left out

- The approve and delete endpoints (`functions/api/admin/comments/[id]/approve.js` and `functions/api/admin/comments/[id].js`) are not part of this model; nothing here ever changes `approved` back or removes a row.
- CORS preflight (`onRequestOptions`) and the response headers are left out; they carry no logic.
- JSON bodies are reduced to the fields they carry. A field that is present but not a string (a number given as `name`, say) would make `trim` or `length` misbehave or throw; the model has string or absent fields only. `parent_id` is an integer or absent.
- A D1 query that throws is modelled for the reads (`Unreachable`). For the POST handler only a body that is not JSON leads to the 500 reply; a database error during the rate-limit count, the parent lookup or the insert is not modelled.
- Two submissions running concurrently can both pass the rate limit before either inserts; the model runs one request at a time.
- `created_at` is whole seconds since some origin, and the clock is a parameter. SQLite's `datetime('now', '-1 minute')` text comparison is modelled as `created_at > now - 60`.
- `CommentStore.Sort`: rows with equal `created_at` keep their table order. SQL promises no order among ties, so the model picks one.
- Strings hold code units outside the surrogate range only. Lone surrogates and characters outside the Basic Multilingual Plane are not represented, so `encodeURIComponent` is modelled for one- to three-byte UTF-8 only.
- `toLowerCase` is modelled on the ASCII letters; GitHub logins are ASCII.
- SearchText.Matching: the search filter lower-cases titles, descriptions and categories on the ASCII letters only, so a non-ASCII title such as `Café` does not match the query `café` as it does in the browser; Unicode case mapping is not modelled.
- SearchText.FilterPostsMeans: "matching its lower-cased form" means ASCII lower-casing, for the same reason.
- SearchText.FilterIgnoresQueryCase: holds for queries that differ in ASCII letter case only.
- CmsAuth.CmsSignIn: an `error_description` that is JSON `null` is shown as `null` by the source, while the model shows every missing description as `undefined`; the model's fields are strings or absent.
- The response bodies are abstract outcomes. The JSON texts, the HTML of the 403 page and of the token page (the script posting the token to the editor window) are left out. The token page is identified by the token it carries.
- `AdminAuth.SessionOnlyWhenAdmitted` keeps the success redirect structured (origin, token, user) rather than building `token=...&user=<JSON.stringify(...)>`; `JSON.stringify` is not modelled.
- The GitHub authorize URL is kept as its query parameters (`GitHubOAuth.AuthorizeRequest`); URL serialisation is not modelled.
- `crypto.randomUUID()` (the `state`), the request origin and the replies of GitHub's token and user endpoints are parameters; the `code` itself and the client secret are not used by the model.
- `console.log` and `console.error` calls are left out.
- In `menu.js`: the 200 ms timer that hides the mobile menu is taken as already run, and the `requestAnimationFrame` and opacity changes of the overlay, the search input's value and focus, and the lucide icon refresh are left out. The navbar scroll class and the sticky sidebar fallback touch only styles and are left out.
- `MenuPage.StepKeepsBalance` holds for the events the browser can deliver (`MenuPage.Enabled`): a link inside a hidden menu or the close button of a hidden overlay cannot be clicked.
- A `.mobile-subnav-toggle` outside any `.mobile-nav-group` would throw on `navGroup.querySelector`; the model gives every accordion button a group.
- The search data is taken to be an array of posts with string or absent fields; other JSON values are not modelled. The result link (`href`) is the post's `url` as given, without escaping, as in the code.
- `functions/api/translate.js`, `src/assets/js/dark.js`, `src/_data/languages.js`, `.eleventy.js` and `functions/api/auth/[[path]].js` are not part of this model.
