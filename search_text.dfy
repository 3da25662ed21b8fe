/**
 * The pure parts of the site's menu script: the five-character HTML
 * escaper, the search filter and the selection of results to render.
 */
module SearchText {
  import opened Wrappers
  import opened JsStrings
  import opened Sequences

  // ---------------------------------------------------------------------
  // escapeHTML
  // ---------------------------------------------------------------------

  /** The replacement of one character. */
  function HtmlEntity(c: CodeUnit): JsString {
    match c
    case '&' => "&amp;"
    case '<' => "&lt;"
    case '>' => "&gt;"
    case '"' => "&quot;"
    case '\'' => "&#39;"
    case _ => [c]
  }

  /** `escapeHTML(value)`: `value.replace(/[&<>"']/g, ...)`. */
  function EscapeHtml(s: JsString): (r: JsString)
    ensures |r| >= |s|
  {
    if s == [] then [] else HtmlEntity(s[0]) + EscapeHtml(s[1..])
  }

  predicate IsMarkupChar(c: CodeUnit) {
    c == '<' || c == '>' || c == '"' || c == '\''
  }

  /** Text that cannot open a tag or close an attribute value. */
  predicate Inert(s: JsString) {
    forall i | 0 <= i < |s| :: !IsMarkupChar(s[i])
  }

  lemma InertConcat(a: JsString, b: JsString)
    requires Inert(a) && Inert(b)
    ensures Inert(a + b)
  {
    forall i | 0 <= i < |a + b| ensures !IsMarkupChar((a + b)[i]) {
      if i >= |a| {
        assert (a + b)[i] == b[i - |a|];
      }
    }
  }

  /** The escaped text holds no `<`, `>`, `"` or `'`. */
  lemma {:induction false} EscapeHtmlInert(s: JsString)
    ensures Inert(EscapeHtml(s))
  {
    if s != [] {
      EscapeHtmlInert(s[1..]);
      InertConcat(HtmlEntity(s[0]), EscapeHtml(s[1..]));
    }
  }

  predicate IsEscapedChar(c: CodeUnit) {
    c == '&' || IsMarkupChar(c)
  }

  /** Every other character is left as it is. */
  lemma {:induction false} EscapeHtmlKeepsPlainText(s: JsString)
    requires forall i | 0 <= i < |s| :: !IsEscapedChar(s[i])
    ensures EscapeHtml(s) == s
  {
    if s != [] {
      EscapeHtmlKeepsPlainText(s[1..]);
      assert [s[0]] + s[1..] == s;
    }
  }

  predicate StartsWith(s: JsString, prefix: JsString) {
    |prefix| <= |s| && s[..|prefix|] == prefix
  }

  /** The browser's reading of the escaped text: each of the five entities
      back to its character. */
  function UnescapeHtml(s: JsString): JsString
    decreases |s|
  {
    if s == [] then []
    else if StartsWith(s, "&amp;") then "&" + UnescapeHtml(s[5..])
    else if StartsWith(s, "&lt;") then "<" + UnescapeHtml(s[4..])
    else if StartsWith(s, "&gt;") then ">" + UnescapeHtml(s[4..])
    else if StartsWith(s, "&quot;") then "\"" + UnescapeHtml(s[6..])
    else if StartsWith(s, "&#39;") then "'" + UnescapeHtml(s[5..])
    else [s[0]] + UnescapeHtml(s[1..])
  }

  /** A prefix that disagrees with s at some index is not a prefix of s. */
  lemma Mismatch(s: JsString, prefix: JsString, k: nat)
    requires k < |prefix| && k < |s| && s[k] != prefix[k]
    ensures !StartsWith(s, prefix)
  {
  }

  lemma UnescapeEntity(c: CodeUnit, rest: JsString)
    ensures UnescapeHtml(HtmlEntity(c) + rest) == [c] + UnescapeHtml(rest)
  {
    var e := HtmlEntity(c);
    var s := e + rest;
    assert s[..|e|] == e;
    assert s[|e|..] == rest;
    if !IsEscapedChar(c) {
      Mismatch(s, "&amp;", 0);
      Mismatch(s, "&lt;", 0);
      Mismatch(s, "&gt;", 0);
      Mismatch(s, "&quot;", 0);
      Mismatch(s, "&#39;", 0);
    } else if c == '<' {
      Mismatch(s, "&amp;", 1);
    } else if c == '>' {
      Mismatch(s, "&amp;", 1);
      Mismatch(s, "&lt;", 1);
    } else if c == '"' {
      Mismatch(s, "&amp;", 1);
      Mismatch(s, "&lt;", 1);
      Mismatch(s, "&gt;", 1);
    } else if c == '\'' {
      Mismatch(s, "&amp;", 1);
      Mismatch(s, "&lt;", 1);
      Mismatch(s, "&gt;", 1);
      Mismatch(s, "&quot;", 1);
    }
  }

  /** The page shows exactly the text it was given. */
  lemma {:induction false} UnescapeEscape(s: JsString)
    ensures UnescapeHtml(EscapeHtml(s)) == s
  {
    if s != [] {
      UnescapeEntity(s[0], EscapeHtml(s[1..]));
      UnescapeEscape(s[1..]);
      assert [s[0]] + s[1..] == s;
    }
  }

  /** Unlike the server's sanitiser, escaping twice is not escaping once:
      `&` is escaped too. */
  lemma EscapeHtmlNotIdempotent()
    ensures EscapeHtml(EscapeHtml("&")) != EscapeHtml("&")
  {
    var once := EscapeHtml("&");
    assert once == "&amp;";
    assert |EscapeHtml(once)| >= |once|;
    assert EscapeHtml(once)[..5] == "&amp;";
    assert EscapeHtml(once)[5..] != [];
  }

  // ---------------------------------------------------------------------
  // filterPosts
  // ---------------------------------------------------------------------

  /** One entry of the embedded search data; each field may be missing. */
  datatype SearchPost = SearchPost(
    title: Option<JsString>, description: Option<JsString>, category: Option<JsString>, url: Option<JsString>)

  /** A field matches when it is present, non-empty and, lower-cased,
      contains the needle. */
  predicate FieldMatches(field: Option<JsString>, needle: JsString) {
    Truthy(field) && Contains(Lower(field.value), needle)
  }

  predicate PostMatches(p: SearchPost, needle: JsString) {
    FieldMatches(p.title, needle) || FieldMatches(p.description, needle) || FieldMatches(p.category, needle)
  }

  /** The posts `filterPosts` keeps for a lower-cased query, in order. */
  function Matching(posts: seq<SearchPost>, needle: JsString): (r: seq<SearchPost>)
    ensures forall p :: p in r <==> p in posts && PostMatches(p, needle)
    ensures |r| <= |posts|
  {
    if posts == [] then []
    else
      assert posts == [posts[0]] + posts[1..];
      (if PostMatches(posts[0], needle) then [posts[0]] else []) + Matching(posts[1..], needle)
  }

  /** The filter keeps the order of the posts: it distributes over
      concatenation. */
  lemma {:induction false} MatchingAppend(a: seq<SearchPost>, b: seq<SearchPost>, needle: JsString)
    ensures Matching(a + b, needle) == Matching(a, needle) + Matching(b, needle)
  {
    if a == [] {
      assert a + b == b;
    } else {
      assert (a + b)[0] == a[0];
      assert (a + b)[1..] == a[1..] + b;
      MatchingAppend(a[1..], b, needle);
    }
  }

  const DefaultCount: nat := 6
  const ResultLimit: nat := 8

  /** `filterPosts(query)`: the items it hands to renderSearchResults. */
  function FilterPosts(posts: seq<SearchPost>, query: JsString): seq<SearchPost> {
    if query == [] then Take(posts, DefaultCount)
    else Matching(posts, Lower(query))
  }

  /** An empty query shows the first six posts; any other shows exactly the
      posts with a title, description or category containing it, ignoring
      letter case, in their order. */
  lemma FilterPostsMeans(posts: seq<SearchPost>, query: JsString)
    ensures var r := FilterPosts(posts, query);
            && (query == [] ==> r == posts[..if |posts| <= DefaultCount then |posts| else DefaultCount])
            && (query != [] ==> forall p :: p in r <==> p in posts && PostMatches(p, Lower(query)))
  {
  }

  /** Queries that differ only in letter case select the same posts. */
  lemma FilterIgnoresQueryCase(posts: seq<SearchPost>, q1: JsString, q2: JsString)
    requires EqualIgnoringCase(q1, q2)
    ensures FilterPosts(posts, q1) == FilterPosts(posts, q2)
  {
    LowerIdentifiesCase(q1, q2);
  }

  // ---------------------------------------------------------------------
  // renderSearchResults
  // ---------------------------------------------------------------------

  /** One rendered `<li>`: the link target as given, and the three text
      fields escaped, the category defaulting to `POST`. */
  datatype ResultEntry = ResultEntry(href: JsString, category: JsString, title: JsString, description: JsString)

  function EntryFor(p: SearchPost): ResultEntry {
    ResultEntry(StringOf(p.url), EscapeHtml(OrElse(p.category, "POST")),
                EscapeHtml(OrElse(p.title, "")), EscapeHtml(OrElse(p.description, "")))
  }

  /** What the results list and the empty message show afterwards. */
  datatype Rendered = Rendered(entries: seq<ResultEntry>, emptyShown: bool)

  function EntriesFor(items: seq<SearchPost>): (r: seq<ResultEntry>)
    ensures |r| == |items|
    ensures forall k | 0 <= k < |r| :: r[k] == EntryFor(items[k])
  {
    seq(|items|, k requires 0 <= k < |items| => EntryFor(items[k]))
  }

  /** `renderSearchResults(items)` once both elements exist. */
  function RenderSearchResults(items: seq<SearchPost>): Rendered {
    if |items| == 0 then Rendered([], true)
    else Rendered(EntriesFor(Take(items, ResultLimit)), false)
  }

  /** At most eight entries, the first items in order; the empty message
      is shown exactly when there is nothing to list; and no text field of
      an entry can inject markup. */
  lemma RenderedResults(items: seq<SearchPost>)
    ensures var r := RenderSearchResults(items);
            && (r.emptyShown <==> items == [])
            && |r.entries| == (if |items| <= ResultLimit then |items| else ResultLimit)
            && (forall k | 0 <= k < |r.entries| :: r.entries[k] == EntryFor(items[k]))
            && (forall k | 0 <= k < |r.entries| ::
                  Inert(r.entries[k].category) && Inert(r.entries[k].title) && Inert(r.entries[k].description))
  {
    var r := RenderSearchResults(items);
    forall k | 0 <= k < |r.entries|
      ensures Inert(r.entries[k].category) && Inert(r.entries[k].title) && Inert(r.entries[k].description)
    {
      EscapeHtmlInert(OrElse(items[k].category, "POST"));
      EscapeHtmlInert(OrElse(items[k].title, ""));
      EscapeHtmlInert(OrElse(items[k].description, ""));
    }
  }
}
