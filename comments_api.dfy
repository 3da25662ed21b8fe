/**
 * The public comment endpoint: `GET /api/comments?post=<slug>` lists the
 * approved comments of one post, `POST /api/comments` validates a
 * submission, rate-limits it by hashed client address, checks its parent and
 * inserts it.
 */
module CommentsApi {
  import opened Wrappers
  import opened JsStrings
  import opened CommentHelpers
  import opened CommentStore

  /** The `DB` binding as a read sees it: missing, failing with a message,
      or holding the table's rows. */
  datatype Binding = Unbound | Unreachable(message: JsString) | Bound(rows: seq<Comment>)

  // ---------------------------------------------------------------------
  // GET
  // ---------------------------------------------------------------------

  /** The columns the public read selects: no email, approval or ip_hash. */
  datatype PublicComment = PublicComment(
    id: int, postSlug: JsString, parentId: Option<int>, name: JsString, content: JsString, createdAt: int)

  function Public(c: Comment): PublicComment {
    PublicComment(c.id, c.postSlug, c.parentId, c.name, c.content, c.createdAt)
  }

  function Project(s: seq<Comment>): seq<PublicComment> {
    seq(|s|, i requires 0 <= i < |s| => Public(s[i]))
  }

  function PublicIds(s: seq<PublicComment>): seq<int> {
    seq(|s|, i requires 0 <= i < |s| => s[i].id)
  }

  predicate IsVisibleOn(c: Comment, slug: JsString) {
    c.postSlug == slug && c.approved
  }

  /** The public query's filter: the approved rows of the post, in
      table order. */
  function VisibleOn(rows: seq<Comment>, slug: JsString): seq<Comment> {
    if rows == [] then []
    else (if IsVisibleOn(rows[0], slug) then [rows[0]] else []) + VisibleOn(rows[1..], slug)
  }

  /** The query selects a row exactly when it is visible on the post, and
      selects nothing the table does not hold. */
  lemma {:induction false} VisibleOnMembers(rows: seq<Comment>, slug: JsString)
    ensures forall c :: c in VisibleOn(rows, slug) <==> c in rows && IsVisibleOn(c, slug)
    ensures multiset(VisibleOn(rows, slug)) <= multiset(rows)
  {
    if rows != [] {
      VisibleOnMembers(rows[1..], slug);
      assert rows == [rows[0]] + rows[1..];
    }
  }

  datatype GetReply =
    | MissingPost                          // 400, no `post` parameter
    | NotSetUp                             // 200 with no comments: no binding yet
    | Listing(comments: seq<PublicComment>) // 200
    | FetchFailed(details: JsString)       // 500, the query threw

  function GetStatus(r: GetReply): int {
    match r
    case MissingPost => 400
    case NotSetUp => 200
    case Listing(_) => 200
    case FetchFailed(_) => 500
  }

  /** p is the public projection of a visible row of the post. */
  predicate FromVisibleRow(p: PublicComment, rows: seq<Comment>, slug: JsString) {
    exists c | c in rows :: IsVisibleOn(c, slug) && p == Public(c)
  }

  predicate OldestFirst(list: seq<PublicComment>) {
    forall i, j | 0 <= i < j < |list| :: list[i].createdAt <= list[j].createdAt
  }

  /** `onRequestGet`: the approved comments of the post, oldest first, each
      one the public projection of a visible row, each visible row once. */
  function HandleGet(db: Binding, post: Option<JsString>): (r: GetReply)
    ensures r.MissingPost? <==> !Truthy(post)
    ensures r.NotSetUp? <==> Truthy(post) && db.Unbound?
    ensures r.Listing? <==> Truthy(post) && db.Bound?
    ensures r.FetchFailed? <==> Truthy(post) && db.Unreachable?
    ensures r.FetchFailed? ==> r.details == db.message && GetStatus(r) == 500
    ensures r.Listing? ==> db.Bound? && Truthy(post) && OldestFirst(r.comments)
    ensures r.Listing? ==> multiset(PublicIds(r.comments)) == multiset(Ids(VisibleOn(db.rows, post.value)))
    ensures r.Listing? ==> forall k | 0 <= k < |r.comments| :: FromVisibleRow(r.comments[k], db.rows, post.value)
  {
    if !Truthy(post) then MissingPost
    else match db
      case Unbound => NotSetUp
      case Unreachable(m) => FetchFailed(m)
      case Bound(rows) =>
        var sorted := Sort(VisibleOn(rows, post.value), Ascending);
        SortSorted(VisibleOn(rows, post.value), Ascending);
        ListingOrder(sorted);
        ListingIds(rows, post.value);
        ListingRows(rows, post.value);
        Listing(Project(sorted))
  }

  lemma ListingOrder(sorted: seq<Comment>)
    requires Sorted(sorted, Ascending)
    ensures OldestFirst(Project(sorted))
  {
  }

  lemma ListingIds(rows: seq<Comment>, slug: JsString)
    ensures multiset(PublicIds(Project(Sort(VisibleOn(rows, slug), Ascending)))) == multiset(Ids(VisibleOn(rows, slug)))
  {
    var sorted := Sort(VisibleOn(rows, slug), Ascending);
    SortKeepsIds(VisibleOn(rows, slug), Ascending);
    assert PublicIds(Project(sorted)) == Ids(sorted);
  }

  lemma ListingRows(rows: seq<Comment>, slug: JsString)
    ensures var list := Project(Sort(VisibleOn(rows, slug), Ascending));
            forall k | 0 <= k < |list| :: FromVisibleRow(list[k], rows, slug)
  {
    var sorted := Sort(VisibleOn(rows, slug), Ascending);
    SortPermutes(VisibleOn(rows, slug), Ascending);
    forall k | 0 <= k < |sorted| ensures FromVisibleRow(Public(sorted[k]), rows, slug) {
      assert sorted[k] in multiset(sorted);
      VisibleOnMembers(rows, slug);
      assert sorted[k] in VisibleOn(rows, slug);
    }
  }

  // ---------------------------------------------------------------------
  // POST
  // ---------------------------------------------------------------------

  const MaxNameLength: nat := 100
  const MaxContentLength: nat := 5000
  const RateLimit: nat := 3
  const RateWindow: nat := 60

  /** The JSON body's fields; absent and null are both None. */
  datatype PostBody = PostBody(
    post: Option<JsString>, name: Option<JsString>, email: Option<JsString>,
    content: Option<JsString>, parentId: Option<int>)

  datatype PostOutcome =
    | Created(commentId: int)  // 201
    | MissingFields            // 400
    | NameTooLong              // 400
    | ContentTooLong           // 400
    | InvalidEmail             // 400
    | NotConfigured            // 503
    | TooManyComments          // 429
    | ParentNotFound           // 400
    | Failed                   // 500: the body is not JSON

  function PostStatus(o: PostOutcome): int {
    match o
    case Created(_) => 201
    case NotConfigured => 503
    case TooManyComments => 429
    case Failed => 500
    case _ => 400
  }

  /** Post, name and content are all present and non-empty. */
  predicate HasRequired(b: PostBody) {
    Truthy(b.post) && Truthy(b.name) && Truthy(b.content)
  }

  /** The four checks on the raw body, in order; the first that fails. A
      body passes exactly when it meets all four, and each failure is
      reported only when the checks before it passed. */
  function ValidationFailure(b: PostBody): (r: Option<PostOutcome>)
    ensures r.None? <==>
              && HasRequired(b)
              && |b.name.value| <= MaxNameLength && |b.content.value| <= MaxContentLength
              && (Truthy(b.email) ==> MatchesEmailPattern(b.email.value))
    ensures !HasRequired(b) ==> r == Some(MissingFields)
    ensures HasRequired(b) && |b.name.value| > MaxNameLength ==> r == Some(NameTooLong)
    ensures HasRequired(b) && |b.name.value| <= MaxNameLength && |b.content.value| > MaxContentLength
            ==> r == Some(ContentTooLong)
    ensures (&& HasRequired(b) && |b.name.value| <= MaxNameLength && |b.content.value| <= MaxContentLength
             && Truthy(b.email) && !MatchesEmailPattern(b.email.value)) ==> r == Some(InvalidEmail)
    ensures r.Some? ==> PostStatus(r.value) == 400
  {
    if !HasRequired(b) then Some(MissingFields)
    else if |b.name.value| > MaxNameLength then Some(NameTooLong)
    else if |b.content.value| > MaxContentLength then Some(ContentTooLong)
    else if Truthy(b.email) && !IsValidEmail(b.email) then Some(InvalidEmail)
    else None
  }

  /** A falsy `parent_id` (absent, null or 0) means a top-level comment. */
  predicate HasParent(parentId: Option<int>) {
    parentId.Some? && parentId.value != 0
  }

  /** The stored parent: the given id when it is truthy, otherwise null. */
  function StoredParent(parentId: Option<int>): Option<int> {
    if HasParent(parentId) then parentId else None
  }

  /** `CF-Connecting-IP`, or `'unknown'` when the header is missing or empty. */
  function ClientIP(header: Option<JsString>): JsString {
    if Truthy(header) then header.value else "unknown"
  }

  function IpHashOf(header: Option<JsString>): JsString {
    HexString(Hash(ClientIP(header)))
  }

  predicate IsRecentFrom(c: Comment, ipHash: JsString, now: int) {
    c.ipHash == ipHash && c.createdAt > now - RateWindow
  }

  /** The rate-limit count of `onRequestPost`: rows from the same address
      hash created less than a minute before now. */
  function RecentCount(rows: seq<Comment>, ipHash: JsString, now: int): nat {
    if rows == [] then 0
    else RecentCount(rows[..|rows| - 1], ipHash, now) + (if IsRecentFrom(rows[|rows| - 1], ipHash, now) then 1 else 0)
  }

  /** The parent lookup of `onRequestPost`: a row with the given id on the
      same post. */
  predicate ParentExists(rows: seq<Comment>, id: int, slug: JsString) {
    exists k | 0 <= k < |rows| :: rows[k].id == id && rows[k].postSlug == slug
  }

  /** The row the INSERT adds for an accepted body. */
  function NewRow(id: int, b: PostBody, ipHash: JsString, now: int): Comment {
    Comment(id, Sanitize(b.post), StoredParent(b.parentId), Sanitize(b.name),
            if Truthy(b.email) then Some(Sanitize(b.email)) else None,
            Sanitize(b.content), now, true, ipHash)
  }

  datatype Submission = Submission(outcome: PostOutcome, table: Option<TableState>)

  /** `onRequestPost` as a function of the body, the client-address header,
      the binding (None when there is none) and the clock. A refused
      submission leaves the table as it was; an accepted one appends one row
      under the next id and keeps the table well formed. */
  function PostEffect(body: Option<PostBody>, ipHeader: Option<JsString>, db: Option<TableState>, now: int)
    : (r: Submission)
    ensures !r.outcome.Created? ==> r.table == db
    ensures r.outcome.Created? ==>
              && db.Some? && r.table.Some?
              && r.outcome.commentId == db.value.nextId
              && r.table.value.nextId == db.value.nextId + 1
              && |r.table.value.rows| == |db.value.rows| + 1
              && r.table.value.rows[..|db.value.rows|] == db.value.rows
    ensures db.Some? && WellFormed(db.value) ==> r.table.Some? && WellFormed(r.table.value)
  {
    if body.None? then Submission(Failed, db)
    else
      var b := body.value;
      var failure := ValidationFailure(b);
      if failure.Some? then Submission(failure.value, db)
      else if db.None? then Submission(NotConfigured, db)
      else StoreEffect(b, ipHeader, db.value, now)
  }

  /** The part of PostEffect after the checks on the raw body. */
  function StoreEffect(b: PostBody, ipHeader: Option<JsString>, t: TableState, now: int): (r: Submission)
    ensures r.table.Some?
    ensures !r.outcome.Created? ==> r.table.value == t
    ensures r.outcome.Created? ==>
              && r.outcome.commentId == t.nextId
              && r.table.value.nextId == t.nextId + 1
              && |r.table.value.rows| == |t.rows| + 1
              && r.table.value.rows[..|t.rows|] == t.rows
    ensures WellFormed(t) ==> WellFormed(r.table.value)
  {
    var post := Sanitize(b.post);
    var ipHash := IpHashOf(ipHeader);
    if RecentCount(t.rows, ipHash, now) >= RateLimit then Submission(TooManyComments, Some(t))
    else if HasParent(b.parentId) && !ParentExists(t.rows, b.parentId.value, post) then
      Submission(ParentNotFound, Some(t))
    else
      var row := NewRow(t.nextId, b, ipHash, now);
      assert (t.rows + [row])[..|t.rows|] == t.rows;
      assert WellFormed(t) ==> WellFormed(TableState(t.rows + [row], t.nextId + 1)) by {
        if WellFormed(t) { AppendKeepsWellFormed(t, row); }
      }
      Submission(Created(t.nextId), Some(TableState(t.rows + [row], t.nextId + 1)))
  }

  /** StoreEffect branch by branch, so that the method can follow it. */
  lemma StoreEffectCases(b: PostBody, ipHeader: Option<JsString>, t: TableState, now: int)
    ensures var ipHash := IpHashOf(ipHeader);
            StoreEffect(b, ipHeader, t, now) ==
              if RecentCount(t.rows, ipHash, now) >= RateLimit then Submission(TooManyComments, Some(t))
              else if HasParent(b.parentId) && !ParentExists(t.rows, b.parentId.value, Sanitize(b.post)) then
                Submission(ParentNotFound, Some(t))
              else Submission(Created(t.nextId), Some(TableState(t.rows + [NewRow(t.nextId, b, ipHash, now)], t.nextId + 1)))
  {
  }

  lemma PostEffectAfterChecks(b: PostBody, ipHeader: Option<JsString>, t: TableState, now: int)
    requires ValidationFailure(b).None?
    ensures PostEffect(Some(b), ipHeader, Some(t), now) == StoreEffect(b, ipHeader, t, now)
  {
  }

  /** `onRequestPost` against the table object (null when the binding is
      missing): the checks on the raw body in the order written, then
      StoreComment. */
  method HandlePost(db: CommentsTable?, body: Option<PostBody>, ipHeader: Option<JsString>, now: int)
    returns (outcome: PostOutcome)
    requires db != null ==> db.Valid()
    modifies db
    ensures db != null ==> db.Valid()
    ensures db == null ==> outcome == PostEffect(body, ipHeader, None, now).outcome
    ensures db != null ==> PostEffect(body, ipHeader, Some(old(db.State())), now) == Submission(outcome, Some(db.State()))
  {
    if body.None? {
      return Failed;
    }
    var b := body.value;
    if !Truthy(b.post) || !Truthy(b.name) || !Truthy(b.content) {
      return MissingFields;
    }
    if |b.name.value| > MaxNameLength {
      return NameTooLong;
    }
    if |b.content.value| > MaxContentLength {
      return ContentTooLong;
    }
    if Truthy(b.email) && !IsValidEmail(b.email) {
      return InvalidEmail;
    }
    if db == null {
      return NotConfigured;
    }
    PostEffectAfterChecks(b, ipHeader, db.State(), now);
    outcome := StoreComment(db, b, ipHeader, now);
  }

  /** The rest of `onRequestPost` once a binding exists: sanitise, hash the
      client address with its loop, count recent comments from it, check the
      parent, and insert. */
  method StoreComment(db: CommentsTable, b: PostBody, ipHeader: Option<JsString>, now: int)
    returns (outcome: PostOutcome)
    requires db.Valid()
    modifies db
    ensures db.Valid()
    ensures StoreEffect(b, ipHeader, old(db.State()), now) == Submission(outcome, Some(db.State()))
  {
    ghost var t := db.State();
    var name := Sanitize(b.name);
    var content := Sanitize(b.content);
    var email := if Truthy(b.email) then Some(Sanitize(b.email)) else None;
    var post := Sanitize(b.post);
    var ipHash := HashIP(ClientIP(ipHeader));
    StoreEffectCases(b, ipHeader, t, now);
    if RecentCount(db.rows, ipHash, now) >= RateLimit {
      return TooManyComments;
    }
    if HasParent(b.parentId) && !ParentExists(db.rows, b.parentId.value, post) {
      return ParentNotFound;
    }
    ghost var row := NewRow(t.nextId, b, IpHashOf(ipHeader), now);
    assert row == Comment(t.nextId, post, StoredParent(b.parentId), name, email, content, now, true, ipHash);
    var id := db.Insert(post, StoredParent(b.parentId), name, email, content, ipHash, now);
    assert db.State() == TableState(t.rows + [row], t.nextId + 1);
    outcome := Created(id);
  }
}
