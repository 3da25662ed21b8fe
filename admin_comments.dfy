/**
 * The moderation listing, `GET /api/admin/comments`: every row of the
 * comments table, approved or not, with all its columns, newest first and
 * at most 500 of them.
 */
module AdminComments {
  import opened Wrappers
  import opened JsStrings
  import opened CommentStore
  import opened Sequences
  import CommentsApi

  const ListLimit: nat := 500

  datatype AdminReply =
    | NoDatabase                       // 503, `comments: []`
    | AllComments(comments: seq<Comment>) // 200, `success: true`
    | ListFailed(details: JsString)    // 500, no `success` field

  function AdminStatus(r: AdminReply): int {
    match r
    case NoDatabase => 503
    case AllComments(_) => 200
    case ListFailed(_) => 500
  }

  /** The `comments` array of the reply body; the 500 reply has none. */
  function ReplyComments(r: AdminReply): Option<seq<Comment>> {
    match r
    case NoDatabase => Some([])
    case AllComments(c) => Some(c)
    case ListFailed(_) => None
  }

  /** Whether the body carries `success: true`. */
  predicate Succeeded(r: AdminReply) {
    r.AllComments?
  }

  /** The moderation query: all rows, newest first, at most 500. */
  function Newest(rows: seq<Comment>): seq<Comment> {
    Take(Sort(rows, Descending), ListLimit)
  }

  /** `onRequestGet` of the moderation listing. */
  function AdminList(db: CommentsApi.Binding): (r: AdminReply)
    ensures db.Unbound? <==> r.NoDatabase?
    ensures r.ListFailed? <==> db.Unreachable?
    ensures r.AllComments? ==> db.Bound? && r.comments == Newest(db.rows)
  {
    match db
    case Unbound => NoDatabase
    case Unreachable(m) => ListFailed(m)
    case Bound(rows) => AllComments(Newest(rows))
  }

  /** The reply codes: 503 with an empty list without a binding, 500 without
      `success` when the query throws, otherwise 200 with `success`. */
  lemma AdminReplyShape(db: CommentsApi.Binding)
    ensures var r := AdminList(db);
            && (db.Unbound? ==> AdminStatus(r) == 503 && ReplyComments(r) == Some([]) && !Succeeded(r))
            && (db.Unreachable? ==> AdminStatus(r) == 500 && ReplyComments(r).None? && !Succeeded(r))
            && (db.Bound? ==> AdminStatus(r) == 200 && Succeeded(r))
  {
  }

  /** The listing is newest first, holds min(500, |rows|) rows, and each of
      them is a row of the table. */
  lemma NewestShape(rows: seq<Comment>)
    ensures var r := Newest(rows);
            && Sorted(r, Descending)
            && |r| == (if |rows| <= ListLimit then |rows| else ListLimit)
            && multiset(r) <= multiset(rows)
  {
    var s := Sort(rows, Descending);
    var r := Newest(rows);
    SortSorted(rows, Descending);
    SortPermutes(rows, Descending);
    assert s == r + s[|r|..];
    assert multiset(s) == multiset(r) + multiset(s[|r|..]);
  }

  /** With at most 500 rows the listing is the whole table, whatever the
      approval of each row. */
  lemma SmallTableListedWhole(rows: seq<Comment>)
    requires |rows| <= ListLimit
    ensures multiset(Newest(rows)) == multiset(rows)
    ensures forall c :: c in Newest(rows) <==> c in rows
  {
    var r := Newest(rows);
    SortPermutes(rows, Descending);
    assert forall c :: c in r <==> c in multiset(r);
    assert forall c :: c in rows <==> c in multiset(rows);
  }

  /** The rows left out of a full listing are no newer than any row in it. */
  lemma NewestAreMostRecent(rows: seq<Comment>, kept: Comment, dropped: Comment)
    requires kept in Newest(rows)
    requires dropped in multiset(rows) - multiset(Newest(rows))
    ensures dropped.createdAt <= kept.createdAt
  {
    var s := Sort(rows, Descending);
    var r := Newest(rows);
    var n := |r|;
    SortSorted(rows, Descending);
    SortPermutes(rows, Descending);
    assert s == r + s[n..];
    assert multiset(s) == multiset(r) + multiset(s[n..]);
    assert dropped in multiset(s[n..]);
    var j :| 0 <= j < |s[n..]| && s[n..][j] == dropped;
    var i :| 0 <= i < n && r[i] == kept;
    assert InOrder(s[i], s[n + j], Descending);
  }
}
