/**
 * What the public comment endpoint promises across calls: which submissions
 * are accepted, the rate limit, the threading and escaping invariants of the
 * table, and that an accepted comment is listed by the read.
 */
module CommentsProperties {
  import opened Wrappers
  import opened JsStrings
  import opened CommentHelpers
  import opened CommentStore
  import opened CommentsApi

  /** A submission is accepted exactly when the body parses, passes the four
      checks, a binding exists, fewer than three recent comments share its
      address hash, and a truthy parent id names a row of the same post. */
  lemma PostAcceptedExactly(body: Option<PostBody>, ipHeader: Option<JsString>, db: Option<TableState>, now: int)
    ensures PostEffect(body, ipHeader, db, now).outcome.Created? <==>
      && body.Some? && ValidationFailure(body.value).None? && db.Some?
      && RecentCount(db.value.rows, IpHashOf(ipHeader), now) < RateLimit
      && (HasParent(body.value.parentId) ==>
            ParentExists(db.value.rows, body.value.parentId.value, Sanitize(body.value.post)))
  {
  }

  /** What an accepted submission did: it passed every check, and the new
      table is the old one with NewRow appended. */
  lemma Accepted(b: PostBody, ipHeader: Option<JsString>, t: TableState, now: int)
    requires PostEffect(Some(b), ipHeader, Some(t), now).outcome.Created?
    ensures ValidationFailure(b).None?
    ensures RecentCount(t.rows, IpHashOf(ipHeader), now) < RateLimit
    ensures HasParent(b.parentId) ==> ParentExists(t.rows, b.parentId.value, Sanitize(b.post))
    ensures PostEffect(Some(b), ipHeader, Some(t), now).table.value
         == TableState(t.rows + [NewRow(t.nextId, b, IpHashOf(ipHeader), now)], t.nextId + 1)
  {
    PostEffectAfterChecks(b, ipHeader, t, now);
    StoreEffectCases(b, ipHeader, t, now);
  }

  /** The row an accepted submission adds: sanitised post, name, content and
      email, no parent for a falsy parent id, approved, stamped with the
      current time and the hash of the client address. */
  lemma CreatedRow(b: PostBody, ipHeader: Option<JsString>, t: TableState, now: int)
    requires PostEffect(Some(b), ipHeader, Some(t), now).outcome.Created?
    ensures var rows := PostEffect(Some(b), ipHeader, Some(t), now).table.value.rows;
            var row := rows[|t.rows|];
            && row.id == t.nextId
            && row.postSlug == Sanitize(b.post) && row.name == Sanitize(b.name)
            && row.content == Sanitize(b.content)
            && row.email == (if Truthy(b.email) then Some(Sanitize(b.email)) else None)
            && row.parentId == (if HasParent(b.parentId) then b.parentId else None)
            && row.approved && row.createdAt == now
            && row.ipHash == HexString(Hash(ClientIP(ipHeader)))
  {
    Accepted(b, ipHeader, t, now);
  }

  /** Without a binding the handler answers from the body alone: it never
      reads the address, the clock or a table, and never accepts. */
  lemma NoBindingNoStore(body: Option<PostBody>, ip1: Option<JsString>, ip2: Option<JsString>, t1: int, t2: int)
    ensures PostEffect(body, ip1, None, t1) == PostEffect(body, ip2, None, t2)
    ensures PostEffect(body, ip1, None, t1).outcome in
              {Failed, MissingFields, NameTooLong, ContentTooLong, InvalidEmail, NotConfigured}
  {
  }

  /** Which reply each refusal gets, in the order the handler checks: a body
      that is not JSON 500, a failed check its 400, no binding 503, three
      recent comments from the address 429, an unknown parent 400; an
      accepted comment 201. */
  lemma PostStatuses(body: Option<PostBody>, ipHeader: Option<JsString>, db: Option<TableState>, now: int)
    ensures var o := PostEffect(body, ipHeader, db, now).outcome;
      && (body.None? ==> o == Failed && PostStatus(o) == 500)
      && (body.Some? && ValidationFailure(body.value).Some? ==>
            o == ValidationFailure(body.value).value && PostStatus(o) == 400)
      && (body.Some? && ValidationFailure(body.value).None? && db.None? ==>
            o == NotConfigured && PostStatus(o) == 503)
      && (body.Some? && ValidationFailure(body.value).None? && db.Some?
          && RecentCount(db.value.rows, IpHashOf(ipHeader), now) >= RateLimit ==>
            o == TooManyComments && PostStatus(o) == 429)
      && (body.Some? && ValidationFailure(body.value).None? && db.Some?
          && RecentCount(db.value.rows, IpHashOf(ipHeader), now) < RateLimit
          && HasParent(body.value.parentId)
          && !ParentExists(db.value.rows, body.value.parentId.value, Sanitize(body.value.post)) ==>
            o == ParentNotFound && PostStatus(o) == 400)
      && (o.Created? ==> PostStatus(o) == 201)
  {
    var o := PostEffect(body, ipHeader, db, now).outcome;
    if body.Some? && ValidationFailure(body.value).None? && db.Some? {
      PostEffectAfterChecks(body.value, ipHeader, db.value, now);
      StoreStatuses(body.value, ipHeader, db.value, now);
    }
  }

  /** The refusals after the checks on the raw body: the rate limit first,
      then the parent. */
  lemma StoreStatuses(b: PostBody, ipHeader: Option<JsString>, t: TableState, now: int)
    ensures var o := StoreEffect(b, ipHeader, t, now).outcome;
      && (RecentCount(t.rows, IpHashOf(ipHeader), now) >= RateLimit ==> o == TooManyComments)
      && (RecentCount(t.rows, IpHashOf(ipHeader), now) < RateLimit
          && HasParent(b.parentId) && !ParentExists(t.rows, b.parentId.value, Sanitize(b.post)) ==>
            o == ParentNotFound)
      && (o == TooManyComments || o == ParentNotFound || o == Created(t.nextId))
  {
    StoreEffectCases(b, ipHeader, t, now);
  }

  lemma RecentCountAppend(rows: seq<Comment>, c: Comment, ipHash: JsString, now: int)
    ensures RecentCount(rows + [c], ipHash, now)
         == RecentCount(rows, ipHash, now) + (if IsRecentFrom(c, ipHash, now) then 1 else 0)
  {
    assert (rows + [c])[..|rows|] == rows;
  }

  /** An accepted submission adds one comment from its address to the
      count of any window that contains its time. */
  lemma AcceptedCounts(b: PostBody, ipHeader: Option<JsString>, t: TableState, now: int, later: int)
    requires PostEffect(Some(b), ipHeader, Some(t), now).outcome.Created?
    requires later - RateWindow < now
    ensures var t' := PostEffect(Some(b), ipHeader, Some(t), now).table.value;
            RecentCount(t'.rows, IpHashOf(ipHeader), later) == RecentCount(t.rows, IpHashOf(ipHeader), later) + 1
  {
    Accepted(b, ipHeader, t, now);
    RecentCountAppend(t.rows, NewRow(t.nextId, b, IpHashOf(ipHeader), now), IpHashOf(ipHeader), later);
  }

  /** Three comments accepted from one address: a fourth from it, less than
      a minute after each of them, is refused with 429 whatever it says. */
  lemma FourthWithinAMinuteRefused(
    t0: TableState, b1: PostBody, b2: PostBody, b3: PostBody, b4: PostBody,
    ipHeader: Option<JsString>, now1: int, now2: int, now3: int, now4: int)
    requires PostEffect(Some(b1), ipHeader, Some(t0), now1).outcome.Created?
    requires PostEffect(Some(b2), ipHeader, PostEffect(Some(b1), ipHeader, Some(t0), now1).table, now2).outcome.Created?
    requires PostEffect(Some(b3), ipHeader,
               PostEffect(Some(b2), ipHeader, PostEffect(Some(b1), ipHeader, Some(t0), now1).table, now2).table,
               now3).outcome.Created?
    requires now4 - RateWindow < now1 && now4 - RateWindow < now2 && now4 - RateWindow < now3
    requires ValidationFailure(b4).None?
    ensures var t3 := PostEffect(Some(b3), ipHeader,
                        PostEffect(Some(b2), ipHeader, PostEffect(Some(b1), ipHeader, Some(t0), now1).table, now2).table,
                        now3).table;
            PostEffect(Some(b4), ipHeader, t3, now4).outcome == TooManyComments
  {
    var t1 := PostEffect(Some(b1), ipHeader, Some(t0), now1).table.value;
    var t2 := PostEffect(Some(b2), ipHeader, Some(t1), now2).table.value;
    var t3 := PostEffect(Some(b3), ipHeader, Some(t2), now3).table.value;
    var h := IpHashOf(ipHeader);
    AcceptedCounts(b1, ipHeader, t0, now1, now4);
    AcceptedCounts(b2, ipHeader, t1, now2, now4);
    AcceptedCounts(b3, ipHeader, t2, now3, now4);
    assert RecentCount(t3.rows, h, now4) >= 3;
    PostEffectAfterChecks(b4, ipHeader, t3, now4);
  }

  // ---------------------------------------------------------------------
  // Invariants of the table under accepted submissions
  // ---------------------------------------------------------------------

  /** Row i's parent is an earlier row of the same post. */
  predicate ParentEarlier(rows: seq<Comment>, i: int)
    requires 0 <= i < |rows|
  {
    rows[i].parentId.Some? ==>
      exists j | 0 <= j < i :: rows[j].id == rows[i].parentId.value && rows[j].postSlug == rows[i].postSlug
  }

  /** Every reply points at an earlier comment of the same post, so the
      replies form a forest per post. */
  predicate ParentsResolve(rows: seq<Comment>) {
    forall i | 0 <= i < |rows| :: ParentEarlier(rows, i)
  }

  /** No stored text field holds `<`, `>`, `"` or `'`. */
  predicate Escaped(c: Comment) {
    && FreeOfEscaped(c.postSlug) && FreeOfEscaped(c.name) && FreeOfEscaped(c.content)
    && (c.email.Some? ==> FreeOfEscaped(c.email.value))
  }

  predicate AllEscaped(rows: seq<Comment>) {
    forall i | 0 <= i < |rows| :: Escaped(rows[i])
  }

  /** Appending a row that is escaped and whose parent is a row of its post
      keeps the table threaded and escaped. */
  lemma AppendKeepsInvariants(rows: seq<Comment>, row: Comment)
    requires ParentsResolve(rows) && AllEscaped(rows) && Escaped(row)
    requires row.parentId.Some? ==> ParentExists(rows, row.parentId.value, row.postSlug)
    ensures ParentsResolve(rows + [row]) && AllEscaped(rows + [row])
  {
    var rows' := rows + [row];
    var n := |rows|;
    forall i | 0 <= i < |rows'| ensures ParentEarlier(rows', i) && Escaped(rows'[i]) {
      if i < n {
        assert rows'[i] == rows[i];
        assert ParentEarlier(rows, i);
        if rows[i].parentId.Some? {
          var j :| 0 <= j < i && rows[j].id == rows[i].parentId.value && rows[j].postSlug == rows[i].postSlug;
          assert rows'[j] == rows[j];
        }
      } else if row.parentId.Some? {
        var k :| 0 <= k < n && rows[k].id == row.parentId.value && rows[k].postSlug == row.postSlug;
        assert rows'[k] == rows[k];
      }
    }
  }

  /** Submissions keep the table well formed, threaded within one post and
      free of the four escaped characters. */
  lemma PostKeepsInvariants(body: Option<PostBody>, ipHeader: Option<JsString>, t: TableState, now: int)
    requires WellFormed(t) && ParentsResolve(t.rows) && AllEscaped(t.rows)
    ensures var t' := PostEffect(body, ipHeader, Some(t), now).table.value;
            WellFormed(t') && ParentsResolve(t'.rows) && AllEscaped(t'.rows)
  {
    var s := PostEffect(body, ipHeader, Some(t), now);
    if s.outcome.Created? {
      var b := body.value;
      Accepted(b, ipHeader, t, now);
      var row := NewRow(t.nextId, b, IpHashOf(ipHeader), now);
      assert Escaped(row);
      AppendKeepsInvariants(t.rows, row);
    }
  }

  /** In a well-formed table a reply's parent has a smaller id, so following
      parents always ends. */
  lemma ParentIdsSmaller(rows: seq<Comment>, i: int)
    requires forall a, b | 0 <= a < b < |rows| :: rows[a].id < rows[b].id
    requires ParentsResolve(rows)
    requires 0 <= i < |rows| && rows[i].parentId.Some?
    ensures rows[i].parentId.value < rows[i].id
  {
    assert ParentEarlier(rows, i);
  }

  // ---------------------------------------------------------------------
  // The read sees what was written
  // ---------------------------------------------------------------------

  lemma {:induction false} VisibleOnAppend(rows: seq<Comment>, c: Comment, slug: JsString)
    ensures VisibleOn(rows + [c], slug) == VisibleOn(rows, slug) + (if IsVisibleOn(c, slug) then [c] else [])
  {
    var last: seq<Comment> := if IsVisibleOn(c, slug) then [c] else [];
    if rows == [] {
      assert [c][1..] == [];
    } else {
      var first: seq<Comment> := if IsVisibleOn(rows[0], slug) then [rows[0]] else [];
      assert (rows + [c])[0] == rows[0];
      assert (rows + [c])[1..] == rows[1..] + [c];
      assert VisibleOn(rows + [c], slug) == first + VisibleOn(rows[1..] + [c], slug);
      VisibleOnAppend(rows[1..], c, slug);
      assert VisibleOn(rows, slug) == first + VisibleOn(rows[1..], slug);
      assert first + (VisibleOn(rows[1..], slug) + last) == (first + VisibleOn(rows[1..], slug)) + last;
    }
  }

  /** No row a read selects carries the next id. */
  lemma NextIdNotVisible(t: TableState, slug: JsString)
    requires WellFormed(t)
    ensures multiset(Ids(VisibleOn(t.rows, slug)))[t.nextId] == 0
  {
    var before := VisibleOn(t.rows, slug);
    VisibleOnMembers(t.rows, slug);
    forall k | 0 <= k < |before| ensures Ids(before)[k] != t.nextId {
      assert before[k] in t.rows;
    }
    assert t.nextId !in Ids(before);
  }

  /** Appending a visible row under the next id adds its id once to the
      ids a read of the post selects. */
  lemma AppendedIdOnce(t: TableState, row: Comment, slug: JsString)
    requires WellFormed(t) && row.id == t.nextId && IsVisibleOn(row, slug)
    ensures multiset(Ids(VisibleOn(t.rows + [row], slug)))[t.nextId] == 1
  {
    VisibleOnAppend(t.rows, row, slug);
    var before := VisibleOn(t.rows, slug);
    assert Ids(before + [row]) == Ids(before) + [row.id];
    NextIdNotVisible(t, slug);
  }

  /** A public entry that carries the appended row's id is that row's
      projection: every older row has a smaller id. */
  lemma EntryOfAppended(t: TableState, row: Comment, slug: JsString, p: PublicComment)
    requires WellFormed(t) && row.id == t.nextId
    requires FromVisibleRow(p, t.rows + [row], slug) && p.id == t.nextId
    ensures p == Public(row)
  {
    var c :| c in t.rows + [row] && IsVisibleOn(c, slug) && p == Public(c);
  }

  /** A read of a post after a visible row was appended under the next id
      lists that row exactly once. */
  lemma AppendedListedOnce(t: TableState, row: Comment, slug: JsString)
    requires WellFormed(t) && row.id == t.nextId && IsVisibleOn(row, slug) && slug != []
    ensures var reply := HandleGet(Bound(t.rows + [row]), Some(slug));
            && reply.Listing?
            && Public(row) in reply.comments
            && multiset(PublicIds(reply.comments))[t.nextId] == 1
  {
    var rows := t.rows + [row];
    AppendedIdOnce(t, row, slug);
    var list := HandleGet(Bound(rows), Some(slug)).comments;
    assert t.nextId in multiset(PublicIds(list));
    var k :| 0 <= k < |list| && PublicIds(list)[k] == t.nextId;
    EntryOfAppended(t, row, slug, list[k]);
  }

  /** An accepted comment is listed exactly once by a read of its sanitised
      post slug; a slug that sanitises to nothing cannot be read at all. */
  lemma NewCommentListedOnce(b: PostBody, ipHeader: Option<JsString>, t: TableState, now: int)
    requires WellFormed(t)
    requires PostEffect(Some(b), ipHeader, Some(t), now).outcome.Created?
    ensures var rows := PostEffect(Some(b), ipHeader, Some(t), now).table.value.rows;
            var slug := Sanitize(b.post);
            var reply := HandleGet(Bound(rows), Some(slug));
            && (slug == [] ==> reply.MissingPost?)
            && (slug != [] ==> reply.Listing?
                               && Public(rows[|t.rows|]) in reply.comments
                               && multiset(PublicIds(reply.comments))[t.nextId] == 1)
  {
    Accepted(b, ipHeader, t, now);
    var row := NewRow(t.nextId, b, IpHashOf(ipHeader), now);
    assert (t.rows + [row])[|t.rows|] == row;
    if Sanitize(b.post) != [] {
      AppendedListedOnce(t, row, Sanitize(b.post));
    }
  }

  /** The source validates the raw, untrimmed name: a name of spaces passes
      the presence check and is stored empty. */
  lemma BlankNameStoredEmpty()
    ensures var s := PostEffect(Some(PostBody(Some("p"), Some(" "), None, Some("c"), None)), None,
                                Some(TableState([], 1)), 0);
            s.outcome == Created(1) && s.table.value.rows[0].name == []
  {
    var b := PostBody(Some("p"), Some(" "), None, Some("c"), None);
    assert ValidationFailure(b).None?;
    PostEffectAfterChecks(b, None, TableState([], 1), 0);
    CreatedRow(b, None, TableState([], 1), 0);
    var sp: JsString := " ";
    assert LeadingSpaces(sp) == 1;
  }
}
