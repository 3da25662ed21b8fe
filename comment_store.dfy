/**
 * The `comments` table of the D1 database: its rows, the ordering the
 * queries ask for (`ORDER BY created_at`), and the table itself as an object
 * whose rows an INSERT extends.
 */
module CommentStore {
  import opened Wrappers
  import opened JsStrings

  /** One row of `comments`. Time is whole seconds; `approved` is the 0/1
      column. */
  datatype Comment = Comment(
    id: int,
    postSlug: JsString,
    parentId: Option<int>,
    name: JsString,
    email: Option<JsString>,
    content: JsString,
    createdAt: int,
    approved: bool,
    ipHash: JsString)

  /** The table's contents and the id the next INSERT receives. */
  datatype TableState = TableState(rows: seq<Comment>, nextId: int)

  /** Row ids are positive, below the next id, and increase along the table,
      so no two rows share an id. */
  predicate WellFormed(t: TableState) {
    && t.nextId >= 1
    && (forall i | 0 <= i < |t.rows| :: 1 <= t.rows[i].id < t.nextId)
    && (forall i, j | 0 <= i < j < |t.rows| :: t.rows[i].id < t.rows[j].id)
  }

  /** Appending a row under the next id and advancing the counter keeps the
      table well formed. */
  lemma AppendKeepsWellFormed(t: TableState, c: Comment)
    requires WellFormed(t) && c.id == t.nextId
    ensures WellFormed(TableState(t.rows + [c], t.nextId + 1))
  {
  }

  function Ids(rows: seq<Comment>): seq<int> {
    seq(|rows|, i requires 0 <= i < |rows| => rows[i].id)
  }

  // ---------------------------------------------------------------------
  // ORDER BY created_at
  // ---------------------------------------------------------------------

  datatype Direction = Ascending | Descending

  predicate InOrder(a: Comment, b: Comment, dir: Direction) {
    if dir == Ascending then a.createdAt <= b.createdAt else a.createdAt >= b.createdAt
  }

  predicate Sorted(s: seq<Comment>, dir: Direction) {
    forall i, j | 0 <= i < j < |s| :: InOrder(s[i], s[j], dir)
  }

  /** Places x before the first row it may precede. */
  function Insert(x: Comment, s: seq<Comment>, dir: Direction): (r: seq<Comment>)
    ensures |r| == |s| + 1
  {
    if s == [] || InOrder(x, s[0], dir) then [x] + s
    else [s[0]] + Insert(x, s[1..], dir)
  }

  /** Ordering by creation time, oldest or newest first: the rows
      rearranged into order. Rows with equal times keep their table order. */
  function Sort(s: seq<Comment>, dir: Direction): (r: seq<Comment>)
    ensures |r| == |s|
  {
    if s == [] then [] else Insert(s[0], Sort(s[1..], dir), dir)
  }

  /** Inserting into a sorted sequence keeps it sorted; the result starts
      with x or with the old first row. */
  lemma {:induction false} InsertSorted(x: Comment, s: seq<Comment>, dir: Direction)
    requires Sorted(s, dir)
    ensures Sorted(Insert(x, s, dir), dir)
    ensures Insert(x, s, dir)[0] == x || (s != [] && Insert(x, s, dir)[0] == s[0])
  {
    if s != [] && !InOrder(x, s[0], dir) {
      var t := Insert(x, s[1..], dir);
      InsertSorted(x, s[1..], dir);
      assert InOrder(s[0], t[0], dir);
      assert Insert(x, s, dir) == [s[0]] + t;
    }
  }

  /** Inserting adds x and nothing else. */
  lemma {:induction false} InsertPermutes(x: Comment, s: seq<Comment>, dir: Direction)
    ensures multiset(Insert(x, s, dir)) == multiset(s) + multiset{x}
  {
    if s != [] && !InOrder(x, s[0], dir) {
      InsertPermutes(x, s[1..], dir);
      assert s == [s[0]] + s[1..];
    }
  }

  /** The sorted rows are in order. */
  lemma {:induction false} SortSorted(s: seq<Comment>, dir: Direction)
    ensures Sorted(Sort(s, dir), dir)
  {
    if s != [] {
      SortSorted(s[1..], dir);
      InsertSorted(s[0], Sort(s[1..], dir), dir);
    }
  }

  /** Sorting rearranges the rows: no row is lost or duplicated. */
  lemma {:induction false} SortPermutes(s: seq<Comment>, dir: Direction)
    ensures multiset(Sort(s, dir)) == multiset(s)
  {
    if s != [] {
      SortPermutes(s[1..], dir);
      InsertPermutes(s[0], Sort(s[1..], dir), dir);
      assert s == [s[0]] + s[1..];
    }
  }

  lemma IdsCons(x: Comment, s: seq<Comment>)
    ensures Ids([x] + s) == [x.id] + Ids(s)
  {
  }

  lemma {:induction false} InsertKeepsIds(x: Comment, s: seq<Comment>, dir: Direction)
    ensures multiset(Ids(Insert(x, s, dir))) == multiset(Ids(s)) + multiset{x.id}
  {
    if s == [] || InOrder(x, s[0], dir) {
      IdsCons(x, s);
    } else {
      InsertKeepsIds(x, s[1..], dir);
      var t := Insert(x, s[1..], dir);
      IdsCons(s[0], t);
      IdsCons(s[0], s[1..]);
      assert [s[0]] + s[1..] == s;
    }
  }

  lemma IdsStep(x: Comment, rest: seq<Comment>, t: seq<Comment>, u: seq<Comment>)
    requires multiset(Ids(t)) == multiset(Ids(rest))
    requires multiset(Ids(u)) == multiset(Ids(t)) + multiset{x.id}
    ensures multiset(Ids(u)) == multiset(Ids([x] + rest))
  {
    IdsCons(x, rest);
  }

  /** Sorting moves rows, never duplicates or drops an id. */
  lemma {:induction false} SortKeepsIds(s: seq<Comment>, dir: Direction)
    ensures multiset(Ids(Sort(s, dir))) == multiset(Ids(s))
  {
    if s != [] {
      var t := Sort(s[1..], dir);
      SortKeepsIds(s[1..], dir);
      InsertKeepsIds(s[0], t, dir);
      IdsStep(s[0], s[1..], t, Insert(s[0], t, dir));
      assert [s[0]] + s[1..] == s;
    }
  }

  // ---------------------------------------------------------------------
  // The table
  // ---------------------------------------------------------------------

  /** The D1 table as the server function sees it through its binding. */
  class CommentsTable {
    var rows: seq<Comment>
    var nextId: int

    function State(): TableState
      reads this
    {
      TableState(rows, nextId)
    }

    ghost predicate Valid()
      reads this
    {
      WellFormed(State())
    }

    constructor ()
      ensures Valid() && rows == [] && nextId == 1
    {
      rows := [];
      nextId := 1;
    }

    /** The INSERT of `onRequestPost`: the row is stored approved, under
        the next id and the current time, and that id is returned as
        `last_row_id`. */
    method Insert(postSlug: JsString, parentId: Option<int>, name: JsString, email: Option<JsString>,
                  content: JsString, ipHash: JsString, now: int) returns (id: int)
      requires Valid()
      modifies this
      ensures Valid()
      ensures id == old(nextId) && nextId == old(nextId) + 1
      ensures rows == old(rows) + [Comment(id, postSlug, parentId, name, email, content, now, true, ipHash)]
    {
      id := nextId;
      rows := rows + [Comment(id, postSlug, parentId, name, email, content, now, true, ipHash)];
      nextId := nextId + 1;
    }
  }
}
