/**
 The list of jobs, a page at a time: newest first, each page picking up where a cursor says.
 */
module JobListing {
  import opened Options
  import opened Ordering
  import opened JobCursor
  import opened CursorTexts

  /** What the list shows of a job. */
  datatype Row = Row(key: Key, status: string, extensionId: string, rest: string)

  datatype Filter = Filter(extensionId: string, status: string)

  datatype Page = Page(rows: seq<Row>, next: Option<Key>)

  /** A page as it is sent, with the text of its cursor. */
  datatype Reply = Reply(rows: seq<Row>, cursor: Option<string>)

  /** An empty filter lets everything through. */
  predicate Matches(row: Row, f: Filter) {
    (f.extensionId == "" || row.extensionId == f.extensionId) && (f.status == "" || row.status == f.status)
  }

  predicate KeyBefore(a: Key, b: Key) {
    Before(a.updatedAt, b.updatedAt) || (a.updatedAt == b.updatedAt && Before(a.id, b.id))
  }

  lemma KeyOrder(a: Key, b: Key)
    ensures KeyBefore(a, b) || a == b || KeyBefore(b, a)
    ensures !(KeyBefore(a, b) && (a == b || KeyBefore(b, a)))
  {
    BeforeTotal(a.updatedAt, b.updatedAt);
    BeforeTotal(a.id, b.id);
  }

  lemma KeyTransitive(a: Key, b: Key, c: Key)
    requires KeyBefore(a, b) && KeyBefore(b, c)
    ensures KeyBefore(a, c)
  {
    BeforeTotal(a.updatedAt, b.updatedAt);
    BeforeTotal(b.updatedAt, c.updatedAt);
    if a.updatedAt == b.updatedAt == c.updatedAt {
      BeforeTransitive(a.id, b.id, c.id);
    } else if a.updatedAt != b.updatedAt && b.updatedAt != c.updatedAt {
      BeforeTransitive(a.updatedAt, b.updatedAt, c.updatedAt);
    }
  }

  /** An older row: its timestamp comes first in text order, or its identifier when they agree. */
  ghost predicate Older(a: Key, b: Key) {
    Precedes(a.updatedAt, b.updatedAt) || (a.updatedAt == b.updatedAt && Precedes(a.id, b.id))
  }

  lemma OlderExact(a: Key, b: Key)
    ensures KeyBefore(a, b) <==> Older(a, b)
  {
    BeforeExact(a.updatedAt, b.updatedAt);
    BeforeExact(a.id, b.id);
  }

  // ----- Newest first

  function Insert(x: Row, s: seq<Row>): seq<Row> {
    if s == [] then [x]
    else if KeyBefore(x.key, s[0].key) then [s[0]] + Insert(x, s[1..])
    else [x] + s
  }

  function Sorted(rows: seq<Row>): seq<Row> {
    if rows == [] then [] else Insert(rows[0], Sorted(rows[1..]))
  }

  ghost predicate Descending(s: seq<Row>) {
    forall i, j :: 0 <= i < j < |s| ==> KeyBefore(s[j].key, s[i].key)
  }

  /** Different jobs stand in different places. */
  ghost predicate KeysDiffer(rows: seq<Row>) {
    forall i, j :: 0 <= i < j < |rows| ==> rows[i].key != rows[j].key
  }

  lemma {:induction false} InsertSameRows(x: Row, s: seq<Row>)
    ensures forall r :: r in Insert(x, s) <==> r == x || r in s
    ensures |Insert(x, s)| == |s| + 1
  {
    if s != [] {
      InsertSameRows(x, s[1..]);
      assert s == [s[0]] + s[1..];
    }
  }

  lemma {:induction false} InsertDescends(x: Row, s: seq<Row>)
    requires Descending(s) && forall r :: r in s ==> r.key != x.key
    ensures Descending(Insert(x, s))
  {
    if s != [] {
      KeyOrder(x.key, s[0].key);
      if KeyBefore(x.key, s[0].key) {
        InsertDescends(x, s[1..]);
        InsertSameRows(x, s[1..]);
        var rest := Insert(x, s[1..]);
        forall j | 0 <= j < |rest| ensures KeyBefore(rest[j].key, s[0].key) {
          assert rest[j] in rest;
        }
      } else {
        forall j | 0 <= j < |s| ensures KeyBefore(s[j].key, x.key) {
          if j > 0 {
            KeyTransitive(s[j].key, s[0].key, x.key);
          }
        }
      }
    }
  }

  lemma {:induction false} SortedSameRows(rows: seq<Row>)
    ensures forall r :: r in Sorted(rows) <==> r in rows
    ensures |Sorted(rows)| == |rows|
  {
    if rows != [] {
      SortedSameRows(rows[1..]);
      InsertSameRows(rows[0], Sorted(rows[1..]));
      assert rows == [rows[0]] + rows[1..];
    }
  }

  lemma {:induction false} SortedDescends(rows: seq<Row>)
    requires KeysDiffer(rows)
    ensures Descending(Sorted(rows))
  {
    if rows != [] {
      SortedDescends(rows[1..]);
      SortedSameRows(rows[1..]);
      InsertDescends(rows[0], Sorted(rows[1..]));
    }
  }

  /** Rows in descending order are in the only such order. */
  lemma {:induction false} DescendingIsUnique(a: seq<Row>, b: seq<Row>)
    requires Descending(a) && Descending(b) && forall r :: r in a <==> r in b
    ensures a == b
  {
    assert a != [] ==> a[0] in a;
    assert b != [] ==> b[0] in b;
    if a != [] && b != [] {
      KeyOrder(a[0].key, b[0].key);
      forall r ensures r in a[1..] <==> r in b[1..] {
        InTail(a, r);
        InTail(b, r);
      }
      DescendingIsUnique(a[1..], b[1..]);
    }
  }

  lemma InTail(s: seq<Row>, r: Row)
    requires s != [] && Descending(s)
    ensures r in s[1..] <==> r in s && r != s[0]
  {
    assert s == [s[0]] + s[1..];
    KeyOrder(s[0].key, s[0].key);
    if r in s[1..] {
      var k :| 0 <= k < |s[1..]| && s[1..][k] == r;
      assert s[k + 1] == r;
    }
  }

  // ----- One page

  function Matching(rows: seq<Row>, f: Filter): seq<Row> {
    if rows == [] then []
    else (if Matches(rows[0], f) then [rows[0]] else []) + Matching(rows[1..], f)
  }

  function Below(rows: seq<Row>, cursor: Key): seq<Row> {
    if rows == [] then []
    else (if KeyBefore(rows[0].key, cursor) then [rows[0]] else []) + Below(rows[1..], cursor)
  }

  lemma {:induction false} MatchingRows(rows: seq<Row>, f: Filter)
    ensures forall r :: r in Matching(rows, f) <==> r in rows && Matches(r, f)
    ensures KeysDiffer(rows) ==> KeysDiffer(Matching(rows, f))
  {
    if rows != [] {
      MatchingRows(rows[1..], f);
      assert rows == [rows[0]] + rows[1..];
      if KeysDiffer(rows) {
        forall r | r in Matching(rows[1..], f) ensures r.key != rows[0].key {
          assert r in rows[1..];
        }
      }
    }
  }

  /** A limit is kept between one and a hundred. */
  function Clamped(limit: int): int {
    var upper := if limit < 100 then limit else 100;
    if upper > 1 then upper else 1
  }

  /** A page of rows in order, from a cursor on. */
  function PageOf(sorted: seq<Row>, limit: int, cursor: Option<Key>): Page {
    var rows := if cursor.Some? then Below(sorted, cursor.value) else sorted;
    var n := Clamped(limit);
    if |rows| > n then Page(rows[..n], Some(rows[n - 1].key)) else Page(rows, None)
  }

  /** One page of a directory, in whatever order it is read. */
  function ListPage(rows: seq<Row>, f: Filter, limit: int, cursor: Option<Key>): Page {
    PageOf(Sorted(Matching(rows, f)), limit, cursor)
  }

  function TextOf(next: Option<Key>): Option<string> {
    if next.None? then None else Some(EncodeCursor(next.value))
  }

  function Sent(page: Page): Reply {
    Reply(page.rows, TextOf(page.next))
  }

  /** What a page is taken from: rows that both filters let through, older than the cursor. */
  ghost predicate Eligible(row: Row, f: Filter, cursor: Option<Key>) {
    && (f.extensionId != "" ==> row.extensionId == f.extensionId)
    && (f.status != "" ==> row.status == f.status)
    && (cursor.Some? ==> Older(row.key, cursor.value))
  }

  /** The newest of them, newest first... */
  ghost predicate Newest(page: seq<Row>, rows: seq<Row>, f: Filter, cursor: Option<Key>) {
    && (forall r :: r in page ==> r in rows && Eligible(r, f, cursor))
    && (forall i, j :: 0 <= i < j < |page| ==> Older(page[j].key, page[i].key))
    && (forall r, k :: r in rows && Eligible(r, f, cursor) && r !in page && 0 <= k < |page| ==>
                         Older(r.key, page[k].key))
  }

  /** ...and as many as were asked for, as long as some are left: at least one, a hundred at most. */
  ghost predicate AsAsked(page: seq<Row>, left: bool, limit: int) {
    if limit < 1 then |page| <= 1 && (left ==> |page| == 1)
    else if limit > 100 then |page| <= 100 && (left ==> |page| == 100)
    else |page| <= limit && (left ==> |page| == limit)
  }

  ghost predicate IsLeft(page: seq<Row>, rows: seq<Row>, f: Filter, cursor: Option<Key>) {
    exists r :: r in rows && Eligible(r, f, cursor) && r !in page
  }

  /** A page of the list, and a cursor at its last row exactly when rows are left. */
  ghost predicate IsPage(r: Reply, rows: seq<Row>, f: Filter, limit: int, cursor: Option<Key>) {
    var left := IsLeft(r.rows, rows, f, cursor);
    && Newest(r.rows, rows, f, cursor)
    && AsAsked(r.rows, left, limit)
    && (left <==> r.cursor.Some?)
    && (left ==> r.rows != [] && r.cursor.Some? && IsCursorOf(r.cursor.value, r.rows[|r.rows| - 1].key))
  }

  lemma {:induction false} BelowRows(s: seq<Row>, cursor: Key)
    ensures forall r :: r in Below(s, cursor) <==> r in s && KeyBefore(r.key, cursor)
    ensures Descending(s) ==> Descending(Below(s, cursor))
  {
    if s != [] {
      BelowRows(s[1..], cursor);
      assert s == [s[0]] + s[1..];
      if Descending(s) {
        var rest := Below(s[1..], cursor);
        forall j | 0 <= j < |rest| ensures KeyBefore(rest[j].key, s[0].key) {
          assert rest[j] in rest && rest[j] in s[1..];
        }
      }
    }
  }

  lemma NewestFirst(list: seq<Row>, n: nat, rows: seq<Row>, f: Filter, cursor: Option<Key>)
    requires Descending(list) && n <= |list|
    requires forall r :: r in list <==> r in rows && Eligible(r, f, cursor)
    ensures Newest(list[..n], rows, f, cursor)
    ensures IsLeft(list[..n], rows, f, cursor) <==> n < |list|
  {
    forall i, j | 0 <= i < j < |list| ensures Older(list[j].key, list[i].key) && list[i] != list[j] {
      OlderExact(list[j].key, list[i].key);
      KeyOrder(list[i].key, list[i].key);
    }
    forall m | 0 <= m < n ensures list[m] in list[..n] {
      assert list[..n][m] == list[m];
    }
    forall r, k | r in list && r !in list[..n] && 0 <= k < n ensures Older(r.key, list[..n][k].key) {
      var m :| 0 <= m < |list| && list[m] == r;
    }
    if n < |list| {
      assert list[n] in list && list[n] !in list[..n];
    } else {
      assert list[..n] == list;
    }
  }

  /** The rows a page is cut from are the eligible ones. */
  lemma EligibleRows(rows: seq<Row>, f: Filter, cursor: Option<Key>) returns (list: seq<Row>)
    requires KeysDiffer(rows)
    ensures list == if cursor.Some? then Below(Sorted(Matching(rows, f)), cursor.value) else Sorted(Matching(rows, f))
    ensures Descending(list) && forall r :: r in list <==> r in rows && Eligible(r, f, cursor)
  {
    var sorted := Sorted(Matching(rows, f));
    MatchingRows(rows, f);
    SortedDescends(Matching(rows, f));
    SortedSameRows(Matching(rows, f));
    list := sorted;
    if cursor.Some? {
      BelowRows(sorted, cursor.value);
      list := Below(sorted, cursor.value);
      forall r: Row ensures KeyBefore(r.key, cursor.value) <==> Older(r.key, cursor.value) {
        OlderExact(r.key, cursor.value);
      }
    }
  }

  /** How many of them a page takes. */
  lemma PageSize(rows: seq<Row>, f: Filter, limit: int, cursor: Option<Key>, list: seq<Row>)
    requires list == if cursor.Some? then Below(Sorted(Matching(rows, f)), cursor.value) else Sorted(Matching(rows, f))
    ensures var page := ListPage(rows, f, limit, cursor);
            var n := |page.rows|;
            && n <= |list| && page.rows == list[..n] && AsAsked(page.rows, n < |list|, limit)
            && (n < |list| ==> n > 0 && page.next == Some(page.rows[n - 1].key))
            && (n == |list| ==> page.next == None)
  {
  }

  /** What a page is, whatever order the directory is read in. */
  lemma PageExact(rows: seq<Row>, f: Filter, limit: int, cursor: Option<Key>)
    requires KeysDiffer(rows)
    ensures IsPage(Sent(ListPage(rows, f, limit, cursor)), rows, f, limit, cursor)
  {
    var list := EligibleRows(rows, f, cursor);
    var page := ListPage(rows, f, limit, cursor);
    PageSize(rows, f, limit, cursor, list);
    NewestFirst(list, |page.rows|, rows, f, cursor);
    if page.next.Some? {
      CursorTexts.EncodeExact(page.next.value);
    }
  }

  method ListSummaryPage(rows: seq<Row>, f: Filter, limit: int, cursor: Option<Key>) returns (r: Reply)
    ensures r == Sent(ListPage(rows, f, limit, cursor))
    ensures KeysDiffer(rows) ==> IsPage(r, rows, f, limit, cursor)
  {
    var matching := CollectMatching(rows, f);
    var page := TakePage(Sorted(matching), limit, cursor);
    r := Sent(page);
    if KeysDiffer(rows) {
      PageExact(rows, f, limit, cursor);
    }
  }

  /** A request: a limit that is out of range and a cursor that cannot be read are refused. */
  function Request(rows: seq<Row>, f: Filter, limit: int, cursor: string): Option<Reply> {
    if !(1 <= limit <= 100) then None
    else if cursor == "" then Some(Sent(ListPage(rows, f, limit, None)))
    else
      var key := DecodeCursor(cursor);
      if key.None? then None else Some(Sent(ListPage(rows, f, limit, key)))
  }

  /** What is refused: a limit out of range, and a text that is no cursor of any position. */
  ghost predicate IsRefused(limit: int, cursor: string) {
    limit < 1 || limit > 100 || (cursor != "" && forall k :: !IsCursor(cursor, k))
  }

  /** What is answered: the page from the position that the text is a cursor of. */
  ghost predicate IsAnswer(r: Reply, rows: seq<Row>, f: Filter, limit: int, cursor: string) {
    if cursor == "" then IsPage(r, rows, f, limit, None)
    else exists k :: IsCursor(cursor, k) && IsPage(r, rows, f, limit, Some(k))
  }

  lemma RefusedExact(rows: seq<Row>, f: Filter, limit: int, cursor: string)
    ensures Request(rows, f, limit, cursor).None? <==> IsRefused(limit, cursor)
  {
    if DecodeCursor(cursor).Some? {
      CursorTexts.DecodeExact(cursor, DecodeCursor(cursor).value);
    }
    if k :| IsCursor(cursor, k) {
      CursorTexts.DecodeExact(cursor, k);
    }
  }

  lemma AnswerExact(rows: seq<Row>, f: Filter, limit: int, cursor: string)
    requires KeysDiffer(rows) && !IsRefused(limit, cursor)
    ensures var r := Request(rows, f, limit, cursor); r.Some? && IsAnswer(r.value, rows, f, limit, cursor)
  {
    RefusedExact(rows, f, limit, cursor);
    if cursor == "" {
      PageExact(rows, f, limit, None);
    } else {
      var key := DecodeCursor(cursor);
      CursorTexts.DecodeExact(cursor, key.value);
      PageExact(rows, f, limit, key);
    }
  }

  method HandleRequest(rows: seq<Row>, f: Filter, limit: int, cursor: string) returns (r: Option<Reply>)
    ensures r == Request(rows, f, limit, cursor)
    ensures r.None? <==> IsRefused(limit, cursor)
    ensures KeysDiffer(rows) && r.Some? ==> IsAnswer(r.value, rows, f, limit, cursor)
  {
    RefusedExact(rows, f, limit, cursor);
    if KeysDiffer(rows) && !IsRefused(limit, cursor) {
      AnswerExact(rows, f, limit, cursor);
    }
    if !(1 <= limit <= 100) {
      return None;
    }
    var key := None;
    if cursor != "" {
      key := DecodeCursor(cursor);
      if key.None? {
        return None;
      }
    }
    var reply := ListSummaryPage(rows, f, limit, key);
    r := Some(reply);
  }

  lemma MatchingStep(matching: seq<Row>, rows: seq<Row>, i: nat, f: Filter)
    requires i < |rows|
    ensures matching + Matching(rows[i..], f)
         == (if Matches(rows[i], f) then matching + [rows[i]] else matching) + Matching(rows[i + 1..], f)
  {
    assert rows[i..][1..] == rows[i + 1..];
    if Matches(rows[i], f) {
      var rest := Matching(rows[i + 1..], f);
      assert matching + ([rows[i]] + rest) == (matching + [rows[i]]) + rest;
    } else {
      assert [] + Matching(rows[i + 1..], f) == Matching(rows[i + 1..], f);
    }
  }

  method CollectMatching(rows: seq<Row>, f: Filter) returns (matching: seq<Row>)
    ensures matching == Matching(rows, f)
  {
    matching := [];
    for i := 0 to |rows|
      invariant matching + Matching(rows[i..], f) == Matching(rows, f)
    {
      MatchingStep(matching, rows, i, f);
      if f.extensionId != "" && rows[i].extensionId != f.extensionId {
        continue;
      }
      if f.status != "" && rows[i].status != f.status {
        continue;
      }
      matching := matching + [rows[i]];
    }
  }

  method TakePage(sorted: seq<Row>, limit: int, cursor: Option<Key>) returns (page: Page)
    ensures page == PageOf(sorted, limit, cursor)
  {
    var rows := sorted;
    if cursor.Some? {
      rows := Below(rows, cursor.value);
    }
    var taken := if |rows| < Clamped(limit) then rows else rows[..Clamped(limit)];
    var next := None;
    if |rows| > |taken| && taken != [] {
      next := Some(taken[|taken| - 1].key);
    }
    page := Page(taken, next);
  }

  /** Below the key of a row in order are the rows after it. */
  lemma {:induction false} BelowIsAfter(s: seq<Row>, i: nat)
    requires Descending(s) && i < |s|
    ensures Below(s, s[i].key) == s[i + 1..]
  {
    KeyOrder(s[0].key, s[i].key);
    if i > 0 {
      BelowIsAfter(s[1..], i - 1);
    } else {
      AllBelow(s[1..], s[0].key);
    }
  }

  lemma {:induction false} AllBelow(s: seq<Row>, cursor: Key)
    requires forall i :: 0 <= i < |s| ==> KeyBefore(s[i].key, cursor)
    ensures Below(s, cursor) == s
  {
    if s != [] {
      AllBelow(s[1..], cursor);
    }
  }

  // ----- Page after page

  /** The directory as each request reads it: the same rows, in some order. */
  ghost predicate Unchanged(rows: nat -> seq<Row>) {
    (forall k :: KeysDiffer(rows(k))) && forall k, r :: r in rows(k) <==> r in rows(0)
  }

  function CursorBefore(walk: seq<Page>, k: nat): Option<Key>
    requires k <= |walk|
  {
    if k == 0 then None else walk[k - 1].next
  }

  /** The page a client gets for its next request, with a limit of its choice. */
  ghost predicate Answered(rows: nat -> seq<Row>, f: Filter, limits: nat -> int, walk: seq<Page>, k: nat)
    requires k < |walk|
  {
    (k > 0 ==> walk[k - 1].next.Some?) && walk[k] == ListPage(rows(k), f, limits(k), CursorBefore(walk, k))
  }

  /** A client that follows cursors. */
  ghost predicate IsWalk(rows: nat -> seq<Row>, f: Filter, limits: nat -> int, walk: seq<Page>) {
    forall k :: 0 <= k < |walk| ==> Answered(rows, f, limits, walk, k)
  }

  ghost function Collected(walk: seq<Page>): seq<Row> {
    if walk == [] then [] else Collected(walk[..|walk| - 1]) + walk[|walk| - 1].rows
  }

  /** Every request sees the same list, whatever order the directory is read in. */
  lemma SameList(rows: nat -> seq<Row>, f: Filter, k: nat)
    requires Unchanged(rows)
    ensures Sorted(Matching(rows(k), f)) == Sorted(Matching(rows(0), f))
    ensures Descending(Sorted(Matching(rows(0), f)))
  {
    MatchingRows(rows(k), f);
    MatchingRows(rows(0), f);
    SortedDescends(Matching(rows(k), f));
    SortedDescends(Matching(rows(0), f));
    SortedSameRows(Matching(rows(k), f));
    SortedSameRows(Matching(rows(0), f));
    DescendingIsUnique(Sorted(Matching(rows(k), f)), Sorted(Matching(rows(0), f)));
  }

  /** A page goes on from what is done, and its cursor says where it ends. */
  ghost predicate GoesOn(list: seq<Row>, done: nat, next: Option<Key>) {
    && done <= |list|
    && match next
       case Some(key) => 0 < done < |list| && key == list[done - 1].key
       case None => done == |list|
  }

  /** What the pages so far have collected is the beginning of the list, and the last cursor
      says where it ends. */
  lemma {:induction false} WalkCollects(rows: nat -> seq<Row>, f: Filter, limits: nat -> int, walk: seq<Page>)
    requires Unchanged(rows) && IsWalk(rows, f, limits, walk) && walk != []
    ensures var list, got := Sorted(Matching(rows(0), f)), Collected(walk);
            && GoesOn(list, |got|, walk[|walk| - 1].next) && got == list[..|got|]
            && (walk[|walk| - 1].next.Some? ==> |walk| <= |got|)
  {
    var list := Sorted(Matching(rows(0), f));
    var n := |walk| - 1;
    var before := walk[..n];
    SameList(rows, f, n);
    assert Answered(rows, f, limits, walk, n);
    if n > 0 {
      BeforeIsWalk(rows, f, limits, walk);
      WalkCollects(rows, f, limits, before);
      StepCollects(list, Collected(before), walk[n - 1].next, limits(n));
    } else {
      assert Collected(walk) == walk[0].rows;
      PageGoesOn(list, 0, limits(0), None);
    }
  }

  lemma StepCollects(list: seq<Row>, got: seq<Row>, next: Option<Key>, limit: int)
    requires Descending(list) && GoesOn(list, |got|, next) && got == list[..|got|] && next.Some?
    ensures var page := PageOf(list, limit, next);
            var more := got + page.rows;
            GoesOn(list, |more|, page.next) && more == list[..|more|] && (page.next.Some? ==> |got| < |more|)
  {
    var done := |got|;
    BelowIsAfter(list, done - 1);
    assert next.value == list[done - 1].key;
    PageGoesOn(list, done, limit, next);
    var page := PageOf(list, limit, next);
    assert |got + page.rows| == done + |page.rows|;
  }

  lemma BeforeIsWalk(rows: nat -> seq<Row>, f: Filter, limits: nat -> int, walk: seq<Page>)
    requires IsWalk(rows, f, limits, walk) && walk != []
    ensures IsWalk(rows, f, limits, walk[..|walk| - 1])
  {
    var before := walk[..|walk| - 1];
    forall k | 0 <= k < |before| ensures Answered(rows, f, limits, before, k) {
      assert Answered(rows, f, limits, walk, k);
      assert CursorBefore(before, k) == CursorBefore(walk, k);
    }
  }

  lemma CutOff(list: seq<Row>, done: nat, n: nat)
    requires 0 < n <= |list| - done
    ensures list[done..][..n] == list[done..done + n] && list[done..][n - 1] == list[done + n - 1]
  {
  }

  lemma FullPage(list: seq<Row>, done: nat, limit: int, rows: seq<Row>)
    requires done <= |list| && rows == list[done..] && |rows| > Clamped(limit)
    ensures var n := Clamped(limit);
            GoesOn(list, done + n, Some(rows[n - 1].key)) && list[..done] + rows[..n] == list[..done + n]
  {
    CutOff(list, done, Clamped(limit));
    TakenOn(list, done, done + Clamped(limit));
  }

  lemma LastPage(list: seq<Row>, done: nat, rows: seq<Row>)
    requires done <= |list| && rows == list[done..]
    ensures GoesOn(list, done + |rows|, None) && list[..done] + rows == list[..done + |rows|]
  {
  }

  lemma PageGoesOn(list: seq<Row>, done: nat, limit: int, cursor: Option<Key>)
    requires done <= |list| && list[done..] == if cursor.Some? then Below(list, cursor.value) else list
    ensures var page := PageOf(list, limit, cursor);
            var next := done + |page.rows|;
            && GoesOn(list, next, page.next) && list[..done] + page.rows == list[..next]
            && (page.next.Some? ==> done < next)
  {
    var rows := if cursor.Some? then Below(list, cursor.value) else list;
    if |rows| > Clamped(limit) {
      FullPage(list, done, limit, rows);
    } else {
      LastPage(list, done, rows);
    }
  }

  lemma TakenOn(list: seq<Row>, i: nat, j: nat)
    requires i <= j <= |list|
    ensures list[..i] + list[i..j] == list[..j]
  {
  }

  // ----- Cursor after cursor

  /** A job whose cursor a request can carry: `CursorRoundTrip` says that these are they. */
  ghost predicate Addressable(k: Key) {
    IsJobId(k.id) && 0 < |k.updatedAt| <= 64 && |EncodeCursor(k)| <= 256
  }

  ghost predicate AllAddressable(rows: nat -> seq<Row>) {
    forall r :: r in rows(0) ==> Addressable(r.key)
  }

  function CursorFor(replies: seq<Reply>, k: nat): string
    requires k <= |replies|
  {
    if k == 0 || replies[k - 1].cursor.None? then "" else replies[k - 1].cursor.value
  }

  /** A client that sends back the cursors it gets. */
  ghost predicate Follows(rows: nat -> seq<Row>, f: Filter, limits: nat -> int, replies: seq<Reply>) {
    forall k :: 0 <= k < |replies| ==> FollowsAt(rows, f, limits, replies, k)
  }

  ghost predicate FollowsAt(rows: nat -> seq<Row>, f: Filter, limits: nat -> int, replies: seq<Reply>, k: nat)
    requires k < |replies|
  {
    && (k > 0 ==> replies[k - 1].cursor.Some?)
    && Request(rows(k), f, limits(k), CursorFor(replies, k)) == Some(replies[k])
  }

  ghost predicate SameRows(replies: seq<Reply>, walk: seq<Page>) {
    |replies| == |walk| && forall k :: 0 <= k < |walk| ==> replies[k].rows == walk[k].rows
  }

  ghost predicate LastSent(replies: seq<Reply>, walk: seq<Page>) {
    |replies| == |walk| && (walk != [] ==> replies[|replies| - 1] == Sent(walk[|walk| - 1]))
  }

  /** The cursor of a page comes back as the key of its last row. */
  lemma CursorIsRead(rows: nat -> seq<Row>, f: Filter, limits: nat -> int, walk: seq<Page>)
    requires Unchanged(rows) && AllAddressable(rows) && IsWalk(rows, f, limits, walk)
    requires walk != [] && walk[|walk| - 1].next.Some?
    ensures DecodeCursor(EncodeCursor(walk[|walk| - 1].next.value)) == walk[|walk| - 1].next
  {
    var list := Sorted(Matching(rows(0), f));
    WalkCollects(rows, f, limits, walk);
    SortedSameRows(Matching(rows(0), f));
    MatchingRows(rows(0), f);
    assert list[|Collected(walk)| - 1] in list;
    CursorRoundTrip(walk[|walk| - 1].next.value);
  }

  lemma RequestIsRead(rows: seq<Row>, f: Filter, limit: int, key: Option<Key>, cursor: string)
    requires 1 <= limit <= 100
    requires if key.None? then cursor == "" else cursor == EncodeCursor(key.value) && DecodeCursor(cursor) == key
    ensures Request(rows, f, limit, cursor) == Some(Sent(ListPage(rows, f, limit, key)))
  {
    assert DecodeCursor("").None?;
  }

  lemma FollowsBefore(rows: nat -> seq<Row>, f: Filter, limits: nat -> int, replies: seq<Reply>)
    requires Follows(rows, f, limits, replies) && replies != []
    ensures Follows(rows, f, limits, replies[..|replies| - 1])
  {
    var before := replies[..|replies| - 1];
    forall k | 0 <= k < |before| ensures FollowsAt(rows, f, limits, before, k) {
      assert FollowsAt(rows, f, limits, replies, k);
      assert CursorFor(before, k) == CursorFor(replies, k);
    }
  }

  lemma WalkGoesOn(rows: nat -> seq<Row>, f: Filter, limits: nat -> int, walk: seq<Page>, page: Page)
    requires IsWalk(rows, f, limits, walk) && (walk != [] ==> walk[|walk| - 1].next.Some?)
    requires page == ListPage(rows(|walk|), f, limits(|walk|), CursorBefore(walk, |walk|))
    ensures IsWalk(rows, f, limits, walk + [page])
  {
    var more := walk + [page];
    forall k | 0 <= k < |more| ensures Answered(rows, f, limits, more, k) {
      assert k < |walk| ==> Answered(rows, f, limits, walk, k);
      assert CursorBefore(more, k) == CursorBefore(walk, k);
    }
  }

  /** The next reply is that of the next page. */
  lemma NextPage(rows: nat -> seq<Row>, f: Filter, limits: nat -> int, replies: seq<Reply>, walk: seq<Page>)
    returns (page: Page)
    requires Unchanged(rows) && AllAddressable(rows) && IsWalk(rows, f, limits, walk)
    requires |replies| == |walk| + 1 && LastSent(replies[..|walk|], walk) && FollowsAt(rows, f, limits, replies, |walk|)
    ensures page == ListPage(rows(|walk|), f, limits(|walk|), CursorBefore(walk, |walk|))
    ensures replies[|walk|] == Sent(page)
    ensures walk != [] ==> walk[|walk| - 1].next.Some?
  {
    var n := |walk|;
    var key := CursorBefore(walk, n);
    page := ListPage(rows(n), f, limits(n), key);
    if n > 0 {
      assert replies[..n][n - 1] == replies[n - 1] == Sent(walk[n - 1]);
      CursorIsRead(rows, f, limits, walk);
    }
    RequestIsRead(rows(n), f, limits(n), key, CursorFor(replies, n));
  }

  /** The walk one page further. */
  lemma OneMorePage(rows: nat -> seq<Row>, f: Filter, limits: nat -> int, replies: seq<Reply>, pages: seq<Page>)
    returns (walk: seq<Page>)
    requires Unchanged(rows) && AllAddressable(rows) && IsWalk(rows, f, limits, pages)
    requires |replies| == |pages| + 1 && FollowsAt(rows, f, limits, replies, |pages|)
    requires SameRows(replies[..|pages|], pages) && LastSent(replies[..|pages|], pages)
    ensures IsWalk(rows, f, limits, walk) && SameRows(replies, walk) && LastSent(replies, walk)
  {
    var page := NextPage(rows, f, limits, replies, pages);
    WalkGoesOn(rows, f, limits, pages, page);
    walk := pages + [page];
    forall k | 0 <= k < |walk| ensures replies[k].rows == walk[k].rows {
      assert k < |pages| ==> replies[..|pages|][k] == replies[k];
    }
  }

  /** The pages behind the replies. */
  lemma {:induction false} WalkBehind(rows: nat -> seq<Row>, f: Filter, limits: nat -> int, replies: seq<Reply>)
    returns (walk: seq<Page>)
    requires Unchanged(rows) && AllAddressable(rows) && Follows(rows, f, limits, replies)
    ensures IsWalk(rows, f, limits, walk) && SameRows(replies, walk) && LastSent(replies, walk)
    decreases |replies|
  {
    if replies == [] {
      walk := [];
    } else {
      var n := |replies| - 1;
      FollowsBefore(rows, f, limits, replies);
      var pages := WalkBehind(rows, f, limits, replies[..n]);
      assert FollowsAt(rows, f, limits, replies, n);
      walk := OneMorePage(rows, f, limits, replies, pages);
    }
  }

  /** No request of such a client is refused. */
  lemma NextIsAnswered(rows: nat -> seq<Row>, f: Filter, limits: nat -> int, replies: seq<Reply>)
    requires Unchanged(rows) && AllAddressable(rows) && Follows(rows, f, limits, replies)
    requires 1 <= limits(|replies|) <= 100
    ensures Request(rows(|replies|), f, limits(|replies|), CursorFor(replies, |replies|)).Some?
  {
    var walk := WalkBehind(rows, f, limits, replies);
    if walk != [] && walk[|walk| - 1].next.Some? {
      CursorIsRead(rows, f, limits, walk);
    }
    var key := CursorBefore(walk, |walk|);
    RequestIsRead(rows(|walk|), f, limits(|walk|), key, CursorFor(replies, |replies|));
  }

  ghost function Listed(replies: seq<Reply>): seq<Row> {
    if replies == [] then [] else Listed(replies[..|replies| - 1]) + replies[|replies| - 1].rows
  }

  lemma {:induction false} ListedIsCollected(replies: seq<Reply>, walk: seq<Page>)
    requires SameRows(replies, walk)
    ensures Listed(replies) == Collected(walk)
    decreases |walk|
  {
    if walk != [] {
      ListedIsCollected(replies[..|replies| - 1], walk[..|walk| - 1]);
    }
  }

  /** Following cursors to the end lists every matching job, once, newest first... */
  lemma WalkListsEveryJobOnce(rows: nat -> seq<Row>, f: Filter, limits: nat -> int, replies: seq<Reply>)
    requires Unchanged(rows) && AllAddressable(rows) && Follows(rows, f, limits, replies)
    requires replies != [] && replies[|replies| - 1].cursor.None?
    ensures var all := Listed(replies);
            && Descending(all)
            && (forall r :: r in all <==> r in rows(0) && Matches(r, f))
            && |all| == |Matching(rows(0), f)|
  {
    var walk := WalkBehind(rows, f, limits, replies);
    ListedIsCollected(replies, walk);
    var list := Sorted(Matching(rows(0), f));
    WalkCollects(rows, f, limits, walk);
    SameList(rows, f, 0);
    SortedSameRows(Matching(rows(0), f));
    MatchingRows(rows(0), f);
    assert list[..|list|] == list;
  }

  lemma PagesEnd(rows: nat -> seq<Row>, f: Filter, limits: nat -> int, walk: seq<Page>)
    requires Unchanged(rows) && IsWalk(rows, f, limits, walk) && |walk| > |Matching(rows(0), f)|
    ensures walk[|walk| - 1].next.None?
  {
    WalkCollects(rows, f, limits, walk);
    SortedSameRows(Matching(rows(0), f));
  }

  /** ...and the end comes, after no more pages than there are jobs. */
  lemma WalkEnds(rows: nat -> seq<Row>, f: Filter, limits: nat -> int, replies: seq<Reply>)
    requires Unchanged(rows) && AllAddressable(rows) && Follows(rows, f, limits, replies)
    ensures |replies| > |Matching(rows(0), f)| ==> replies[|replies| - 1].cursor.None?
  {
    if |replies| > |Matching(rows(0), f)| {
      var walk := WalkBehind(rows, f, limits, replies);
      PagesEnd(rows, f, limits, walk);
    }
  }
}
