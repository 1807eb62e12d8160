/** Keyset pagination of the pending classification requests: forward and backward pages over a table in
    descending order of `(updated_at, normalized_key)`. */
module KeysetPagination {
  import opened Text

  datatype Key = Key(updatedAt: int, normalizedKey: string)

  datatype Row = Row(key: Key, status: string, baseUrl: Option<string>, lastError: Option<string>, requestedAt: int)

  datatype Direction = Next | Prev
  datatype Cursor = Cursor(direction: Direction, anchor: Key)

  datatype Page = Page(rows: seq<Row>, limit: nat, hasMore: bool, next: Option<Cursor>, prev: Option<Cursor>)

  /** Row comparison of SQL: lexicographic. */
  predicate KeyLess(a: Key, b: Key) {
    a.updatedAt < b.updatedAt || (a.updatedAt == b.updatedAt && Less(a.normalizedKey, b.normalizedKey))
  }

  lemma KeyOrder(a: Key, b: Key)
    ensures !(KeyLess(a, b) && KeyLess(b, a)) && !KeyLess(a, a)
  {
    LessTrichotomy(a.normalizedKey, b.normalizedKey);
    LessTrichotomy(a.normalizedKey, a.normalizedKey);
  }

  /** Different keys are always ordered, by the time first, and the order is transitive. */
  lemma KeyOrderIsTotal(a: Key, b: Key, c: Key)
    ensures a != b ==> KeyLess(a, b) || KeyLess(b, a)
    ensures KeyLess(a, b) && KeyLess(b, c) ==> KeyLess(a, c)
    ensures a.updatedAt < b.updatedAt ==> KeyLess(a, b)
  {
    LessTrichotomy(a.normalizedKey, b.normalizedKey);
    if Less(a.normalizedKey, b.normalizedKey) && Less(b.normalizedKey, c.normalizedKey) {
      LessTransitive(a.normalizedKey, b.normalizedKey, c.normalizedKey);
    }
  }

  /** The table in the order of the query; `normalized_key` is a primary key, so no two keys are equal. */
  predicate Descending(rows: seq<Row>) {
    forall i, j :: 0 <= i < j < |rows| ==> KeyLess(rows[j].key, rows[i].key)
  }

  // ---------- one page ----------

  /** `cursor_limit` */
  function CursorLimit(limit: Option<nat>): (r: nat)
    ensures 1 <= r <= 200
    ensures limit.None? ==> r == 50
    ensures limit.Some? && 1 <= limit.value <= 200 ==> r == limit.value
    ensures limit.Some? && !(1 <= limit.value <= 200) ==> r == if limit.value == 0 then 1 else 200
  {
    var n := if limit.Some? then limit.value else 50;
    if n < 1 then 1 else if n > 200 then 200 else n
  }

  function WithStatus(rows: seq<Row>, status: Option<string>): seq<Row> {
    if rows == [] then []
    else if status.None? || rows[0].status == status.value then [rows[0]] + WithStatus(rows[1..], status)
    else WithStatus(rows[1..], status)
  }

  function Below(rows: seq<Row>, anchor: Key): seq<Row> {
    if rows == [] then []
    else if KeyLess(rows[0].key, anchor) then [rows[0]] + Below(rows[1..], anchor)
    else Below(rows[1..], anchor)
  }

  function Above(rows: seq<Row>, anchor: Key): seq<Row> {
    if rows == [] then []
    else if KeyLess(anchor, rows[0].key) then [rows[0]] + Above(rows[1..], anchor)
    else Above(rows[1..], anchor)
  }

  function Reverse(rows: seq<Row>): (r: seq<Row>)
    ensures |r| == |rows| && forall i :: 0 <= i < |r| ==> r[i] == rows[|rows| - 1 - i]
  {
    seq(|rows|, i requires 0 <= i < |rows| => rows[|rows| - 1 - i])
  }

  function Take(rows: seq<Row>, n: nat): seq<Row> {
    if |rows| <= n then rows else rows[..n]
  }

  /** The query, up to `limit + 1` rows: descending below the anchor, or ascending above it. */
  function Fetch(rows: seq<Row>, limit: nat, cursor: Option<Cursor>): seq<Row> {
    match cursor
    case None => Take(rows, limit + 1)
    case Some(Cursor(Next, anchor)) => Take(Below(rows, anchor), limit + 1)
    case Some(Cursor(Prev, anchor)) => Take(Reverse(Above(rows, anchor)), limit + 1)
  }

  function PageOf(rows: seq<Row>, limit: nat, cursor: Option<Cursor>): Page {
    Finished(Fetch(rows, limit, cursor), limit, cursor)
  }

  /** Truncate what was fetched, and turn a backward page round. */
  function Finished(fetched: seq<Row>, limit: nat, cursor: Option<Cursor>): Page {
    var kept := Take(fetched, limit);
    var records := if cursor.Some? && cursor.value.direction.Prev? then Reverse(kept) else kept;
    Described(records, limit, |fetched| > limit, cursor.Some?)
  }

  /** The records of a page with its cursors: the last record for the next page, the first for the previous. */
  function Described(records: seq<Row>, limit: nat, hasMore: bool, hadCursor: bool): Page {
    Page(records, limit, hasMore,
         if hasMore && records != [] then Some(Cursor(Next, records[|records| - 1].key)) else None,
         if hadCursor && records != [] then Some(Cursor(Prev, records[0].key)) else None)
  }

  /** `list_pending`: fetch one row too many, truncate, reverse a backward page, name the cursors. */
  method ListPending(table: seq<Row>, status: Option<string>, requested: Option<nat>, cursor: Option<Cursor>)
    returns (page: Page)
    ensures page == PageOf(WithStatus(table, status), CursorLimit(requested), cursor)
  {
    var limit := CursorLimit(requested);
    var records := Fetch(WithStatus(table, status), limit, cursor);
    var hasMore := |records| > limit;
    if hasMore {
      records := records[..limit];
    }
    if cursor.Some? && cursor.value.direction.Prev? {
      records := Reverse(records);
    }
    var next, prev := None, None;
    if hasMore && records != [] {
      next := Some(Cursor(Next, records[|records| - 1].key));
    }
    if cursor.Some? && records != [] {
      prev := Some(Cursor(Prev, records[0].key));
    }
    page := Page(records, limit, hasMore, next, prev);
  }

  lemma {:induction false} FilterKeepsDescending(rows: seq<Row>, status: Option<string>)
    requires Descending(rows)
    ensures Descending(WithStatus(rows, status))
    ensures forall row :: row in WithStatus(rows, status) <==>
            row in rows && (status.Some? ==> row.status == status.value)
  {
    if rows != [] {
      FilterKeepsDescending(rows[1..], status);
      assert rows == [rows[0]] + rows[1..];
      var rest := WithStatus(rows[1..], status);
      forall i | 0 <= i < |rest| ensures KeyLess(rest[i].key, rows[0].key) {
        assert rest[i] in rest && rest[i] in rows[1..];
      }
    }
  }

  // ---------- anchors cut the table in two ----------

  lemma {:induction false} BelowIsSuffix(rows: seq<Row>, anchor: Key, i: nat)
    requires i <= |rows| && forall j :: 0 <= j < |rows| ==> (KeyLess(rows[j].key, anchor) <==> i <= j)
    ensures Below(rows, anchor) == rows[i..]
  {
    if rows != [] {
      BelowIsSuffix(rows[1..], anchor, if i == 0 then 0 else i - 1);
      assert i == 0 ==> rows == [rows[0]] + rows[1..];
      assert i > 0 ==> rows[1..][i - 1..] == rows[i..];
    }
  }

  lemma {:induction false} AboveIsPrefix(rows: seq<Row>, anchor: Key, i: nat)
    requires i <= |rows| && forall j :: 0 <= j < |rows| ==> (KeyLess(anchor, rows[j].key) <==> j < i)
    ensures Above(rows, anchor) == rows[..i]
  {
    if rows != [] {
      AboveIsPrefix(rows[1..], anchor, if i == 0 then 0 else i - 1);
      assert i > 0 ==> rows[..i] == [rows[0]] + rows[1..][..i - 1];
    }
  }

  lemma AnchorCuts(rows: seq<Row>, i: nat)
    requires Descending(rows) && i < |rows|
    ensures Below(rows, rows[i].key) == rows[i + 1..] && Above(rows, rows[i].key) == rows[..i]
  {
    forall j | 0 <= j < |rows|
      ensures (KeyLess(rows[j].key, rows[i].key) <==> i + 1 <= j) && (KeyLess(rows[i].key, rows[j].key) <==> j < i)
    {
      KeyOrder(rows[i].key, rows[j].key);
    }
    BelowIsSuffix(rows, rows[i].key, i + 1);
    AboveIsPrefix(rows, rows[i].key, i);
  }

  /** The cursor of the page that starts at row `i`. */
  function CursorAt(rows: seq<Row>, i: nat): Option<Cursor>
    requires i <= |rows|
  {
    if i == 0 then None else Some(Cursor(Next, rows[i - 1].key))
  }

  function End(rows: seq<Row>, limit: nat, i: nat): nat {
    if i + limit <= |rows| then i + limit else |rows|
  }

  /** The page that starts at row `i`, read off the table. */
  function Chunk(rows: seq<Row>, limit: nat, i: nat): Page
    requires limit >= 1 && i <= |rows| && (i == 0 || i < |rows|)
  {
    Page(rows[i..End(rows, limit, i)], limit, i + limit < |rows|,
         if i + limit < |rows| then CursorAt(rows, i + limit) else None,
         if i == 0 then None else Some(Cursor(Prev, rows[i].key)))
  }

  /** A forward page is the next `limit` rows, and names the page after it exactly if there is one. */
  lemma ForwardPage(rows: seq<Row>, limit: nat, i: nat)
    requires Descending(rows) && limit >= 1 && i <= |rows| && (i == 0 || i < |rows|)
    ensures PageOf(rows, limit, CursorAt(rows, i)) == Chunk(rows, limit, i)
  {
    if i > 0 {
      AnchorCuts(rows, i - 1);
    }
    ForwardPageOf(rows, limit, i);
  }

  lemma ForwardPageOf(rows: seq<Row>, limit: nat, i: nat)
    requires limit >= 1 && i <= |rows| && (i == 0 || (i < |rows| && Below(rows, rows[i - 1].key) == rows[i..]))
    ensures PageOf(rows, limit, CursorAt(rows, i)) == Chunk(rows, limit, i)
  {
    var cursor, fetched := CursorAt(rows, i), Take(rows[i..], limit + 1);
    FetchedForwards(rows, limit, i);
    FirstRowsFrom(rows, limit, i);
    FinishedForwards(fetched, limit, cursor, rows[i..End(rows, limit, i)]);
    DescribedChunk(rows, limit, i);
  }

  lemma FetchedForwards(rows: seq<Row>, limit: nat, i: nat)
    requires i <= |rows| && (i == 0 || (i < |rows| && Below(rows, rows[i - 1].key) == rows[i..]))
    ensures Fetch(rows, limit, CursorAt(rows, i)) == Take(rows[i..], limit + 1)
  {
    assert i == 0 ==> rows[i..] == rows;
  }

  lemma FinishedForwards(fetched: seq<Row>, limit: nat, cursor: Option<Cursor>, records: seq<Row>)
    requires Take(fetched, limit) == records && (cursor.Some? ==> cursor.value.direction.Next?)
    ensures Finished(fetched, limit, cursor) == Described(records, limit, |fetched| > limit, cursor.Some?)
  {
  }

  lemma DescribedChunk(rows: seq<Row>, limit: nat, i: nat)
    requires limit >= 1 && i <= |rows| && (i == 0 || i < |rows|)
    ensures Described(rows[i..End(rows, limit, i)], limit, i + limit < |rows|, i > 0) == Chunk(rows, limit, i)
  {
  }

  lemma FirstRowsFrom(rows: seq<Row>, limit: nat, i: nat)
    requires i <= |rows|
    ensures var fetched := Take(rows[i..], limit + 1);
            Take(fetched, limit) == rows[i..End(rows, limit, i)] && (|fetched| > limit <==> i + limit < |rows|)
  {
  }

  /** The first of the rows that a backward page before row `a` shows. */
  function Low(limit: nat, a: nat): nat {
    if a > limit then a - limit else 0
  }

  /** The page of the rows before row `a`, up to `limit` of them, as a backward query describes it. */
  function BackChunk(rows: seq<Row>, limit: nat, a: nat): Page
    requires limit >= 1 && a < |rows|
  {
    Page(rows[Low(limit, a)..a], limit, a > limit, if a > limit then CursorAt(rows, a) else None,
         if a > 0 then Some(Cursor(Prev, rows[Low(limit, a)].key)) else None)
  }

  /** A backward page from any row is the `limit` rows before it, or all of them if there are fewer, in table
      order; it says that there are more exactly if there are. */
  lemma BackwardPage(rows: seq<Row>, limit: nat, a: nat)
    requires Descending(rows) && limit >= 1 && a < |rows|
    ensures PageOf(rows, limit, Some(Cursor(Prev, rows[a].key))) == BackChunk(rows, limit, a)
  {
    AnchorCuts(rows, a);
    BackwardPageOf(rows, limit, a);
  }

  lemma BackwardPageOf(rows: seq<Row>, limit: nat, a: nat)
    requires limit >= 1 && a < |rows| && Above(rows, rows[a].key) == rows[..a]
    ensures PageOf(rows, limit, Some(Cursor(Prev, rows[a].key))) == BackChunk(rows, limit, a)
  {
    var anchor, fetched := rows[a].key, Take(Reverse(rows[..a]), limit + 1);
    LastRowsBefore(rows, limit, a);
    FinishedBackwards(fetched, limit, anchor, rows[Low(limit, a)..a]);
    DescribedSlice(rows, limit, a);
    FetchedBackwards(rows, limit, anchor, rows[..a]);
  }

  lemma FetchedBackwards(rows: seq<Row>, limit: nat, anchor: Key, above: seq<Row>)
    requires Above(rows, anchor) == above
    ensures PageOf(rows, limit, Some(Cursor(Prev, anchor))) ==
            Finished(Take(Reverse(above), limit + 1), limit, Some(Cursor(Prev, anchor)))
  {
  }

  lemma FinishedBackwards(fetched: seq<Row>, limit: nat, anchor: Key, records: seq<Row>)
    requires Reverse(Take(fetched, limit)) == records
    ensures Finished(fetched, limit, Some(Cursor(Prev, anchor))) == Described(records, limit, |fetched| > limit, true)
  {
  }

  lemma DescribedSlice(rows: seq<Row>, limit: nat, a: nat)
    requires limit >= 1 && a < |rows|
    ensures Described(rows[Low(limit, a)..a], limit, a > limit, true) == BackChunk(rows, limit, a)
  {
  }

  lemma LastRowsBefore(rows: seq<Row>, limit: nat, a: nat)
    requires limit >= 1 && a < |rows|
    ensures var fetched := Take(Reverse(rows[..a]), limit + 1);
            (|fetched| > limit <==> a > limit) && Reverse(Take(fetched, limit)) == rows[Low(limit, a)..a]
  {
    var back, n := Reverse(rows[..a]), if a > limit then limit else a;
    assert Take(Take(back, limit + 1), limit) == back[..n];
    ReverseTwice(rows[..a], n);
    assert rows[..a][a - n..] == rows[Low(limit, a)..a];
  }

  lemma ReverseTwice(rows: seq<Row>, n: nat)
    requires n <= |rows|
    ensures Reverse(Reverse(rows)[..n]) == rows[|rows| - n..]
  {
  }

  // ---------- the whole walk ----------

  /** Pages got by following `next_cursor` from a cursor until there is none. */
  predicate IsWalk(read: Option<Cursor> -> Page, pages: seq<Page>, cursor: Option<Cursor>)
    decreases |pages|
  {
    && pages != []
    && pages[0] == read(cursor)
    && (if pages[0].next.None? then |pages| == 1 else IsWalk(read, pages[1..], pages[0].next))
  }

  /** Reading pages of this size from a fixed table. */
  function Reader(rows: seq<Row>, limit: nat): Option<Cursor> -> Page {
    cursor => PageOf(rows, limit, cursor)
  }

  predicate IsStart(n: nat, i: nat) {
    i == 0 || i < n
  }

  /** The page that starts at each row, for a table cut every `limit` rows. */
  function Pages(rows: seq<Row>, limit: nat): nat -> Page
    requires limit >= 1
  {
    (i: nat) => if IsStart(|rows|, i) then Chunk(rows, limit, i) else Page([], limit, false, None, None)
  }

  function Anchors(rows: seq<Row>): nat -> Option<Cursor> {
    (i: nat) => if i <= |rows| then CursorAt(rows, i) else None
  }

  /** A table of `n` rows cut into pages, from row `i` on. */
  function Cut(page: nat -> Page, n: nat, limit: nat, i: nat): seq<Page>
    requires limit >= 1
    decreases n - i
  {
    if i + limit < n then [page(i)] + Cut(page, n, limit, i + limit) else [page(i)]
  }

  function Chunks(rows: seq<Row>, limit: nat): seq<Page>
    requires limit >= 1
  {
    Cut(Pages(rows, limit), |rows|, limit, 0)
  }

  /** Reading from the cursor of row `i` gives the page that starts there, and that page names the next one. */
  predicate ReadsAt(read: Option<Cursor> -> Page, page: nat -> Page, at: nat -> Option<Cursor>, n: nat, limit: nat,
                    i: nat) {
    && read(at(i)) == page(i)
    && (if i + limit < n then page(i).next == at(i + limit) && at(i + limit).Some? else page(i).next.None?)
  }

  ghost predicate Reads(read: Option<Cursor> -> Page, page: nat -> Page, at: nat -> Option<Cursor>, n: nat,
                        limit: nat) {
    forall i: nat :: IsStart(n, i) ==> ReadsAt(read, page, at, n, limit, i)
  }

  lemma {:induction false} WalkIsCut(read: Option<Cursor> -> Page, page: nat -> Page, at: nat -> Option<Cursor>,
                                     n: nat, limit: nat, i: nat, pages: seq<Page>)
    requires limit >= 1 && IsStart(n, i) && Reads(read, page, at, n, limit)
    ensures IsWalk(read, pages, at(i)) <==> pages == Cut(page, n, limit, i)
    decreases n - i
  {
    assert ReadsAt(read, page, at, n, limit, i);
    if pages != [] {
      assert pages == [pages[0]] + pages[1..];
      if i + limit < n {
        WalkIsCut(read, page, at, n, limit, i + limit, pages[1..]);
        assert pages == Cut(page, n, limit, i) <==>
            pages[0] == page(i) && pages[1..] == Cut(page, n, limit, i + limit) by {
          assert ([page(i)] + Cut(page, n, limit, i + limit))[1..] == Cut(page, n, limit, i + limit);
        }
      } else {
        assert pages == [page(i)] <==> pages[0] == page(i) && |pages| == 1;
      }
    }
  }

  lemma ReadsTable(rows: seq<Row>, limit: nat)
    requires Descending(rows) && limit >= 1
    ensures Reads(Reader(rows, limit), Pages(rows, limit), Anchors(rows), |rows|, limit)
  {
    forall i: nat | IsStart(|rows|, i)
      ensures ReadsAt(Reader(rows, limit), Pages(rows, limit), Anchors(rows), |rows|, limit, i) {
      ForwardPage(rows, limit, i);
    }
  }

  /** There is exactly one walk from the start, and it is the table cut into pages. */
  lemma WalkIsChunks(rows: seq<Row>, limit: nat, pages: seq<Page>)
    requires Descending(rows) && limit >= 1
    ensures IsWalk(Reader(rows, limit), pages, None) <==> pages == Chunks(rows, limit)
  {
    ReadsTable(rows, limit);
    assert Anchors(rows)(0) == None;
    WalkIsCut(Reader(rows, limit), Pages(rows, limit), Anchors(rows), |rows|, limit, 0, pages);
  }

  function Flatten(pages: seq<Page>): seq<Row> {
    if pages == [] then [] else pages[0].rows + Flatten(pages[1..])
  }

  function PageCount(n: nat, limit: nat): nat
    requires limit >= 1
  {
    if n <= limit then 1 else 1 + PageCount(n - limit, limit)
  }

  /** Where page `k` starts. */
  function Start(limit: nat, k: nat): nat {
    if k == 0 then 0 else Start(limit, k - 1) + limit
  }

  lemma {:induction false} CutCount(page: nat -> Page, n: nat, limit: nat, i: nat)
    requires limit >= 1 && IsStart(n, i)
    ensures |Cut(page, n, limit, i)| == PageCount(n - i, limit)
    decreases n - i
  {
    if i + limit < n {
      CutCount(page, n, limit, i + limit);
    }
  }

  lemma FlattenCons(page: Page, pages: seq<Page>)
    ensures Flatten([page] + pages) == page.rows + Flatten(pages)
  {
    assert ([page] + pages)[1..] == pages;
  }

  ghost predicate Covers(page: nat -> Page, rows: seq<Row>, limit: nat) {
    forall i: nat :: IsStart(|rows|, i) ==> page(i).rows == rows[i..End(rows, limit, i)]
  }

  lemma {:induction false} CutFlattens(page: nat -> Page, rows: seq<Row>, limit: nat, i: nat)
    requires limit >= 1 && IsStart(|rows|, i) && Covers(page, rows, limit)
    ensures Flatten(Cut(page, |rows|, limit, i)) == rows[i..]
    decreases |rows| - i
  {
    assert page(i).rows == rows[i..End(rows, limit, i)];
    if i + limit < |rows| {
      CutFlattens(page, rows, limit, i + limit);
      FlattenCons(page(i), Cut(page, |rows|, limit, i + limit));
      assert rows[i..] == rows[i..i + limit] + rows[i + limit..];
    } else {
      FlattenCons(page(i), []);
      assert [page(i)] + [] == [page(i)];
      assert rows[i..|rows|] == rows[i..];
    }
  }

  lemma {:induction false} CutAt(page: nat -> Page, n: nat, limit: nat, i: nat, k: nat)
    requires limit >= 1 && IsStart(n, i) && k < |Cut(page, n, limit, i)|
    ensures IsStart(n, i + Start(limit, k)) && Cut(page, n, limit, i)[k] == page(i + Start(limit, k))
    decreases k
  {
    if k > 0 {
      assert i + limit < n && Cut(page, n, limit, i)[k] == Cut(page, n, limit, i + limit)[k - 1];
      CutAt(page, n, limit, i + limit, k - 1);
      assert i + limit + Start(limit, k - 1) == i + Start(limit, k);
    }
  }

  /** `count` pages of `limit` rows are n / limit rounded up, and one for an empty table. */
  predicate IsCeiling(count: nat, n: nat, limit: nat) {
    && count >= 1 && n <= count * limit
    && (if n > 0 then (count - 1) * limit < n else count == 1)
  }

  lemma {:induction false} PageCountIsCeiling(n: nat, limit: nat)
    requires limit >= 1
    ensures IsCeiling(PageCount(n, limit), n, limit)
  {
    if n > limit {
      PageCountIsCeiling(n - limit, limit);
      var rest := PageCount(n - limit, limit);
      assert (1 + rest) * limit == limit + rest * limit;
      assert rest * limit == limit + (rest - 1) * limit;
    }
  }

  lemma ChunksFlatten(rows: seq<Row>, limit: nat)
    requires limit >= 1
    ensures Flatten(Chunks(rows, limit)) == rows
  {
    var page := Pages(rows, limit);
    assert Covers(page, rows, limit);
    CutFlattens(page, rows, limit, 0);
  }

  lemma ChunksCount(n: nat, page: nat -> Page, limit: nat)
    requires limit >= 1
    ensures IsCeiling(|Cut(page, n, limit, 0)|, n, limit)
  {
    CutCount(page, n, limit, 0);
    PageCountIsCeiling(n, limit);
  }

  /** Walking `next_cursor` from the start over a fixed table visits every row once and in order, and ends
      after max(1, ceil(n / limit)) pages. */
  lemma {:induction false} WalkVisitsEveryRow(rows: seq<Row>, limit: nat, pages: seq<Page>)
    requires Descending(rows) && limit >= 1 && IsWalk(Reader(rows, limit), pages, None)
    ensures Flatten(pages) == rows
    ensures IsCeiling(|pages|, |rows|, limit)
  {
    WalkIsChunks(rows, limit, pages);
    ChunksFlatten(rows, limit);
    ChunksCount(|rows|, Pages(rows, limit), limit);
  }

  lemma {:induction false} StartsApart(limit: nat, k: nat)
    requires k >= 1 && limit >= 1
    ensures Start(limit, k) >= limit && (Start(limit, k) > limit <==> k >= 2)
  {
    if k >= 2 {
      StartsApart(limit, k - 1);
    }
  }

  /** The previous cursor of `here` reads the rows of `before`, and the page read names the next one if `named`. */
  predicate IsPageBefore(read: Option<Cursor> -> Page, here: Page, before: Page, named: bool) {
    && here.prev.Some?
    && read(here.prev).rows == before.rows
    && read(here.prev).next == if named then before.next else None
  }

  /** From the page that starts at row `i + limit` back to the one that starts at row `i`. */
  predicate ReadsBackTo(read: Option<Cursor> -> Page, page: nat -> Page, limit: nat, i: nat) {
    IsPageBefore(read, page(i + limit), page(i), i > 0)
  }

  ghost predicate ReadsBack(read: Option<Cursor> -> Page, page: nat -> Page, n: nat, limit: nat) {
    forall i: nat :: i + limit < n ==> ReadsBackTo(read, page, limit, i)
  }

  lemma ReadsBackTable(rows: seq<Row>, limit: nat)
    requires Descending(rows) && limit >= 1
    ensures ReadsBack(Reader(rows, limit), Pages(rows, limit), |rows|, limit)
  {
    forall i: nat | i + limit < |rows| ensures ReadsBackTo(Reader(rows, limit), Pages(rows, limit), limit, i) {
      ReadsBackFrom(rows, limit, i, Reader(rows, limit));
    }
  }

  lemma ReadsBackFrom(rows: seq<Row>, limit: nat, i: nat, read: Option<Cursor> -> Page)
    requires Descending(rows) && limit >= 1 && i + limit < |rows| && read == Reader(rows, limit)
    ensures ReadsBackTo(read, Pages(rows, limit), limit, i)
  {
    assert read(Some(Cursor(Prev, rows[i + limit].key))) == BackChunk(rows, limit, i + limit) by {
      BackwardPage(rows, limit, i + limit);
    }
    ReadsBackRow(rows, limit, i, read);
  }

  lemma ReadsBackRow(rows: seq<Row>, limit: nat, i: nat, read: Option<Cursor> -> Page)
    requires limit >= 1 && i + limit < |rows|
    requires read(Some(Cursor(Prev, rows[i + limit].key))) == BackChunk(rows, limit, i + limit)
    ensures ReadsBackTo(read, Pages(rows, limit), limit, i)
  {
  }

  lemma PreviousInCut(read: Option<Cursor> -> Page, page: nat -> Page, n: nat, limit: nat, k: nat)
    requires limit >= 1 && ReadsBack(read, page, n, limit) && 1 <= k < |Cut(page, n, limit, 0)|
    ensures IsPageBefore(read, Cut(page, n, limit, 0)[k], Cut(page, n, limit, 0)[k - 1], k >= 2)
  {
    CutAt(page, n, limit, 0, k);
    CutAt(page, n, limit, 0, k - 1);
    StartsApart(limit, k);
    var i := Start(limit, k - 1);
    assert Start(limit, k) == i + limit;
    assert ReadsBackTo(read, page, limit, i);
  }

  /** Following `prev_cursor` from any page of the walk but the first gives the rows of the page before. The
      page reached this way names the next page if and only if it is not the first one. */
  lemma {:induction false} PreviousPageIsTheOneBefore(rows: seq<Row>, limit: nat, pages: seq<Page>, k: nat)
    requires Descending(rows) && limit >= 1 && IsWalk(Reader(rows, limit), pages, None) && 1 <= k < |pages|
    ensures IsPageBefore(Reader(rows, limit), pages[k], pages[k - 1], k >= 2)
  {
    WalkIsChunks(rows, limit, pages);
    ReadsBackTable(rows, limit);
    PreviousInCut(Reader(rows, limit), Pages(rows, limit), |rows|, limit, k);
  }
}
