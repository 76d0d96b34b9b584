/**
  The repository (app/services/storage.py): the `papers` table, kept in
  memory as the rows in storage order plus the next AUTOINCREMENT id;
  `upsert_papers` (insert, or overwrite on a `url` conflict, in batch order,
  all in one transaction); `search_papers` (filter, order, window); and
  `get_storage`'s backend check.
 */
module Storage {
  import opened Wrappers
  import opened Builtins
  import opened Papers

  /** One row of `papers`. NOT NULL columns are plain strings; nullable ones are options. */
  datatype Row = Row(
    id: nat,
    title: string,
    url: string,
    doi: Option<string>,
    source: string,
    publishedAt: Option<string>,
    authors: Option<string>,
    abstractText: Option<string>,
    journal: Option<string>,
    extras: Option<Extras>,
    createdAt: string)

  datatype StorageError = StorageFault | BackendNotImplemented

  /** The table, and the id the next inserted row receives. */
  datatype TableState = TableState(rows: seq<Row>, nextId: nat)

  /** The schema's guarantees: `url` is UNIQUE, and AUTOINCREMENT ids grow in insertion order. */
  ghost predicate TableInvariant(t: TableState) {
    && t.nextId >= 1
    && (forall i, j :: 0 <= i < j < |t.rows| ==> t.rows[i].url != t.rows[j].url)
    && (forall i, j :: 0 <= i < j < |t.rows| ==> t.rows[i].id < t.rows[j].id)
    && (forall i :: 0 <= i < |t.rows| ==> 1 <= t.rows[i].id < t.nextId)
  }

  // The column values the INSERT binds for a paper.

  function StoredPublishedAt(p: Paper): Option<string> {
    if p.publishedAt.Some? then Some(p.publishedAt.value.iso) else None
  }

  /** An author list is stored `", "`-joined; `None` and the empty list (both falsy) as NULL. */
  function StoredAuthors(p: Paper): Option<string> {
    if p.authors.Some? && |p.authors.value| > 0 then Some(Join(p.authors.value, ", ")) else None
  }

  /** `str(extras)` is kept as the mapping itself; `None` and the empty mapping are stored as NULL. */
  function StoredExtras(p: Paper): Option<Extras> {
    if p.extras.Some? && |p.extras.value| > 0 then p.extras else None
  }

  /** The eight columns an INSERT or an ON CONFLICT update takes from the paper. */
  predicate Carries(r: Row, p: Paper) {
    && r.title == p.title
    && r.url == p.url
    && r.doi == p.doi
    && r.source == p.source
    && r.publishedAt == StoredPublishedAt(p)
    && r.authors == StoredAuthors(p)
    && r.abstractText == p.abstractText
    && r.journal == p.journal
    && r.extras == StoredExtras(p)
  }

  function NewRow(p: Paper, id: nat, now: string): (r: Row)
    ensures Carries(r, p) && r.id == id && r.createdAt == now
  {
    Row(id, p.title, p.url, p.doi, p.source, StoredPublishedAt(p), StoredAuthors(p),
        p.abstractText, p.journal, StoredExtras(p), now)
  }

  /** ON CONFLICT(url) DO UPDATE: every column but `id`, `url` and `created_at` takes the new value. */
  function Overwrite(stored: Row, p: Paper): (r: Row)
    requires stored.url == p.url
    ensures Carries(r, p) && r.id == stored.id && r.url == stored.url && r.createdAt == stored.createdAt
  {
    stored.(title := p.title, doi := p.doi, source := p.source, publishedAt := StoredPublishedAt(p),
         authors := StoredAuthors(p), abstractText := p.abstractText, journal := p.journal,
         extras := StoredExtras(p))
  }

  /** The position of the row holding `url`, found by the UNIQUE index. */
  function IndexOfUrl(rows: seq<Row>, url: string): (r: Option<nat>)
    ensures r.Some? ==> r.value < |rows| && rows[r.value].url == url
    ensures r.None? ==> forall k :: 0 <= k < |rows| ==> rows[k].url != url
    decreases |rows|
  {
    if |rows| == 0 then None
    else if rows[|rows| - 1].url == url then Some(|rows| - 1)
    else IndexOfUrl(rows[..|rows| - 1], url)
  }

  /** The stored row for `url`, if any. */
  function Lookup(t: TableState, url: string): Option<Row> {
    var k := IndexOfUrl(t.rows, url);
    if k.Some? then Some(t.rows[k.value]) else None
  }

  lemma IndexOfUrlUnique(rows: seq<Row>, url: string, k: nat)
    requires forall i, j :: 0 <= i < j < |rows| ==> rows[i].url != rows[j].url
    requires k < |rows| && rows[k].url == url
    ensures IndexOfUrl(rows, url) == Some(k)
  {
  }

  /** Writing one paper, as one execution of the INSERT ... ON CONFLICT statement. */
  function ApplyOne(t: TableState, p: Paper, now: string): TableState {
    var k := IndexOfUrl(t.rows, p.url);
    if k.Some? then TableState(t.rows[k.value := Overwrite(t.rows[k.value], p)], t.nextId)
    else TableState(t.rows + [NewRow(p, t.nextId, now)], t.nextId + 1)
  }

  /** Writing a batch in input order. */
  function ApplyBatch(t: TableState, ps: seq<Paper>, now: string): TableState
    decreases |ps|
  {
    if |ps| == 0 then t else ApplyOne(ApplyBatch(t, ps[..|ps| - 1], now), ps[|ps| - 1], now)
  }

  lemma ApplyBatchStep(t: TableState, ps: seq<Paper>, i: nat, now: string)
    requires i < |ps|
    ensures ApplyBatch(t, ps[..i + 1], now) == ApplyOne(ApplyBatch(t, ps[..i], now), ps[i], now)
  {
    assert ps[..i + 1][..i] == ps[..i];
  }

  lemma ApplyOneInvariant(t: TableState, p: Paper, now: string)
    requires TableInvariant(t)
    ensures TableInvariant(ApplyOne(t, p, now))
    ensures ApplyOne(t, p, now).nextId >= t.nextId
  {
  }

  /**
    One write: the row for `p.url` now carries `p`, keeping its id and creation
    time if it existed and getting the next id otherwise; every other url's row
    is as it was.
   */
  lemma LookupApplyOne(t: TableState, p: Paper, now: string, url: string)
    requires TableInvariant(t)
    ensures Lookup(ApplyOne(t, p, now), url) ==
      if url != p.url then Lookup(t, url)
      else if Lookup(t, url).Some? then Some(Overwrite(Lookup(t, url).value, p))
      else Some(NewRow(p, t.nextId, now))
  {
    var t' := ApplyOne(t, p, now);
    ApplyOneInvariant(t, p, now);
    var k := IndexOfUrl(t.rows, p.url);
    var j := IndexOfUrl(t.rows, url);
    if k.Some? {
      if j.Some? {
        IndexOfUrlUnique(t'.rows, url, j.value);
      }
    } else {
      if j.Some? {
        IndexOfUrlUnique(t'.rows, url, j.value);
      } else if url == p.url {
        IndexOfUrlUnique(t'.rows, url, |t.rows|);
      }
    }
  }

  lemma {:induction false} ApplyBatchInvariant(t: TableState, ps: seq<Paper>, now: string)
    requires TableInvariant(t)
    ensures TableInvariant(ApplyBatch(t, ps, now))
    ensures ApplyBatch(t, ps, now).nextId >= t.nextId
    decreases |ps|
  {
    if |ps| > 0 {
      ApplyBatchInvariant(t, ps[..|ps| - 1], now);
      ApplyOneInvariant(ApplyBatch(t, ps[..|ps| - 1], now), ps[|ps| - 1], now);
    }
  }

  /** A url the batch does not mention keeps its row (or its absence). */
  lemma {:induction false} UpsertLeavesOthers(t: TableState, ps: seq<Paper>, now: string, url: string)
    requires TableInvariant(t)
    requires forall i :: 0 <= i < |ps| ==> ps[i].url != url
    ensures Lookup(ApplyBatch(t, ps, now), url) == Lookup(t, url)
    decreases |ps|
  {
    if |ps| > 0 {
      var init := ps[..|ps| - 1];
      UpsertLeavesOthers(t, init, now, url);
      ApplyBatchInvariant(t, init, now);
      LookupApplyOne(ApplyBatch(t, init, now), ps[|ps| - 1], now, url);
    }
  }

  /**
    Last write wins, and identity is kept: after a batch, the row for a url the
    batch mentions carries the LAST paper with that url; if the url was already
    stored, the row keeps its id and creation time, and otherwise its id is at
    least the old next id, so above every id stored before.
   */
  lemma {:induction false} UpsertLastWins(t: TableState, ps: seq<Paper>, now: string, k: nat)
    requires TableInvariant(t)
    requires k < |ps|
    requires forall j :: k < j < |ps| ==> ps[j].url != ps[k].url
    ensures var r := Lookup(ApplyBatch(t, ps, now), ps[k].url);
      && r.Some? && Carries(r.value, ps[k])
      && (Lookup(t, ps[k].url).Some? ==>
            r.value.id == Lookup(t, ps[k].url).value.id && r.value.createdAt == Lookup(t, ps[k].url).value.createdAt)
      && (Lookup(t, ps[k].url).None? ==> t.nextId <= r.value.id && r.value.createdAt == now)
    decreases |ps|
  {
    var url := ps[k].url;
    var init := ps[..|ps| - 1];
    var last := ps[|ps| - 1];
    var mid := ApplyBatch(t, init, now);
    ApplyBatchInvariant(t, init, now);
    LookupApplyOne(mid, last, now, url);
    if k == |ps| - 1 {
      if Lookup(t, url).Some? {
        StoredStays(t, init, now, url);
      } else {
        NewStaysNew(t, init, now, url);
      }
    } else {
      UpsertLastWins(t, init, now, k);
    }
  }

  /** A stored url stays stored with the same id and creation time across a batch. */
  lemma {:induction false} StoredStays(t: TableState, ps: seq<Paper>, now: string, url: string)
    requires TableInvariant(t)
    requires Lookup(t, url).Some?
    ensures var r := Lookup(ApplyBatch(t, ps, now), url);
      r.Some? && r.value.id == Lookup(t, url).value.id && r.value.createdAt == Lookup(t, url).value.createdAt
    decreases |ps|
  {
    if |ps| > 0 {
      var init := ps[..|ps| - 1];
      StoredStays(t, init, now, url);
      ApplyBatchInvariant(t, init, now);
      LookupApplyOne(ApplyBatch(t, init, now), ps[|ps| - 1], now, url);
    }
  }

  /** A url that was not stored is, after a batch, absent or held by a row created now with an id at least the old next id. */
  lemma {:induction false} NewStaysNew(t: TableState, ps: seq<Paper>, now: string, url: string)
    requires TableInvariant(t)
    requires Lookup(t, url).None?
    ensures var r := Lookup(ApplyBatch(t, ps, now), url);
      r.None? || (t.nextId <= r.value.id && r.value.createdAt == now)
    decreases |ps|
  {
    if |ps| > 0 {
      var init := ps[..|ps| - 1];
      NewStaysNew(t, init, now, url);
      ApplyBatchInvariant(t, init, now);
      var mid := ApplyBatch(t, init, now);
      LookupApplyOne(mid, ps[|ps| - 1], now, url);
    }
  }

  /** Upserting the same record twice leaves one row for its url, carrying it, and adds no row the second time. */
  lemma UpsertIdempotent(t: TableState, p: Paper, now: string)
    requires TableInvariant(t)
    ensures var once := ApplyBatch(t, [p], now);
      var twice := ApplyBatch(t, [p, p], now);
      |twice.rows| == |once.rows| && twice.nextId == once.nextId
      && Lookup(twice, p.url).Some? && Carries(Lookup(twice, p.url).value, p)
  {
    var once := ApplyBatch(t, [p], now);
    assert [p][..0] == [];
    assert ApplyBatch(t, [p][..0], now) == t;
    assert once == ApplyOne(t, p, now);
    assert [p, p][..1] == [p];
    assert ApplyBatch(t, [p, p], now) == ApplyOne(once, p, now);
    ApplyOneInvariant(t, p, now);
    LookupApplyOne(t, p, now, p.url);
    LookupApplyOne(once, p, now, p.url);
  }

  // ---------------------------------------------------------------- search

  /** A non-empty query must occur, ignoring ASCII case, in the title, the abstract or the joined authors. */
  predicate MatchesQuery(r: Row, query: string) {
    |query| == 0
    || ContainsIgnoreCase(r.title, query)
    || (r.abstractText.Some? && ContainsIgnoreCase(r.abstractText.value, query))
    || (r.authors.Some? && ContainsIgnoreCase(r.authors.value, query))
  }

  /** A given, non-empty source must equal the row's source; `None` and `""` filter nothing. */
  predicate MatchesSource(r: Row, source: Option<string>) {
    source.None? || |source.value| == 0 || r.source == source.value
  }

  predicate Selected(r: Row, query: string, source: Option<string>) {
    MatchesQuery(r, query) && MatchesSource(r, source)
  }

  /** The WHERE clause: the selected rows, in storage order. */
  function FilterRows(rows: seq<Row>, query: string, source: Option<string>): seq<Row>
    decreases |rows|
  {
    if |rows| == 0 then []
    else FilterRows(rows[..|rows| - 1], query, source)
         + (if Selected(rows[|rows| - 1], query, source) then [rows[|rows| - 1]] else [])
  }

  lemma {:induction false} FilterRowsMembers(rows: seq<Row>, query: string, source: Option<string>)
    ensures forall r :: r in FilterRows(rows, query, source) <==> r in rows && Selected(r, query, source)
    decreases |rows|
  {
    if |rows| > 0 {
      FilterRowsMembers(rows[..|rows| - 1], query, source);
      assert rows == rows[..|rows| - 1] + [rows[|rows| - 1]];
    }
  }

  predicate IdsIncreasing(rows: seq<Row>) {
    forall i, j :: 0 <= i < j < |rows| ==> rows[i].id < rows[j].id
  }

  lemma {:induction false} FilterKeepsIdOrder(rows: seq<Row>, query: string, source: Option<string>)
    requires IdsIncreasing(rows)
    ensures IdsIncreasing(FilterRows(rows, query, source))
    decreases |rows|
  {
    if |rows| > 0 {
      var init := rows[..|rows| - 1];
      FilterKeepsIdOrder(init, query, source);
      FilterRowsMembers(init, query, source);
      var f := FilterRows(init, query, source);
      forall i | 0 <= i < |f| ensures f[i].id < rows[|rows| - 1].id {
        assert f[i] in init;
      }
    }
  }

  /** `COALESCE(published_at, '')`. */
  function SortKey(r: Row): string {
    if r.publishedAt.Some? then r.publishedAt.value else ""
  }

  /** `ORDER BY COALESCE(published_at, '') DESC, id DESC`: `a` is listed before `b`. */
  predicate Precedes(a: Row, b: Row) {
    StrLess(SortKey(b), SortKey(a)) || (SortKey(a) == SortKey(b) && a.id > b.id)
  }

  lemma PrecedesIrreflexive(a: Row)
    ensures !Precedes(a, a)
  {
    StrLessIrreflexive(SortKey(a));
  }

  lemma PrecedesTransitive(a: Row, b: Row, c: Row)
    requires Precedes(a, b) && Precedes(b, c)
    ensures Precedes(a, c)
  {
    if StrLess(SortKey(b), SortKey(a)) && StrLess(SortKey(c), SortKey(b)) {
      StrLessTransitive(SortKey(c), SortKey(b), SortKey(a));
    }
  }

  lemma PrecedesTotal(a: Row, b: Row)
    requires a.id != b.id
    ensures Precedes(a, b) || Precedes(b, a)
  {
    StrLessTotal(SortKey(a), SortKey(b));
  }

  lemma PrecedesAsymmetric(a: Row, b: Row)
    requires Precedes(a, b)
    ensures !Precedes(b, a)
  {
    if Precedes(b, a) {
      PrecedesTransitive(a, b, a);
      PrecedesIrreflexive(a);
    }
  }

  /** Rows without a publication date come after every row with a (non-empty) one. */
  lemma NullDatesLast(a: Row, b: Row)
    requires a.publishedAt.Some? && |a.publishedAt.value| > 0
    requires b.publishedAt.None?
    ensures Precedes(a, b) && !Precedes(b, a)
  {
  }

  /** Among rows with the same date (or none), the most recently inserted comes first. */
  lemma TiesByRecency(a: Row, b: Row)
    requires SortKey(a) == SortKey(b) && a.id > b.id
    ensures Precedes(a, b)
  {
  }

  predicate SortedByPrecedes(s: seq<Row>) {
    forall i, j :: 0 <= i < j < |s| ==> Precedes(s[i], s[j])
  }

  predicate DistinctIds(s: seq<Row>) {
    forall i, j :: 0 <= i < j < |s| ==> s[i].id != s[j].id
  }

  function InsertRow(r: Row, s: seq<Row>): seq<Row>
    decreases |s|
  {
    if |s| == 0 || Precedes(r, s[0]) then [r] + s else [s[0]] + InsertRow(r, s[1..])
  }

  /** The ordering the SQL engine applies, as an insertion sort. */
  function SortRows(s: seq<Row>): seq<Row>
    decreases |s|
  {
    if |s| == 0 then [] else InsertRow(s[0], SortRows(s[1..]))
  }

  lemma {:induction false} InsertRowMultiset(r: Row, s: seq<Row>)
    ensures multiset(InsertRow(r, s)) == multiset(s) + multiset{r}
    decreases |s|
  {
    if |s| > 0 && !Precedes(r, s[0]) {
      InsertRowMultiset(r, s[1..]);
      assert s == [s[0]] + s[1..];
    }
  }

  /** A row that precedes every row of an ordered sequence can be put in front of it. */
  lemma ConsSorted(x: Row, t: seq<Row>)
    requires SortedByPrecedes(t)
    requires forall k :: 0 <= k < |t| ==> Precedes(x, t[k])
    ensures SortedByPrecedes([x] + t)
  {
  }

  lemma {:induction false} InsertRowSorted(r: Row, s: seq<Row>)
    requires SortedByPrecedes(s)
    requires forall i :: 0 <= i < |s| ==> s[i].id != r.id
    ensures SortedByPrecedes(InsertRow(r, s))
    ensures multiset(InsertRow(r, s)) == multiset(s) + multiset{r}
    decreases |s|
  {
    InsertRowMultiset(r, s);
    if |s| == 0 || Precedes(r, s[0]) {
      forall j | 0 <= j < |s| ensures Precedes(r, s[j]) {
        if j > 0 { PrecedesTransitive(r, s[0], s[j]); }
      }
      ConsSorted(r, s);
    } else {
      PrecedesTotal(r, s[0]);
      var tail := InsertRow(r, s[1..]);
      InsertRowSorted(r, s[1..]);
      InsertRowMultiset(r, s[1..]);
      forall k | 0 <= k < |tail| ensures Precedes(s[0], tail[k]) {
        var x := tail[k];
        assert x in multiset(tail);
        assert x in multiset(s[1..]) + multiset{r};
        if x != r {
          assert x in s[1..];
          var j :| 0 <= j < |s[1..]| && s[1..][j] == x;
          assert s[j + 1] == x;
        }
      }
      ConsSorted(s[0], tail);
    }
  }

  lemma {:induction false} SortRowsCorrect(s: seq<Row>)
    requires DistinctIds(s)
    ensures SortedByPrecedes(SortRows(s))
    ensures multiset(SortRows(s)) == multiset(s)
    decreases |s|
  {
    if |s| > 0 {
      var rest := s[1..];
      assert DistinctIds(rest) by {
        forall i, j | 0 <= i < j < |rest| ensures rest[i].id != rest[j].id {
          assert rest[i] == s[i + 1] && rest[j] == s[j + 1];
        }
      }
      assert forall i :: 0 <= i < |rest| ==> rest[i].id != s[0].id by {
        forall i | 0 <= i < |rest| ensures rest[i].id != s[0].id {
          assert rest[i] == s[i + 1];
        }
      }
      SortRowsCorrect(rest);
      var t := SortRows(rest);
      PermutationAvoidsId(rest, t, s[0].id);
      InsertRowSorted(s[0], t);
      InsertRowMultiset(s[0], t);
      assert s == [s[0]] + rest;
    }
  }

  /** A rearrangement of rows that all avoid an id avoids it too. */
  lemma PermutationAvoidsId(a: seq<Row>, b: seq<Row>, id: nat)
    requires multiset(a) == multiset(b)
    requires forall i :: 0 <= i < |a| ==> a[i].id != id
    ensures forall i :: 0 <= i < |b| ==> b[i].id != id
  {
    forall i | 0 <= i < |b| ensures b[i].id != id {
      assert b[i] in multiset(b);
      assert b[i] in a;
    }
  }

  /** Where the window starts: `OFFSET` clamped to `[0, |s|]`, a negative offset counting as 0. */
  function WindowStart(s: seq<Row>, offset: int): (start: nat)
    ensures start <= |s|
    ensures offset <= 0 ==> start == 0
    ensures 0 <= offset <= |s| ==> start == offset
    ensures offset >= |s| ==> start == |s|
  {
    if offset < 0 then 0 else Min(offset, |s|)
  }

  /** `LIMIT limit OFFSET offset` as SQLite reads them: a negative offset is 0, a negative limit is no limit. */
  function Window(s: seq<Row>, limit: int, offset: int): (w: seq<Row>)
    ensures limit >= 0 ==> |w| <= limit
    ensures WindowStart(s, offset) + |w| <= |s|
    ensures w == s[WindowStart(s, offset)..WindowStart(s, offset) + |w|]
    ensures limit < 0 ==> w == s[WindowStart(s, offset)..]
    ensures limit >= 0 ==> |w| == Min(limit, |s| - WindowStart(s, offset))
  {
    var start := WindowStart(s, offset);
    var rest := s[start..];
    var w := if limit < 0 then rest else rest[..Min(limit, |rest|)];
    assert w == s[start..start + |w|];
    w
  }

  /** The ordered rows `search_papers` returns for a table. */
  function SearchSpec(rows: seq<Row>, query: string, source: Option<string>, limit: int, offset: int): seq<Row> {
    Window(SortRows(FilterRows(rows, query, source)), limit, offset)
  }

  /**
    Every returned row is a stored row that passes the filter; the items are
    strictly in result order (date descending, nulls last, then id descending);
    and, without a window, every matching row is returned exactly once.
   */
  lemma SearchSound(t: TableState, query: string, source: Option<string>, limit: int, offset: int)
    requires TableInvariant(t)
    ensures var items := SearchSpec(t.rows, query, source, limit, offset);
      && (forall r :: r in items ==> r in t.rows && Selected(r, query, source))
      && SortedByPrecedes(items)
      && (limit < 0 && offset <= 0 ==> multiset(items) == multiset(FilterRows(t.rows, query, source)))
  {
    var f := FilterRows(t.rows, query, source);
    FilterRowsMembers(t.rows, query, source);
    FilterKeepsIdOrder(t.rows, query, source);
    SortRowsCorrect(f);
    var sorted := SortRows(f);
    var items := Window(sorted, limit, offset);
    WindowSound(sorted, limit, offset);
    forall r | r in items ensures r in t.rows && Selected(r, query, source) {
      assert r in multiset(sorted);
      assert r in multiset(f);
    }
  }

  /** A window of a sorted sequence is sorted and holds only its elements. */
  lemma WindowSound(s: seq<Row>, limit: int, offset: int)
    requires SortedByPrecedes(s)
    ensures SortedByPrecedes(Window(s, limit, offset))
    ensures forall r :: r in Window(s, limit, offset) ==> r in s
    ensures limit < 0 && offset <= 0 ==> Window(s, limit, offset) == s
  {
  }

  /** A row is found by a query that occurs, ignoring ASCII case, in one of its authors' names. */
  lemma SearchFindsAuthor(p: Paper, r: Row, k: nat, query: string)
    requires Carries(r, p) && p.authors.Some? && k < |p.authors.value|
    requires ContainsIgnoreCase(p.authors.value[k], query)
    ensures MatchesQuery(r, query)
  {
    var names := p.authors.value;
    JoinOccurs(names, ", ", k);
    var i: nat :| OccursAt(Join(names, ", "), names[k], i);
    ContainsIgnoreCaseWithin(Join(names, ", "), names[k], i, query);
  }

  datatype SearchResult = SearchResult(items: seq<Row>, count: nat, offset: int, limit: int)

  class PaperTable {
    var rows: seq<Row>
    var nextId: nat

    ghost predicate Valid()
      reads this
    {
      TableInvariant(State())
    }

    function State(): TableState
      reads this
    {
      TableState(rows, nextId)
    }

    /** `init_db` on a fresh database file: an empty table. */
    constructor ()
      ensures Valid() && rows == [] && nextId == 1
    {
      rows := [];
      nextId := 1;
    }

    /**
      `upsert_papers`. An empty batch returns 0 without touching the database.
      Otherwise the batch is written in order inside one transaction; a fault
      while writing record `faultAt` (the connection, or a constraint) rolls
      the whole batch back. On success the count is the batch length,
      duplicates included.
     */
    method UpsertPapers(papers: seq<Paper>, faultAt: Option<nat>, now: string) returns (r: Result<nat, StorageError>)
      requires Valid()
      modifies this
      ensures Valid()
      ensures |papers| == 0 ==> r == Success(0) && State() == old(State())
      ensures |papers| > 0 && faultAt.Some? && faultAt.value < |papers| ==>
                r == Failure(StorageFault) && State() == old(State())
      ensures |papers| > 0 && !(faultAt.Some? && faultAt.value < |papers|) ==>
                r == Success(|papers|) && State() == ApplyBatch(old(State()), papers, now)
    {
      if |papers| == 0 {
        return Success(0);
      }
      var savedRows, savedNextId := rows, nextId;
      ghost var saved := State();
      // the index of the record whose write faults, or the batch length when none does
      var faultIndex := if faultAt.Some? && faultAt.value < |papers| then faultAt.value else |papers|;
      var i := 0;
      while i < |papers|
        invariant 0 <= i <= faultIndex <= |papers|
        invariant saved == TableState(savedRows, savedNextId)
        invariant State() == ApplyBatch(saved, papers[..i], now)
        invariant Valid()
      {
        if i == faultIndex {
          rows, nextId := savedRows, savedNextId;
          return Failure(StorageFault);
        }
        ghost var before := State();
        ApplyBatchStep(saved, papers, i, now);
        WriteOne(papers[i], now);
        assert State() == ApplyOne(before, papers[i], now);
        assert State() == ApplyBatch(saved, papers[..i + 1], now);
        i := i + 1;
      }
      assert papers[..i] == papers;
      return Success(|papers|);
    }

    /** One execution of the INSERT ... ON CONFLICT statement. */
    method WriteOne(p: Paper, now: string)
      requires Valid()
      modifies this
      ensures Valid()
      ensures State() == ApplyOne(old(State()), p, now)
    {
      ApplyOneInvariant(State(), p, now);
      var k := IndexOfUrl(rows, p.url);
      if k.Some? {
        rows := rows[k.value := Overwrite(rows[k.value], p)];
      } else {
        rows := rows + [NewRow(p, nextId, now)];
        nextId := nextId + 1;
      }
    }

    /**
      `search_papers`: the rows the filter selects, in result order, windowed by
      `limit` and `offset`, with the count of items and both window arguments
      echoed back.
     */
    method SearchPapers(query: string, source: Option<string>, limit: int, offset: int) returns (res: SearchResult)
      requires Valid()
      ensures res.items == SearchSpec(rows, query, source, limit, offset)
      ensures res.count == |res.items| && res.offset == offset && res.limit == limit
      ensures limit >= 0 ==> res.count <= limit
    {
      var matched := SelectRows(rows, query, source);
      var ordered := SortRows(matched);
      var items := TakeWindow(ordered, limit, offset);
      res := SearchResult(items, |items|, offset, limit);
    }
  }

  /** The `WHERE` clause: the rows that pass the filters, in table order. */
  method SelectRows(rows: seq<Row>, query: string, source: Option<string>) returns (matched: seq<Row>)
    ensures matched == FilterRows(rows, query, source)
  {
    matched := [];
    var i := 0;
    while i < |rows|
      invariant 0 <= i <= |rows|
      invariant matched == FilterRows(rows[..i], query, source)
    {
      if Selected(rows[i], query, source) {
        matched := matched + [rows[i]];
      }
      assert rows[..i + 1][..i] == rows[..i];
      i := i + 1;
    }
    assert rows[..i] == rows;
  }

  /** `LIMIT ? OFFSET ?` and the loop collecting the fetched rows into `items`. */
  method TakeWindow(ordered: seq<Row>, limit: int, offset: int) returns (items: seq<Row>)
    ensures items == Window(ordered, limit, offset)
  {
    var start := if offset < 0 then 0 else Min(offset, |ordered|);
    var stop := if limit < 0 then |ordered| else start + Min(limit, |ordered| - start);
    items := [];
    var j := start;
    while j < stop
      invariant start <= j <= stop
      invariant items == ordered[start..j]
    {
      items := items + [ordered[j]];
      j := j + 1;
    }
  }

  /** `get_storage`'s check: the backend setting defaults to "sqlite", and any other value is refused. */
  function GetStorage(backend: Option<string>): (r: Result<(), StorageError>)
    ensures r.Success? <==> backend.None? || backend.value == "sqlite"
    ensures r.Failure? ==> r.error == BackendNotImplemented
  {
    if backend.GetOr("sqlite") != "sqlite" then Failure(BackendNotImplemented) else Success(())
  }
}
