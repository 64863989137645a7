/**
 * The whole service-request transformation: from the raw table and the
 * category table to the date table and the processed table.
 *
 * The clock is a parameter (`today`), and reading and writing the warehouse
 * tables is outside the model: the two input tables are arguments and the
 * two output tables the result.
 */
module TransformSrData {

  import opened Wrappers
  import opened Sequences
  import opened ServiceRequests
  import Calendar
  import opened RecordFilter
  import opened StatusResolver

  // ---------------------------------------------------------------------------
  // The date range.

  /** The earliest creation day of the raw table (`min()` of the column). */
  function EarliestCreated(raw: seq<RawRecord>): (d: Day)
    requires raw != []
    ensures exists r :: r in raw && r.created.date == d
    ensures forall r :: r in raw ==> d <= r.created.date
  {
    if |raw| == 1 then raw[0].created.date
    else
      var rest := EarliestCreated(raw[1..]);
      assert forall r :: r in raw[1..] ==> r in raw;
      assert forall r :: r in raw ==> r == raw[0] || r in raw[1..];
      if raw[0].created.date <= rest then raw[0].created.date else rest
  }

  /** The latest creation day of the raw table (`max()` of the column). */
  function LatestCreated(raw: seq<RawRecord>): (d: Day)
    requires raw != []
    ensures exists r :: r in raw && r.created.date == d
    ensures forall r :: r in raw ==> r.created.date <= d
  {
    if |raw| == 1 then raw[0].created.date
    else
      var rest := LatestCreated(raw[1..]);
      assert forall r :: r in raw[1..] ==> r in raw;
      assert forall r :: r in raw ==> r == raw[0] || r in raw[1..];
      if raw[0].created.date >= rest then raw[0].created.date else rest
  }

  // ---------------------------------------------------------------------------
  // The derived columns.

  /**
   * The columns added to a grouped row: the completion time (rounding a whole
   * number of days leaves it as it is), the closed date it implies, and, for
   * an Open row, the days it has been open as of today.
   */
  function Derive(c: Candidate, today: Day): (r: ResolvedRecord)
    ensures r.key == c.key && r.srNumber == c.srNumber && r.status == c.status
    ensures r.streetAddress == c.streetAddress && r.communityArea == c.communityArea
    ensures r.completionDays == c.completionDays
    ensures r.closedDate.Some? <==> c.completionDays.Some?
    ensures r.closedDate.Some? ==> r.closedDate.value - r.key.createdDate == c.completionDays.value
    ensures r.openDays.Some? <==> c.status == Open
    ensures r.openDays.Some? ==> r.key.createdDate + r.openDays.value == today
  {
    var closed := if c.completionDays.Some? then Some(c.key.createdDate + c.completionDays.value) else None;
    var open := if c.status == Open then Some(today - c.key.createdDate) else None;
    ResolvedRecord(c.key, c.completionDays, c.srNumber, c.status, c.streetAddress, c.communityArea,
                   closed, open)
  }

  function DeriveAll(cs: seq<Candidate>, today: Day): (rs: seq<ResolvedRecord>)
    ensures |rs| == |cs|
    ensures forall i :: 0 <= i < |cs| ==> rs[i] == Derive(cs[i], today)
  {
    seq(|cs|, i requires 0 <= i < |cs| => Derive(cs[i], today))
  }

  /** The derived columns as the source adds them: row by row over the sorted frame. */
  method DeriveColumns(sorted: seq<Candidate>, today: Day) returns (table: seq<ResolvedRecord>)
    ensures table == DeriveAll(sorted, today)
  {
    table := [];
    var i := 0;
    while i < |sorted|
      invariant 0 <= i <= |sorted|
      invariant |table| == i
      invariant forall k :: 0 <= k < i ==> table[k] == Derive(sorted[k], today)
    {
      table := table + [Derive(sorted[i], today)];
      i := i + 1;
    }
  }

  // ---------------------------------------------------------------------------
  // The whole transformation.

  /** The two tables the transformation writes. */
  datatype Tables = Tables(dates: seq<Calendar.DateRow>, serviceRequests: seq<ResolvedRecord>)

  /** The processed table: prepared, grouped by status, sorted and given its derived columns. */
  function ProcessedTable(raw: seq<RawRecord>, cats: seq<CategoryRow>, today: Day): (t: seq<ResolvedRecord>)
    ensures |t| == |Resolve(Prepared(raw, cats))|
  {
    var resolved := Resolve(Prepared(raw, cats));
    assert |SortByCreated(resolved)| == |multiset(SortByCreated(resolved))| == |multiset(resolved)|;
    DeriveAll(SortByCreated(resolved), today)
  }

  /**
   * `transform_sr_data`.  The date table spans the creation days of the raw
   * table, before any row is filtered out; with no raw rows there is no range
   * and the transformation fails, which is modelled as None.
   */
  method Transform(raw: seq<RawRecord>, cats: seq<CategoryRow>, today: Day) returns (out: Option<Tables>)
    ensures out.None? <==> raw == []
    ensures out.Some? ==> out.value.dates == Calendar.DateDimension(EarliestCreated(raw), LatestCreated(raw))
    ensures out.Some? ==> out.value.serviceRequests == ProcessedTable(raw, cats, today)
  {
    if raw == [] {
      return None;
    }
    var dates := Calendar.DateDimension(EarliestCreated(raw), LatestCreated(raw));
    var joined := PrepareRows(raw, cats);
    var grouped := Resolve(joined);
    var sorted := SortByCreated(grouped);
    var table := DeriveColumns(sorted, today);
    return Some(Tables(dates, table));
  }

  // ---------------------------------------------------------------------------
  // What the processed table promises.

  /** Each processed row is the derived form of a grouped row. */
  lemma ProcessedFromResolved(raw: seq<RawRecord>, cats: seq<CategoryRow>, today: Day, r: ResolvedRecord)
    requires r in ProcessedTable(raw, cats, today)
    ensures exists c :: c in Resolve(Prepared(raw, cats)) && r == Derive(c, today)
  {
    var resolved := Resolve(Prepared(raw, cats));
    var sorted := SortByCreated(resolved);
    var table := DeriveAll(sorted, today);
    var i :| 0 <= i < |table| && table[i] == r;
    assert sorted[i] in multiset(sorted);
    assert sorted[i] in resolved;
  }

  /** The date table has one row per day from the earliest to the latest creation day. */
  lemma DatesSpanRawTable(raw: seq<RawRecord>)
    requires raw != []
    ensures var dates := Calendar.DateDimension(EarliestCreated(raw), LatestCreated(raw));
      && |dates| == LatestCreated(raw) - EarliestCreated(raw) + 1
      && dates[0].date == EarliestCreated(raw) && dates[|dates| - 1].date == LatestCreated(raw)
      && forall r :: r in raw ==> exists i :: 0 <= i < |dates| && dates[i].date == r.created.date
  {
    var start, end := EarliestCreated(raw), LatestCreated(raw);
    var dates := Calendar.DateDimension(start, end);
    forall r | r in raw ensures exists i :: 0 <= i < |dates| && dates[i].date == r.created.date {
      assert dates[r.created.date - start].date == r.created.date;
    }
  }

  /** The processed table is ordered by creation date. */
  lemma ProcessedSorted(raw: seq<RawRecord>, cats: seq<CategoryRow>, today: Day, i: int, j: int)
    requires 0 <= i < j < |ProcessedTable(raw, cats, today)|
    ensures ProcessedTable(raw, cats, today)[i].key.createdDate <= ProcessedTable(raw, cats, today)[j].key.createdDate
  {
    var sorted := SortByCreated(Resolve(Prepared(raw, cats)));
    assert sorted[i].key.createdDate <= sorted[j].key.createdDate;
  }

  /**
   * Exactly one of the two latency columns is filled: a Completed row has a
   * completion time and the closed date it implies, an Open row has neither
   * and has the days it has been open as of today.
   */
  lemma ProcessedLatencyColumns(raw: seq<RawRecord>, cats: seq<CategoryRow>, today: Day, r: ResolvedRecord)
    requires r in ProcessedTable(raw, cats, today)
    ensures r.status == Completed || r.status == Open
    ensures r.closedDate.Some? != r.openDays.Some?
    ensures r.status == Completed ==>
      && r.completionDays.Some? && r.openDays.None?
      && r.closedDate.Some? && r.closedDate.value == r.key.createdDate + r.completionDays.value
    ensures r.status == Open ==>
      && r.completionDays.None? && r.closedDate.None?
      && r.openDays.Some? && r.openDays.value == today - r.key.createdDate
  {
    var rows := Prepared(raw, cats);
    ProcessedFromResolved(raw, cats, today, r);
    var c :| c in Resolve(rows) && r == Derive(c, today);
    assert (c.status == Open && c.completionDays.None?) || (c.status == Completed && c.completionDays.Some?) by {
      ResolveStatuses(rows, c);
    }
    DeriveLatencyColumns(c, today);
  }

  lemma DeriveLatencyColumns(c: Candidate, today: Day)
    requires || (c.status == Open && c.completionDays.None?)
             || (c.status == Completed && c.completionDays.Some?)
    ensures var r := Derive(c, today);
      && r.closedDate.Some? != r.openDays.Some?
      && (r.status == Completed ==>
            r.openDays.None? && r.closedDate.Some? && r.closedDate.value == r.key.createdDate + r.completionDays.value)
      && (r.status == Open ==> r.closedDate.None? && r.openDays.Some? && r.openDays.value == today - r.key.createdDate)
  {
  }

  /** The processed table has one row per key and status present among the prepared rows. */
  lemma ProcessedCardinality(raw: seq<RawRecord>, cats: seq<CategoryRow>, today: Day)
    ensures var rows := Prepared(raw, cats);
      |ProcessedTable(raw, cats, today)| == |KeySet(Done(rows))| + |KeySet(Pending(rows))|
  {
    var resolved := Resolve(Prepared(raw, cats));
    assert |SortByCreated(resolved)| == |multiset(SortByCreated(resolved))| == |multiset(resolved)|;
    ResolveCardinality(Prepared(raw, cats));
  }

  /** No two rows of the processed table share both key and status. */
  lemma ProcessedOnePerKeyAndStatus(raw: seq<RawRecord>, cats: seq<CategoryRow>, today: Day, i: int, j: int)
    requires 0 <= i < j < |ProcessedTable(raw, cats, today)|
    ensures var t := ProcessedTable(raw, cats, today);
      t[i].key != t[j].key || t[i].status != t[j].status
  {
    var rows := Prepared(raw, cats);
    var resolved := Resolve(rows);
    var sorted := SortByCreated(resolved);
    ResolveNoDuplicates(rows);
    NoDuplicatesPermutation(resolved, sorted);
    assert sorted[i] != sorted[j];
    assert sorted[i] in multiset(resolved) && sorted[j] in multiset(resolved);
    if sorted[i].key == sorted[j].key && sorted[i].status == sorted[j].status {
      ResolveSameKeyAndStatus(rows, sorted[i], sorted[j]);
    }
  }

  /**
   * A processed row comes from an eligible raw row and a category row of its
   * type: its key and SR number are theirs, a Completed row has that raw
   * row's completion time, title-cased street address and area number, and
   * an Open row comes from a raw row not closed.
   */
  lemma ProcessedProvenance(raw: seq<RawRecord>, cats: seq<CategoryRow>, today: Day, r: ResolvedRecord)
    requires r in ProcessedTable(raw, cats, today)
    ensures exists x, c :: (x in raw && c in cats && Eligible(x, cats) && c.srType == x.srType &&
      r.srNumber == x.srNumber &&
      r.key == GroupKey(x.latitude.value, x.longitude.value, x.created.date, c.category, c.subCategory, x.srType) &&
      (r.status == Completed ==> r.completionDays == CompletionDays(x.created, x.closed) &&
                                 r.streetAddress == TitleCaseColumn(x.streetAddress) &&
                                 r.communityArea == x.communityArea) &&
      (r.status == Open ==> x.closed.None?))
  {
    var rows := Prepared(raw, cats);
    ProcessedFromResolved(raw, cats, today, r);
    var cand :| cand in Resolve(rows) && r == Derive(cand, today);
    ResolveProvenance(rows, cand);
    var j :| j in rows && KeyOf(j) == cand.key && j.srNumber == cand.srNumber &&
             (cand.status == Completed ==> j.completionDays == cand.completionDays &&
                                           j.streetAddress == cand.streetAddress &&
                                           j.communityArea == cand.communityArea) &&
             (cand.status == Open ==> j.completionDays.None?);
    PreparedMembership(raw, cats, j);
    var x, c :| x in raw && c in cats && Eligible(x, cats) && c.srType == x.srType &&
                j == JoinOf(Normalise(x), c);
  }

  /**
   * Every eligible raw row is represented: its key has a Completed row when
   * the raw row was closed and an Open row when it was not.
   */
  lemma EligibleIsRepresented(raw: seq<RawRecord>, cats: seq<CategoryRow>, today: Day, x: RawRecord, c: CategoryRow)
    requires x in raw && c in cats && Eligible(x, cats) && c.srType == x.srType
    ensures var k := GroupKey(x.latitude.value, x.longitude.value, x.created.date, c.category, c.subCategory, x.srType);
      exists r :: r in ProcessedTable(raw, cats, today) && r.key == k &&
        r.status == (if x.closed.Some? then Completed else Open)
  {
    var rows := Prepared(raw, cats);
    var j := JoinOf(Normalise(x), c);
    EligibleIsPrepared(raw, cats, x, c);
    var k := KeyOf(j);
    var status := if x.closed.Some? then Completed else Open;
    assert x.closed.Some? ==> k in KeySet(Done(rows)) by {
      if x.closed.Some? { assert j in Done(rows); }
    }
    assert x.closed.None? ==> k in KeySet(Pending(rows)) by {
      if x.closed.None? { assert j in Pending(rows); }
    }
    ResolveCoversKeys(rows, k);
    var cand :| cand in Resolve(rows) && cand.key == k && cand.status == status;
    ResolvedIsProcessed(raw, cats, today, cand);
  }

  /** Every grouped row reaches the processed table, with its derived columns. */
  lemma ResolvedIsProcessed(raw: seq<RawRecord>, cats: seq<CategoryRow>, today: Day, c: Candidate)
    requires c in Resolve(Prepared(raw, cats))
    ensures Derive(c, today) in ProcessedTable(raw, cats, today)
  {
    var resolved := Resolve(Prepared(raw, cats));
    var sorted := SortByCreated(resolved);
    assert c in multiset(sorted);
    var i :| 0 <= i < |sorted| && sorted[i] == c;
    assert ProcessedTable(raw, cats, today)[i] == Derive(c, today);
  }
}
