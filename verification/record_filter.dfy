/**
 * The first half of the service-request transformation: the row filters, the
 * per-row column rewrites and the inner join with the category table.
 */
module RecordFilter {

  import opened Wrappers
  import opened Sequences
  import opened ServiceRequests

  /** The type has a row in the category table (`isin` on the category table's types). */
  predicate Listed(t: string, cats: seq<CategoryRow>) {
    exists c :: c in cats && c.srType == t
  }

  function ListedIn(cats: seq<CategoryRow>): RawRecord -> bool {
    (r: RawRecord) => Listed(r.srType, cats)
  }

  predicate NotAircraftNoise(r: RawRecord) {
    r.srType != AircraftNoise
  }

  predicate HasCoordinates(r: RawRecord) {
    r.latitude.Some? && r.longitude.Some?
  }

  predicate StatusKept(r: SrRow) {
    r.status == Open || r.status == Completed
  }

  /** Every condition a raw row must meet to take part in the join. */
  predicate Eligible(r: RawRecord, cats: seq<CategoryRow>) {
    && Listed(r.srType, cats)
    && r.srType != AircraftNoise
    && r.latitude.Some? && r.longitude.Some?
    && (r.status == Open || r.status == Completed)
  }

  /** Whole days from creation to closure, each timestamp first cut to its date; missing when not closed. */
  function CompletionDays(created: Timestamp, closed: Option<Timestamp>): (d: Option<int>)
    ensures d.None? <==> closed.None?
  {
    if closed.Some? then Some(closed.value.date - created.date) else None
  }

  /**
   * The completion time ignores the time of day: it differs from the exact
   * elapsed time by less than one day, and only the two dates determine it.
   */
  lemma CompletionDaysWithinOneDay(created: Timestamp, closed: Timestamp)
    ensures var exactSeconds := (closed.date - created.date) * 86400 + closed.secondOfDay - created.secondOfDay;
            var d := CompletionDays(created, Some(closed)).value;
            -86400 < exactSeconds - d * 86400 < 86400
    ensures forall s, t :: CompletionDays(Timestamp(created.date, s), Some(Timestamp(closed.date, t)))
                          == CompletionDays(created, Some(closed))
  {
  }

  /**
   * The column rewrites of one row: street columns title-cased, the timestamps
   * cut to dates, the completion time added and the day of week named.
   */
  function Normalise(r: RawRecord): (n: SrRow)
    requires HasCoordinates(r)
    ensures n.srNumber == r.srNumber && n.srType == r.srType && n.status == r.status
    ensures n.createdDate == r.created.date
    ensures n.closedDate.Some? <==> r.closed.Some?
    ensures n.completionDays == CompletionDays(r.created, r.closed)
    ensures n.completionDays.Some? ==> n.closedDate.value - n.createdDate == n.completionDays.value
    ensures n.latitude == r.latitude.value && n.longitude == r.longitude.value
    ensures n.streetAddress == TitleCaseColumn(r.streetAddress)
    ensures n.streetName == TitleCaseColumn(r.streetName)
    ensures n.streetType == TitleCaseColumn(r.streetType)
    ensures n.communityArea == r.communityArea
    ensures n.createdDayOfWeek == DayName(r.createdDayOfWeek)
  {
    SrRow(r.srNumber, r.srType, r.status,
          r.created.date,
          if r.closed.Some? then Some(r.closed.value.date) else None,
          CompletionDays(r.created, r.closed),
          TitleCaseColumn(r.streetAddress),
          TitleCaseColumn(r.streetName),
          TitleCaseColumn(r.streetType),
          r.communityArea,
          DayName(r.createdDayOfWeek),
          r.latitude.value, r.longitude.value)
  }

  function NormaliseAll(rows: seq<RawRecord>): (ns: seq<SrRow>)
    requires forall r :: r in rows ==> HasCoordinates(r)
    ensures |ns| == |rows|
    ensures forall i :: 0 <= i < |rows| ==> ns[i] == Normalise(rows[i])
  {
    seq(|rows|, i requires 0 <= i < |rows| => Normalise(rows[i]))
  }

  /** One row of the join: the selected columns of a service request and its category row. */
  function JoinOf(r: SrRow, c: CategoryRow): (j: JoinedRow)
    ensures j.srNumber == r.srNumber && j.srType == r.srType && j.status == r.status
    ensures j.createdDate == r.createdDate && j.closedDate == r.closedDate
    ensures j.completionDays == r.completionDays
    ensures j.category == c.category && j.subCategory == c.subCategory
    ensures j.streetAddress == r.streetAddress && j.communityArea == r.communityArea
    ensures j.latitude == r.latitude && j.longitude == r.longitude
  {
    JoinedRow(r.srNumber, r.srType, r.status, r.createdDate, r.closedDate, r.completionDays,
              c.category, c.subCategory, r.streetAddress, r.communityArea, r.latitude, r.longitude)
  }

  /** The join rows of one service request: one per category row of its type, in table order. */
  function Matches(r: SrRow, cats: seq<CategoryRow>): (js: seq<JoinedRow>)
    ensures forall j :: j in js <==> exists c :: c in cats && c.srType == r.srType && j == JoinOf(r, c)
  {
    if cats == [] then []
    else
      var last := cats[|cats| - 1];
      Matches(r, cats[..|cats| - 1]) + (if last.srType == r.srType then [JoinOf(r, last)] else [])
  }

  /** The inner join on the type, in the order of the service requests. */
  function Join(rows: seq<SrRow>, cats: seq<CategoryRow>): (js: seq<JoinedRow>)
    ensures forall j :: j in js <==>
      exists r, c :: r in rows && c in cats && c.srType == r.srType && j == JoinOf(r, c)
  {
    if rows == [] then []
    else Join(rows[..|rows| - 1], cats) + Matches(rows[|rows| - 1], cats)
  }

  /**
   * The join keeps the order of the service requests: the join of two runs of
   * rows is the join of the first followed by the join of the second.
   */
  lemma {:induction false} JoinConcat(a: seq<SrRow>, b: seq<SrRow>, cats: seq<CategoryRow>)
    ensures Join(a + b, cats) == Join(a, cats) + Join(b, cats)
    decreases |b|
  {
    if b == [] {
      assert a + b == a;
    } else {
      var n := |b| - 1;
      var ab := a + b;
      assert ab[..|ab| - 1] == a + b[..n] && ab[|ab| - 1] == b[n];
      calc {
        Join(ab, cats);
        Join(a + b[..n], cats) + Matches(b[n], cats);
        { JoinConcat(a, b[..n], cats); }
        Join(a, cats) + Join(b[..n], cats) + Matches(b[n], cats);
        Join(a, cats) + Join(b, cats);
      }
    }
  }

  /** The stages in the source's order, each applied to the frame the previous one left. */
  function Prepared(raw: seq<RawRecord>, cats: seq<CategoryRow>): seq<JoinedRow> {
    var normalised := NormaliseAll(Located(raw, cats));
    var kept := Filter(normalised, StatusKept);
    Join(kept, cats)
  }

  /** The rows the three raw-row filters keep. */
  function Located(raw: seq<RawRecord>, cats: seq<CategoryRow>): (located: seq<RawRecord>)
    ensures forall r :: r in located <==>
      r in raw && Listed(r.srType, cats) && NotAircraftNoise(r) && HasCoordinates(r)
  {
    var listed := Filter(raw, ListedIn(cats));
    FilterMembership(raw, ListedIn(cats));
    assert forall r :: r in listed <==> r in raw && Listed(r.srType, cats);
    var audible := Filter(listed, NotAircraftNoise);
    FilterMembership(listed, NotAircraftNoise);
    FilterMembership(audible, HasCoordinates);
    Filter(audible, HasCoordinates)
  }

  lemma NormaliseAllMembership(rows: seq<RawRecord>, n: SrRow)
    requires forall r :: r in rows ==> HasCoordinates(r)
    ensures n in NormaliseAll(rows) <==> exists r :: r in rows && n == Normalise(r)
  {
    var ns := NormaliseAll(rows);
    if n in ns {
      var i :| 0 <= i < |ns| && ns[i] == n;
      assert n == Normalise(rows[i]);
    }
    if exists r :: r in rows && n == Normalise(r) {
      var r :| r in rows && n == Normalise(r);
      var i :| 0 <= i < |rows| && rows[i] == r;
      assert ns[i] == n;
    }
  }

  /**
   * The preparation keeps the order of the raw rows: preparing two runs of
   * raw rows gives the joined rows of the first run followed by those of the
   * second.
   */
  lemma PreparedConcat(a: seq<RawRecord>, b: seq<RawRecord>, cats: seq<CategoryRow>)
    ensures Prepared(a + b, cats) == Prepared(a, cats) + Prepared(b, cats)
  {
    LocatedConcat(a, b, cats);
    var la, lb := Located(a, cats), Located(b, cats);
    NormaliseAllConcat(la, lb);
    FilterConcat(NormaliseAll(la), NormaliseAll(lb), StatusKept);
    JoinConcat(Filter(NormaliseAll(la), StatusKept), Filter(NormaliseAll(lb), StatusKept), cats);
  }

  lemma LocatedConcat(a: seq<RawRecord>, b: seq<RawRecord>, cats: seq<CategoryRow>)
    ensures Located(a + b, cats) == Located(a, cats) + Located(b, cats)
  {
    FilterConcat(a, b, ListedIn(cats));
    var la, lb := Filter(a, ListedIn(cats)), Filter(b, ListedIn(cats));
    FilterConcat(la, lb, NotAircraftNoise);
    FilterConcat(Filter(la, NotAircraftNoise), Filter(lb, NotAircraftNoise), HasCoordinates);
  }

  lemma NormaliseAllConcat(a: seq<RawRecord>, b: seq<RawRecord>)
    requires forall r :: r in a + b ==> HasCoordinates(r)
    ensures NormaliseAll(a + b) == NormaliseAll(a) + NormaliseAll(b)
  {
    assert forall r :: r in a ==> r in a + b;
    assert forall r :: r in b ==> r in a + b;
  }

  /**
   * A row is in the join exactly when it combines an eligible raw row, with its
   * columns rewritten, and a category row of the same type.
   */
  lemma PreparedMembership(raw: seq<RawRecord>, cats: seq<CategoryRow>, j: JoinedRow)
    ensures j in Prepared(raw, cats) <==>
      exists r, c :: r in raw && c in cats && Eligible(r, cats) && c.srType == r.srType &&
                     j == JoinOf(Normalise(r), c)
  {
    if j in Prepared(raw, cats) {
      PreparedFromEligible(raw, cats, j);
    }
    if exists r, c :: r in raw && c in cats && Eligible(r, cats) && c.srType == r.srType &&
                      j == JoinOf(Normalise(r), c) {
      var r, c :| r in raw && c in cats && Eligible(r, cats) && c.srType == r.srType &&
                  j == JoinOf(Normalise(r), c);
      EligibleIsPrepared(raw, cats, r, c);
    }
  }

  lemma PreparedFromEligible(raw: seq<RawRecord>, cats: seq<CategoryRow>, j: JoinedRow)
    requires j in Prepared(raw, cats)
    ensures exists r, c :: r in raw && c in cats && Eligible(r, cats) && c.srType == r.srType &&
                           j == JoinOf(Normalise(r), c)
  {
    var located := Located(raw, cats);
    var kept := Filter(NormaliseAll(located), StatusKept);
    FilterMembership(NormaliseAll(located), StatusKept);
    var n, c :| n in kept && c in cats && c.srType == n.srType && j == JoinOf(n, c);
    NormaliseAllMembership(located, n);
    var r :| r in located && n == Normalise(r);
    assert Eligible(r, cats);
  }

  lemma EligibleIsPrepared(raw: seq<RawRecord>, cats: seq<CategoryRow>, r: RawRecord, c: CategoryRow)
    requires r in raw && c in cats && Eligible(r, cats) && c.srType == r.srType
    ensures JoinOf(Normalise(r), c) in Prepared(raw, cats)
  {
    var located := Located(raw, cats);
    var kept := Filter(NormaliseAll(located), StatusKept);
    FilterMembership(NormaliseAll(located), StatusKept);
    assert r in located;
    NormaliseAllMembership(located, Normalise(r));
    assert Normalise(r) in kept;
  }

  /**
   * The filters, column rewrites and join as the source performs them: each
   * stage rebinds the frame to a new one built from the previous.
   */
  method PrepareRows(raw: seq<RawRecord>, cats: seq<CategoryRow>) returns (joined: seq<JoinedRow>)
    ensures joined == Prepared(raw, cats)
  {
    var listed := Retain(raw, ListedIn(cats));
    var audible := Retain(listed, NotAircraftNoise);
    var located := Retain(audible, HasCoordinates);
    FilterMembership(audible, HasCoordinates);
    var normalised := NormaliseRows(located);
    var kept := Retain(normalised, StatusKept);
    joined := JoinRows(kept, cats);
  }

  /** The column rewrites, row by row. */
  method NormaliseRows(located: seq<RawRecord>) returns (normalised: seq<SrRow>)
    requires forall r :: r in located ==> HasCoordinates(r)
    ensures normalised == NormaliseAll(located)
  {
    normalised := [];
    var i := 0;
    while i < |located|
      invariant 0 <= i <= |located|
      invariant |normalised| == i
      invariant forall k :: 0 <= k < i ==> normalised[k] == Normalise(located[k])
    {
      normalised := normalised + [Normalise(located[i])];
      i := i + 1;
    }
  }

  /** The inner merge on the type: for each row, its category rows in table order. */
  method JoinRows(rows: seq<SrRow>, cats: seq<CategoryRow>) returns (joined: seq<JoinedRow>)
    ensures joined == Join(rows, cats)
  {
    joined := [];
    var i := 0;
    while i < |rows|
      invariant 0 <= i <= |rows|
      invariant joined == Join(rows[..i], cats)
    {
      var matches: seq<JoinedRow> := [];
      var k := 0;
      while k < |cats|
        invariant 0 <= k <= |cats|
        invariant matches == Matches(rows[i], cats[..k])
      {
        assert cats[..k + 1][..k] == cats[..k];
        if cats[k].srType == rows[i].srType {
          matches := matches + [JoinOf(rows[i], cats[k])];
        }
        k := k + 1;
      }
      assert cats[..|cats|] == cats;
      assert rows[..i + 1][..i] == rows[..i];
      joined := joined + matches;
      i := i + 1;
    }
    assert rows[..|rows|] == rows;
  }
}
