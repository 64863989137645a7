/**
 * Collapsing the joined rows to one row per issue and status.
 *
 * Rows without a completion time are grouped by key into one "Open" row per
 * key; rows with one are grouped by key into one "Completed" row per key,
 * whose columns come from the first row reaching the group's largest
 * completion time.  The two results are concatenated, Completed first, and
 * sorted by creation date.
 */
module StatusResolver {

  import opened Wrappers
  import opened Sequences
  import opened ServiceRequests

  /** The group columns of a row: latitude, longitude, created date, category, sub-category and type. */
  function KeyOf(j: JoinedRow): (k: GroupKey)
    ensures k.latitude == j.latitude && k.longitude == j.longitude && k.createdDate == j.createdDate
    ensures k.category == j.category && k.subCategory == j.subCategory && k.srType == j.srType
  {
    GroupKey(j.latitude, j.longitude, j.createdDate, j.category, j.subCategory, j.srType)
  }

  predicate HasLatency(j: JoinedRow) {
    j.completionDays.Some?
  }

  predicate LacksLatency(j: JoinedRow) {
    j.completionDays.None?
  }

  /** The keys present among rows. */
  function KeySet(rows: seq<JoinedRow>): set<GroupKey> {
    set j | j in rows :: KeyOf(j)
  }

  /** The keys of rows, each once, in order of first appearance. */
  function DistinctKeys(rows: seq<JoinedRow>): (ks: seq<GroupKey>)
    ensures NoDuplicates(ks)
    ensures forall k :: k in ks <==> k in KeySet(rows)
  {
    if rows == [] then []
    else
      var init := rows[..|rows| - 1];
      var last := rows[|rows| - 1];
      var ks := DistinctKeys(init);
      assert KeySet(rows) == KeySet(init) + {KeyOf(last)} by {
        assert rows == init + [last];
      }
      if KeyOf(last) in ks then ks else ks + [KeyOf(last)]
  }

  /** The number of distinct keys is the size of the key set. */
  lemma DistinctKeysCount(rows: seq<JoinedRow>)
    ensures |DistinctKeys(rows)| == |KeySet(rows)|
  {
    var ks := DistinctKeys(rows);
    NoDuplicatesCardinality(ks);
    assert (set k | k in ks) == KeySet(rows);
  }

  function KeyIs(k: GroupKey): JoinedRow -> bool {
    (j: JoinedRow) => KeyOf(j) == k
  }

  /** The rows of key k with a completion time. */
  function ClosedWithKey(k: GroupKey): JoinedRow -> bool {
    (j: JoinedRow) => HasLatency(j) && KeyOf(j) == k
  }

  /** The rows of key k without a completion time. */
  function OpenWithKey(k: GroupKey): JoinedRow -> bool {
    (j: JoinedRow) => LacksLatency(j) && KeyOf(j) == k
  }

  /** The rows of one group, in their original order. */
  function Group(rows: seq<JoinedRow>, k: GroupKey): (g: seq<JoinedRow>)
    ensures forall j :: j in g <==> j in rows && KeyOf(j) == k
    ensures forall i :: 0 <= i < |g| ==> g[i] in rows && KeyOf(g[i]) == k
    ensures k in KeySet(rows) ==> g != []
    ensures (forall j :: j in rows ==> HasLatency(j)) ==> AllClosed(g)
  {
    var g := Filter(rows, KeyIs(k));
    FilterMembership(rows, KeyIs(k));
    assert k in KeySet(rows) ==> g != [] by {
      if k in KeySet(rows) {
        var j :| j in rows && KeyOf(j) == k;
        assert j in g;
      }
    }
    g
  }

  // ---------------------------------------------------------------------------
  // One group to one row.

  /**
   * The Open row of a group: every column is aggregated with 'first', which
   * takes the first value that is not missing, each column on its own.
   */
  function OpenCandidate(k: GroupKey, g: seq<JoinedRow>): (c: Candidate)
    requires g != []
    ensures c.key == k && c.status == Open
    ensures c.completionDays.None? <==> forall i :: 0 <= i < |g| ==> g[i].completionDays.None?
    ensures c.srNumber == g[0].srNumber
    ensures c.streetAddress == FirstPresent(Column(g, StreetOf))
    ensures c.communityArea == FirstPresent(Column(g, AreaOf))
  {
    var latencies := seq(|g|, i requires 0 <= i < |g| => g[i].completionDays);
    assert forall i :: 0 <= i < |g| ==> latencies[i] == g[i].completionDays;
    Candidate(k,
              FirstPresent(latencies),
              g[0].srNumber,
              Open,
              FirstPresent(Column(g, StreetOf)),
              FirstPresent(Column(g, AreaOf)))
  }

  function StreetOf(j: JoinedRow): Option<string> {
    j.streetAddress
  }

  function AreaOf(j: JoinedRow): Option<int> {
    j.communityArea
  }

  /** Every row of g has a completion time. */
  predicate AllClosed(g: seq<JoinedRow>) {
    forall i :: 0 <= i < |g| ==> g[i].completionDays.Some?
  }

  /** The completion time of a row that has one. */
  function LatencyOf(j: JoinedRow): int {
    if j.completionDays.Some? then j.completionDays.value else 0
  }

  /** Row m of g has the largest completion time of the group, and no earlier row does. */
  predicate IsFirstMax(g: seq<JoinedRow>, m: int)
    requires AllClosed(g)
  {
    && 0 <= m < |g|
    && (forall i :: 0 <= i < |g| ==> g[i].completionDays.value <= g[m].completionDays.value)
    && (forall i :: 0 <= i < m ==> g[i].completionDays.value < g[m].completionDays.value)
  }

  /**
   * The Completed row of a group (`get_max_row`): the completion time, SR
   * number, street address and area number of the first row reaching the
   * group's largest completion time.
   */
  function CompletedCandidate(k: GroupKey, g: seq<JoinedRow>): (c: Candidate)
    requires g != [] && AllClosed(g)
    ensures c.key == k && c.status == Completed && c.completionDays.Some?
    ensures exists m :: (IsFirstMax(g, m) &&
      c.completionDays == g[m].completionDays && c.srNumber == g[m].srNumber &&
      c.streetAddress == g[m].streetAddress && c.communityArea == g[m].communityArea)
  {
    var m := FirstMaxIndex(Column(g, LatencyOf));
    assert IsFirstMax(g, m);
    Candidate(k, g[m].completionDays, g[m].srNumber, Completed, g[m].streetAddress, g[m].communityArea)
  }

  /** With completion times 3, 7, 7, 2 the Completed row is taken from the first 7. */
  lemma CompletedCandidateExample(k: GroupKey, g: seq<JoinedRow>)
    requires |g| == 4
    requires g[0].completionDays == Some(3) && g[1].completionDays == Some(7)
    requires g[2].completionDays == Some(7) && g[3].completionDays == Some(2)
    ensures CompletedCandidate(k, g).completionDays == Some(7)
    ensures CompletedCandidate(k, g).srNumber == g[1].srNumber
    ensures CompletedCandidate(k, g).streetAddress == g[1].streetAddress
    ensures CompletedCandidate(k, g).communityArea == g[1].communityArea
  {
    assert Column(g, LatencyOf) == [3, 7, 7, 2];
    FirstMaxIndexExample();
  }

  // ---------------------------------------------------------------------------
  // All groups.

  function CompletedCandidates(done: seq<JoinedRow>, ks: seq<GroupKey>): (cs: seq<Candidate>)
    requires forall j :: j in done ==> HasLatency(j)
    requires forall k :: k in ks ==> k in KeySet(done)
    ensures |cs| == |ks|
    ensures forall i :: 0 <= i < |ks| ==> cs[i] == CompletedCandidate(ks[i], Group(done, ks[i]))
  {
    seq(|ks|, i requires 0 <= i < |ks| => CompletedCandidate(ks[i], Group(done, ks[i])))
  }

  function OpenCandidates(pending: seq<JoinedRow>, ks: seq<GroupKey>): (cs: seq<Candidate>)
    requires forall k :: k in ks ==> k in KeySet(pending)
    ensures |cs| == |ks|
    ensures forall i :: 0 <= i < |ks| ==> cs[i] == OpenCandidate(ks[i], Group(pending, ks[i]))
  {
    seq(|ks|, i requires 0 <= i < |ks| => OpenCandidate(ks[i], Group(pending, ks[i])))
  }

  lemma CompletedCandidatesMember(done: seq<JoinedRow>, ks: seq<GroupKey>, c: Candidate)
    requires forall j :: j in done ==> HasLatency(j)
    requires forall k :: k in ks ==> k in KeySet(done)
    requires c in CompletedCandidates(done, ks)
    ensures c.key in ks && c == CompletedCandidate(c.key, Group(done, c.key))
  {
    var cs := CompletedCandidates(done, ks);
    var i :| 0 <= i < |cs| && cs[i] == c;
  }

  lemma OpenCandidatesMember(pending: seq<JoinedRow>, ks: seq<GroupKey>, c: Candidate)
    requires forall k :: k in ks ==> k in KeySet(pending)
    requires c in OpenCandidates(pending, ks)
    ensures c.key in ks && c == OpenCandidate(c.key, Group(pending, c.key))
  {
    var os := OpenCandidates(pending, ks);
    var i :| 0 <= i < |os| && os[i] == c;
  }

  function Done(rows: seq<JoinedRow>): (done: seq<JoinedRow>)
    ensures forall j :: j in done <==> j in rows && HasLatency(j)
  {
    FilterMembership(rows, HasLatency);
    Filter(rows, HasLatency)
  }

  function Pending(rows: seq<JoinedRow>): (pending: seq<JoinedRow>)
    ensures forall j :: j in pending <==> j in rows && LacksLatency(j)
  {
    FilterMembership(rows, LacksLatency);
    Filter(rows, LacksLatency)
  }

  /** The concatenation of the two groupings: the Completed rows, then the Open rows. */
  function Resolve(rows: seq<JoinedRow>): (cs: seq<Candidate>)
    ensures |cs| == |DistinctKeys(Done(rows))| + |DistinctKeys(Pending(rows))|
  {
    var done := Done(rows);
    var pending := Pending(rows);
    CompletedCandidates(done, DistinctKeys(done)) + OpenCandidates(pending, DistinctKeys(pending))
  }

  /**
   * Every row of the result is an Open row for a key of the rows without a
   * completion time, or a Completed row for a key of the rows with one.
   */
  lemma ResolveStatuses(rows: seq<JoinedRow>, c: Candidate)
    requires c in Resolve(rows)
    ensures || (c.status == Open && c.completionDays.None? && c.key in KeySet(Pending(rows)))
            || (c.status == Completed && c.completionDays.Some? && c.key in KeySet(Done(rows)))
  {
    var done, pending := Done(rows), Pending(rows);
    var cs, os := CompletedCandidates(done, DistinctKeys(done)), OpenCandidates(pending, DistinctKeys(pending));
    assert Resolve(rows) == cs + os;
    if c in cs {
      CompletedCandidatesMember(done, DistinctKeys(done), c);
    } else {
      OpenCandidatesMember(pending, DistinctKeys(pending), c);
      var g := Group(pending, c.key);
      assert forall x :: 0 <= x < |g| ==> g[x] in pending;
    }
  }

  /** The result has one row per key with a completion time plus one per key without. */
  lemma ResolveCardinality(rows: seq<JoinedRow>)
    ensures |Resolve(rows)| == |KeySet(Done(rows))| + |KeySet(Pending(rows))|
  {
    DistinctKeysCount(Done(rows));
    DistinctKeysCount(Pending(rows));
  }

  /** No two rows of the result share both key and status. */
  lemma ResolveOnePerKeyAndStatus(rows: seq<JoinedRow>, a: int, b: int)
    requires 0 <= a < b < |Resolve(rows)|
    ensures Resolve(rows)[a].key != Resolve(rows)[b].key || Resolve(rows)[a].status != Resolve(rows)[b].status
  {
    var done, pending := Done(rows), Pending(rows);
    var dk, pk := DistinctKeys(done), DistinctKeys(pending);
    var cs, os := CompletedCandidates(done, dk), OpenCandidates(pending, pk);
    assert Resolve(rows) == cs + os;
    if b < |cs| {
      assert dk[a] != dk[b];
    } else if a >= |cs| {
      assert pk[a - |cs|] != pk[b - |cs|];
    }
  }

  /** The result has no repeated rows. */
  lemma ResolveNoDuplicates(rows: seq<JoinedRow>)
    ensures NoDuplicates(Resolve(rows))
  {
    var resolved := Resolve(rows);
    forall a, b | 0 <= a < b < |resolved| ensures resolved[a] != resolved[b] {
      ResolveOnePerKeyAndStatus(rows, a, b);
    }
  }

  /** Two rows of the result with the same key and status are the same row. */
  lemma ResolveSameKeyAndStatus(rows: seq<JoinedRow>, x: Candidate, y: Candidate)
    requires x in Resolve(rows) && y in Resolve(rows)
    requires x.key == y.key && x.status == y.status
    ensures x == y
  {
    var resolved := Resolve(rows);
    var a :| 0 <= a < |resolved| && resolved[a] == x;
    var b :| 0 <= b < |resolved| && resolved[b] == y;
    if a < b {
      ResolveOnePerKeyAndStatus(rows, a, b);
    } else if b < a {
      ResolveOnePerKeyAndStatus(rows, b, a);
    }
  }

  /** Every key of the rows with a completion time has a Completed row, every other key an Open row. */
  lemma ResolveCoversKeys(rows: seq<JoinedRow>, k: GroupKey)
    ensures k in KeySet(Done(rows)) ==> exists c :: c in Resolve(rows) && c.key == k && c.status == Completed
    ensures k in KeySet(Pending(rows)) ==> exists c :: c in Resolve(rows) && c.key == k && c.status == Open
  {
    var done, pending := Done(rows), Pending(rows);
    var dk, pk := DistinctKeys(done), DistinctKeys(pending);
    var cs, os := CompletedCandidates(done, dk), OpenCandidates(pending, pk);
    assert Resolve(rows) == cs + os;
    if k in KeySet(done) {
      var i :| 0 <= i < |dk| && dk[i] == k;
      assert cs[i] in Resolve(rows);
    }
    if k in KeySet(pending) {
      var i :| 0 <= i < |pk| && pk[i] == k;
      assert os[i] in Resolve(rows);
    }
  }

  /** A Completed row is the Completed row of its key's group among the rows with a completion time. */
  lemma ResolveCompletedGroup(rows: seq<JoinedRow>, c: Candidate)
    requires c in Resolve(rows) && c.status == Completed
    ensures AllClosed(Group(Done(rows), c.key))
    ensures Group(Done(rows), c.key) != []
    ensures c == CompletedCandidate(c.key, Group(Done(rows), c.key))
    ensures Group(Done(rows), c.key) == Filter(rows, ClosedWithKey(c.key))
  {
    var done, pending := Done(rows), Pending(rows);
    var dk, pk := DistinctKeys(done), DistinctKeys(pending);
    var cs, os := CompletedCandidates(done, dk), OpenCandidates(pending, pk);
    assert Resolve(rows) == cs + os;
    if c in os {
      OpenCandidatesMember(pending, pk, c);
      assert false;
    }
    CompletedCandidatesMember(done, dk, c);
    FilterFilter(rows, HasLatency, KeyIs(c.key), ClosedWithKey(c.key));
  }

  /** An Open row is the Open row of its key's group among the rows without a completion time. */
  lemma ResolveOpenGroup(rows: seq<JoinedRow>, c: Candidate)
    requires c in Resolve(rows) && c.status == Open
    ensures Group(Pending(rows), c.key) != []
    ensures c == OpenCandidate(c.key, Group(Pending(rows), c.key))
    ensures Group(Pending(rows), c.key) == Filter(rows, OpenWithKey(c.key))
  {
    var done, pending := Done(rows), Pending(rows);
    var dk, pk := DistinctKeys(done), DistinctKeys(pending);
    var cs, os := CompletedCandidates(done, dk), OpenCandidates(pending, pk);
    assert Resolve(rows) == cs + os;
    if c in cs {
      CompletedCandidatesMember(done, dk, c);
      assert false;
    }
    OpenCandidatesMember(pending, pk, c);
    FilterFilter(rows, LacksLatency, KeyIs(c.key), OpenWithKey(c.key));
  }

  /**
   * A Completed row carries the largest completion time among its key's rows,
   * and its SR number, street address and area number come from the first
   * row, in the order of the input rows, that reaches it.
   */
  lemma ResolveCompletedIsFirstMax(rows: seq<JoinedRow>, c: Candidate)
    requires c in Resolve(rows) && c.status == Completed
    ensures c.completionDays.Some?
    ensures forall q :: 0 <= q < |rows| && KeyOf(rows[q]) == c.key && HasLatency(rows[q]) ==>
      rows[q].completionDays.value <= c.completionDays.value
    ensures exists p :: (0 <= p < |rows| && KeyOf(rows[p]) == c.key &&
      rows[p].completionDays == c.completionDays && rows[p].srNumber == c.srNumber &&
      rows[p].streetAddress == c.streetAddress && rows[p].communityArea == c.communityArea &&
      forall q :: 0 <= q < p && KeyOf(rows[q]) == c.key && HasLatency(rows[q]) ==>
        rows[q].completionDays.value < c.completionDays.value)
  {
    ResolveCompletedGroup(rows, c);
    var g := Filter(rows, ClosedWithKey(c.key));
    var top := g[FirstMaxIndex(Column(g, LatencyOf))];
    assert c.completionDays == top.completionDays && c.srNumber == top.srNumber &&
           c.streetAddress == top.streetAddress && c.communityArea == top.communityArea;
    FirstMaxInInputOrder(rows, c.key);
  }

  /** The row `idxmax` picks from a group is its first maximum in the order of the input rows. */
  lemma FirstMaxInInputOrder(rows: seq<JoinedRow>, k: GroupKey)
    requires Filter(rows, ClosedWithKey(k)) != []
    ensures var g := Filter(rows, ClosedWithKey(k));
      var top := g[FirstMaxIndex(Column(g, LatencyOf))];
      && KeyOf(top) == k && HasLatency(top)
      && (forall q :: 0 <= q < |rows| && KeyOf(rows[q]) == k && HasLatency(rows[q]) ==>
            rows[q].completionDays.value <= top.completionDays.value)
      && exists p :: (0 <= p < |rows| && rows[p] == top &&
           forall q :: 0 <= q < p && KeyOf(rows[q]) == k && HasLatency(rows[q]) ==>
             rows[q].completionDays.value < top.completionDays.value)
  {
    var keep := ClosedWithKey(k);
    var g := Filter(rows, keep);
    var top := g[FirstMaxIndex(Column(g, LatencyOf))];
    FirstMaxOfSelection(rows, keep, LatencyOf);
    var p :| 0 <= p < |rows| && keep(rows[p]) && rows[p] == top &&
             forall q :: 0 <= q < p && keep(rows[q]) ==> LatencyOf(rows[q]) < LatencyOf(top);
    forall q | 0 <= q < |rows| && KeyOf(rows[q]) == k && HasLatency(rows[q])
      ensures rows[q].completionDays.value <= top.completionDays.value
    {
      assert keep(rows[q]);
    }
    forall q | 0 <= q < p && KeyOf(rows[q]) == k && HasLatency(rows[q])
      ensures rows[q].completionDays.value < top.completionDays.value
    {
      assert keep(rows[q]);
    }
  }

  /** An Open row's SR number is that of the first input row of its key without a completion time. */
  lemma ResolveOpenNumberIsFirst(rows: seq<JoinedRow>, c: Candidate)
    requires c in Resolve(rows) && c.status == Open
    ensures c.completionDays.None?
    ensures exists p :: (0 <= p < |rows| && KeyOf(rows[p]) == c.key && LacksLatency(rows[p]) &&
      rows[p].srNumber == c.srNumber &&
      forall q :: 0 <= q < p ==> !(KeyOf(rows[q]) == c.key && LacksLatency(rows[q])))
  {
    ResolveOpenGroup(rows, c);
    FirstOpenInInputOrder(rows, c.key);
  }

  /** The first row of an Open group is the first input row of its key without a completion time. */
  lemma FirstOpenInInputOrder(rows: seq<JoinedRow>, k: GroupKey)
    requires Filter(rows, OpenWithKey(k)) != []
    ensures exists p :: (0 <= p < |rows| && KeyOf(rows[p]) == k && LacksLatency(rows[p]) &&
      rows[p] == Filter(rows, OpenWithKey(k))[0] &&
      forall q :: 0 <= q < p ==> !(KeyOf(rows[q]) == k && LacksLatency(rows[q])))
  {
    var keep := OpenWithKey(k);
    FilterPositionOf(rows, keep, 0);
    var p :| 0 <= p < |rows| && keep(rows[p]) && rows[p] == Filter(rows, keep)[0] && |Filter(rows[..p], keep)| == 0;
    forall q | 0 <= q < p ensures !(KeyOf(rows[q]) == k && LacksLatency(rows[q])) {
      if keep(rows[q]) {
        FilterPrefixGrows(rows, keep, q, p);
      }
    }
  }

  /**
   * An Open row's street address is the first one present among its key's
   * input rows without a completion time, in input order, and is missing only
   * when all of them lack one.
   */
  lemma ResolveOpenStreetIsFirst(rows: seq<JoinedRow>, c: Candidate)
    requires c in Resolve(rows) && c.status == Open
    ensures c.streetAddress.None? <==>
      forall q :: 0 <= q < |rows| && KeyOf(rows[q]) == c.key && LacksLatency(rows[q]) ==> rows[q].streetAddress.None?
    ensures c.streetAddress.Some? ==> exists p :: (0 <= p < |rows| && KeyOf(rows[p]) == c.key &&
      LacksLatency(rows[p]) && rows[p].streetAddress == c.streetAddress &&
      forall q :: 0 <= q < p && KeyOf(rows[q]) == c.key && LacksLatency(rows[q]) ==> rows[q].streetAddress.None?)
  {
    ResolveOpenGroup(rows, c);
    FirstStreetInInputOrder(rows, c.key);
  }

  lemma FirstStreetInInputOrder(rows: seq<JoinedRow>, k: GroupKey)
    ensures var v := FirstPresent(Column(Filter(rows, OpenWithKey(k)), StreetOf));
      && (v.None? <==>
            forall q :: 0 <= q < |rows| && KeyOf(rows[q]) == k && LacksLatency(rows[q]) ==> rows[q].streetAddress.None?)
      && (v.Some? ==> exists p :: (0 <= p < |rows| && KeyOf(rows[p]) == k &&
            LacksLatency(rows[p]) && rows[p].streetAddress == v &&
            forall q :: 0 <= q < p && KeyOf(rows[q]) == k && LacksLatency(rows[q]) ==> rows[q].streetAddress.None?))
  {
    FirstPresentOfSelection(rows, OpenWithKey(k), StreetOf);
  }

  /**
   * An Open row's area number is the first one present among its key's input
   * rows without a completion time, in input order, and is missing only when
   * all of them lack one.
   */
  lemma ResolveOpenAreaIsFirst(rows: seq<JoinedRow>, c: Candidate)
    requires c in Resolve(rows) && c.status == Open
    ensures c.communityArea.None? <==>
      forall q :: 0 <= q < |rows| && KeyOf(rows[q]) == c.key && LacksLatency(rows[q]) ==> rows[q].communityArea.None?
    ensures c.communityArea.Some? ==> exists p :: (0 <= p < |rows| && KeyOf(rows[p]) == c.key &&
      LacksLatency(rows[p]) && rows[p].communityArea == c.communityArea &&
      forall q :: 0 <= q < p && KeyOf(rows[q]) == c.key && LacksLatency(rows[q]) ==> rows[q].communityArea.None?)
  {
    ResolveOpenGroup(rows, c);
    FirstAreaInInputOrder(rows, c.key);
  }

  lemma FirstAreaInInputOrder(rows: seq<JoinedRow>, k: GroupKey)
    ensures var v := FirstPresent(Column(Filter(rows, OpenWithKey(k)), AreaOf));
      && (v.None? <==>
            forall q :: 0 <= q < |rows| && KeyOf(rows[q]) == k && LacksLatency(rows[q]) ==> rows[q].communityArea.None?)
      && (v.Some? ==> exists p :: (0 <= p < |rows| && KeyOf(rows[p]) == k &&
            LacksLatency(rows[p]) && rows[p].communityArea == v &&
            forall q :: 0 <= q < p && KeyOf(rows[q]) == k && LacksLatency(rows[q]) ==> rows[q].communityArea.None?))
  {
    FirstPresentOfSelection(rows, OpenWithKey(k), AreaOf);
  }

  /**
   * Every row of the result takes its key and SR number from one input row:
   * for a Completed row that row has the same completion time, street address
   * and area number, for an Open row it has no completion time.
   */
  lemma ResolveProvenance(rows: seq<JoinedRow>, c: Candidate)
    requires c in Resolve(rows)
    ensures exists j :: (j in rows && KeyOf(j) == c.key && j.srNumber == c.srNumber &&
      (c.status == Completed ==> j.completionDays == c.completionDays &&
                                 j.streetAddress == c.streetAddress && j.communityArea == c.communityArea) &&
      (c.status == Open ==> j.completionDays.None?))
  {
    var done, pending := Done(rows), Pending(rows);
    var dk, pk := DistinctKeys(done), DistinctKeys(pending);
    var cs, os := CompletedCandidates(done, dk), OpenCandidates(pending, pk);
    assert Resolve(rows) == cs + os;
    if c in cs {
      CompletedCandidatesMember(done, dk, c);
      var g := Group(done, c.key);
      var m :| IsFirstMax(g, m) && c.completionDays == g[m].completionDays && c.srNumber == g[m].srNumber &&
               c.streetAddress == g[m].streetAddress && c.communityArea == g[m].communityArea;
      assert g[m] in done;
    } else {
      OpenCandidatesMember(pending, pk, c);
      var g := Group(pending, c.key);
      assert g[0] in pending;
    }
  }

  // ---------------------------------------------------------------------------
  // The sort by creation date.

  predicate SortedByCreated(s: seq<Candidate>) {
    forall i, j :: 0 <= i < j < |s| ==> s[i].key.createdDate <= s[j].key.createdDate
  }

  function InsertByCreated(c: Candidate, s: seq<Candidate>): (r: seq<Candidate>)
    requires SortedByCreated(s)
    ensures SortedByCreated(r)
    ensures multiset(r) == multiset(s) + multiset{c}
    ensures forall x :: x in r ==> x == c || x in s
  {
    if s == [] then [c]
    else if c.key.createdDate <= s[0].key.createdDate then
      SortedCons(c, s);
      [c] + s
    else
      var rest := InsertByCreated(c, s[1..]);
      assert s == [s[0]] + s[1..];
      SortedCons(s[0], rest);
      [s[0]] + rest
  }

  /** A row no later than every row of a sorted sequence can go in front of it. */
  lemma SortedCons(x: Candidate, t: seq<Candidate>)
    requires SortedByCreated(t)
    requires forall y :: y in t ==> x.key.createdDate <= y.key.createdDate
    ensures SortedByCreated([x] + t)
  {
    var r := [x] + t;
    forall i, j | 0 <= i < j < |r| ensures r[i].key.createdDate <= r[j].key.createdDate {
      assert r[j] == t[j - 1];
      if i > 0 {
        assert r[i] == t[i - 1];
      }
    }
  }

  /**
   * The sort on the created date: some ordering of the rows by creation date.
   * The source's sort is not stable, so nothing is promised about the order
   * of rows created on the same day.
   */
  function SortByCreated(s: seq<Candidate>): (r: seq<Candidate>)
    ensures SortedByCreated(r)
    ensures multiset(r) == multiset(s)
  {
    if s == [] then []
    else
      assert s == [s[0]] + s[1..];
      InsertByCreated(s[0], SortByCreated(s[1..]))
  }
}
