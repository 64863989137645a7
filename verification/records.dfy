/**
 * The rows the service-request transformation reads and writes.
 *
 * Dates are day numbers (see module Calendar).  Latitude and longitude are
 * only ever compared for equality, so they are modelled as opaque integers.
 * Only the columns that the transformation reads or that reach its output
 * are kept.
 */
module ServiceRequests {

  import opened Wrappers
  import Calendar

  type Coord = int
  type Day = Calendar.Ordinal
  type SecondOfDay = s: int | 0 <= s < 86400

  /** A timestamp column value: a calendar day and a time of day on it. */
  datatype Timestamp = Timestamp(date: Day, secondOfDay: SecondOfDay)

  /** A row of the raw service-request table. */
  datatype RawRecord = RawRecord(
    srNumber: string,
    srType: string,
    status: string,
    created: Timestamp,
    closed: Option<Timestamp>,
    streetAddress: Option<string>,
    streetName: Option<string>,
    streetType: Option<string>,
    communityArea: Option<int>,
    createdDayOfWeek: int,
    latitude: Option<Coord>,
    longitude: Option<Coord>)

  /** A row of the category table: the category and sub-category of one service-request type. */
  datatype CategoryRow = CategoryRow(category: string, subCategory: string, srType: string)

  /** A raw row once it has coordinates, its dates cut to days and its completion time computed. */
  datatype SrRow = SrRow(
    srNumber: string,
    srType: string,
    status: string,
    createdDate: Day,
    closedDate: Option<Day>,
    completionDays: Option<int>,
    streetAddress: Option<string>,
    streetName: Option<string>,
    streetType: Option<string>,
    communityArea: Option<int>,
    createdDayOfWeek: Option<string>,
    latitude: Coord,
    longitude: Coord)

  /** A row of the join of the service requests with the category table, with the selected columns. */
  datatype JoinedRow = JoinedRow(
    srNumber: string,
    srType: string,
    status: string,
    createdDate: Day,
    closedDate: Option<Day>,
    completionDays: Option<int>,
    category: string,
    subCategory: string,
    streetAddress: Option<string>,
    communityArea: Option<int>,
    latitude: Coord,
    longitude: Coord)

  /** The columns that identify one issue: same place, same day, same kind of request. */
  datatype GroupKey = GroupKey(
    latitude: Coord,
    longitude: Coord,
    createdDate: Day,
    category: string,
    subCategory: string,
    srType: string)

  /** One row per group and status, before the derived columns are added. */
  datatype Candidate = Candidate(
    key: GroupKey,
    completionDays: Option<int>,
    srNumber: string,
    status: string,
    streetAddress: Option<string>,
    communityArea: Option<int>)

  /** A row of the processed table. */
  datatype ResolvedRecord = ResolvedRecord(
    key: GroupKey,
    completionDays: Option<int>,
    srNumber: string,
    status: string,
    streetAddress: Option<string>,
    communityArea: Option<int>,
    closedDate: Option<int>,
    openDays: Option<int>)

  const AircraftNoise := "Aircraft Noise Complaint"
  const Open := "Open"
  const Completed := "Completed"

  // ---------------------------------------------------------------------------
  // Day-of-week names.

  /** Day-of-week numbers as the raw table has them (1 is Sunday) and their names. */
  const DayMapping: map<int, string> := map[1 := "Sunday", 2 := "Monday", 3 := "Tuesday",
    4 := "Wednesday", 5 := "Thursday", 6 := "Friday", 7 := "Saturday"]

  /** `Series.map(day_mapping)`: a number outside the mapping becomes missing. */
  function DayName(n: int): (r: Option<string>)
    ensures r.Some? <==> 1 <= n <= 7
  {
    if n in DayMapping then Some(DayMapping[n]) else None
  }

  /** The mapping is one-to-one: no two day numbers share a name. */
  lemma DayMappingInjective(a: int, b: int)
    requires 1 <= a <= 7 && 1 <= b <= 7 && a != b
    ensures DayName(a) != DayName(b)
  {
  }

  // ---------------------------------------------------------------------------
  // Title case, for ASCII text.

  predicate IsLetter(c: char) {
    'a' <= c <= 'z' || 'A' <= c <= 'Z'
  }

  function ToUpper(c: char): char {
    if 'a' <= c <= 'z' then (c as int - 32) as char else c
  }

  function ToLower(c: char): char {
    if 'A' <= c <= 'Z' then (c as int + 32) as char else c
  }

  /**
   * The title-cased character at position i of s: a letter is upper-cased when
   * it starts a run of letters and lower-cased otherwise; other characters are
   * kept.  afterLetter says whether the character before s was a letter.
   */
  function TitleCharAt(s: string, i: nat, afterLetter: bool): char
    requires i < |s|
  {
    var startsWord := if i == 0 then !afterLetter else !IsLetter(s[i - 1]);
    if !IsLetter(s[i]) then s[i] else if startsWord then ToUpper(s[i]) else ToLower(s[i])
  }

  /** `str.title()` restricted to ASCII, in one left-to-right pass. */
  function TitleCaseFrom(s: string, afterLetter: bool): (r: string)
    ensures |r| == |s|
    ensures forall i :: 0 <= i < |s| ==> r[i] == TitleCharAt(s, i, afterLetter)
  {
    if s == [] then []
    else
      var rest := TitleCaseFrom(s[1..], IsLetter(s[0]));
      var r := [TitleCharAt(s, 0, afterLetter)] + rest;
      assert forall i :: 1 <= i < |s| ==> r[i] == TitleCharAt(s, i, afterLetter) by {
        forall i | 1 <= i < |s| ensures r[i] == TitleCharAt(s, i, afterLetter) {
          assert r[i] == rest[i - 1] == TitleCharAt(s[1..], i - 1, IsLetter(s[0]));
          assert s[1..][i - 1] == s[i];
          if i > 1 { assert s[1..][i - 2] == s[i - 1]; }
        }
      }
      r
  }

  function TitleCase(s: string): (r: string)
    ensures |r| == |s|
    ensures forall i :: 0 <= i < |s| ==> r[i] == TitleCharAt(s, i, false)
  {
    TitleCaseFrom(s, false)
  }

  /** Title-casing keeps which characters are letters, and title-casing twice changes nothing. */
  lemma TitleCaseIdempotent(s: string)
    ensures forall i :: 0 <= i < |s| ==> (IsLetter(TitleCase(s)[i]) <==> IsLetter(s[i]))
    ensures TitleCase(TitleCase(s)) == TitleCase(s)
  {
    var t := TitleCase(s);
    forall i | 0 <= i < |s| ensures IsLetter(t[i]) <==> IsLetter(s[i]) {
      CaseKeepsLetters(s[i]);
    }
    forall i | 0 <= i < |s| ensures TitleCase(t)[i] == t[i] {
      CaseKeepsLetters(s[i]);
      if i > 0 { CaseKeepsLetters(s[i - 1]); }
    }
  }

  lemma CaseKeepsLetters(c: char)
    ensures IsLetter(ToUpper(c)) <==> IsLetter(c)
    ensures IsLetter(ToLower(c)) <==> IsLetter(c)
    ensures ToUpper(ToUpper(c)) == ToUpper(c) && ToLower(ToLower(c)) == ToLower(c)
  {
  }

  /** A missing value stays missing (`Series.str.title()` on NaN). */
  function TitleCaseColumn(v: Option<string>): (r: Option<string>)
    ensures r.Some? <==> v.Some?
    ensures v.Some? ==> r.value == TitleCase(v.value)
  {
    if v.Some? then Some(TitleCase(v.value)) else None
  }
}
