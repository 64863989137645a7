/** Row-order-preserving operations on frames modelled as sequences. */
module Sequences {

  import opened Wrappers

  /**
   * The rows of s that satisfy keep, in their original order (a boolean-mask
   * selection).  Which rows it holds is stated by FilterMembership, and the
   * order they keep by FilterConcat and FilterKeepsOrder.
   */
  function Filter<T(!new)>(s: seq<T>, keep: T -> bool): (r: seq<T>)
    ensures |r| <= |s|
  {
    if s == [] then []
    else Filter(s[..|s| - 1], keep) + (if keep(s[|s| - 1]) then [s[|s| - 1]] else [])
  }

  /** A row is selected exactly when it is a row of s that satisfies keep. */
  lemma {:induction false} FilterMembership<T(!new)>(s: seq<T>, keep: T -> bool)
    ensures forall x :: x in Filter(s, keep) <==> x in s && keep(x)
  {
    if s != [] {
      var init := s[..|s| - 1];
      FilterMembership(init, keep);
      assert s == init + [s[|s| - 1]];
    }
  }

  /** The selection as the source performs it: one pass over the frame, keeping matching rows. */
  method Retain<T(!new)>(s: seq<T>, keep: T -> bool) returns (r: seq<T>)
    ensures r == Filter(s, keep)
  {
    r := [];
    var i := 0;
    while i < |s|
      invariant 0 <= i <= |s|
      invariant r == Filter(s[..i], keep)
    {
      assert s[..i + 1][..i] == s[..i];
      if keep(s[i]) {
        r := r + [s[i]];
      }
      i := i + 1;
    }
    assert s[..|s|] == s;
  }

  /** Selecting from two frames one after the other selects from each in turn: the selection keeps row order. */
  lemma {:induction false} FilterConcat<T(!new)>(s: seq<T>, t: seq<T>, keep: T -> bool)
    ensures Filter(s + t, keep) == Filter(s, keep) + Filter(t, keep)
    decreases |t|
  {
    if t == [] {
      assert s + t == s;
    } else {
      var init := t[..|t| - 1];
      assert (s + t)[..|s + t| - 1] == s + init;
      FilterConcat(s, init, keep);
    }
  }

  /** Two selections in a row keep the rows that meet both masks. */
  lemma {:induction false} FilterFilter<T(!new)>(s: seq<T>, p: T -> bool, q: T -> bool, both: T -> bool)
    requires forall x :: both(x) == (p(x) && q(x))
    ensures Filter(Filter(s, p), q) == Filter(s, both)
  {
    if s != [] {
      var init := s[..|s| - 1];
      var last := s[|s| - 1];
      FilterFilter(init, p, q, both);
      var tail := if p(last) then [last] else [];
      FilterConcat(Filter(init, p), tail, q);
      if p(last) {
        assert [last][..0] == [];
      }
    }
  }

  /**
   * A kept row sits in the selection at the position given by the number of
   * kept rows before it.
   */
  lemma FilterIndexOf<T(!new)>(s: seq<T>, keep: T -> bool, p: int)
    requires 0 <= p < |s| && keep(s[p])
    ensures |Filter(s[..p], keep)| < |Filter(s, keep)|
    ensures Filter(s, keep)[|Filter(s[..p], keep)|] == s[p]
  {
    assert s == s[..p] + [s[p]] + s[p + 1..];
    FilterConcat(s[..p] + [s[p]], s[p + 1..], keep);
    FilterConcat(s[..p], [s[p]], keep);
    assert [s[p]][..0] == [];
  }

  /** Every row of the selection is a kept row of s, at a position with as many kept rows before it. */
  lemma {:induction false} FilterPositionOf<T(!new)>(s: seq<T>, keep: T -> bool, i: int)
    requires 0 <= i < |Filter(s, keep)|
    ensures exists p :: 0 <= p < |s| && keep(s[p]) && s[p] == Filter(s, keep)[i] && |Filter(s[..p], keep)| == i
  {
    var init := s[..|s| - 1];
    if i < |Filter(init, keep)| {
      FilterPositionOf(init, keep, i);
      var p :| 0 <= p < |init| && keep(init[p]) && init[p] == Filter(init, keep)[i] && |Filter(init[..p], keep)| == i;
      assert s[p] == init[p] && s[..p] == init[..p];
    }
  }

  /** A kept row before position p adds to the count of kept rows before p. */
  lemma FilterPrefixGrows<T(!new)>(s: seq<T>, keep: T -> bool, q: int, p: int)
    requires 0 <= q < p <= |s| && keep(s[q])
    ensures |Filter(s[..q], keep)| < |Filter(s[..p], keep)|
  {
    assert s[..p] == s[..q] + s[q..p];
    FilterConcat(s[..q], s[q..p], keep);
    FilterIndexOf(s[q..p], keep, 0);
  }

  /**
   * The selection keeps the relative order of the rows: of two kept rows, the
   * earlier one in s comes earlier in the selection.
   */
  lemma FilterKeepsOrder<T(!new)>(s: seq<T>, keep: T -> bool, q: int, p: int)
    requires 0 <= q < p < |s| && keep(s[q]) && keep(s[p])
    ensures var r := Filter(s, keep);
      && |Filter(s[..q], keep)| < |Filter(s[..p], keep)| < |r|
      && r[|Filter(s[..q], keep)|] == s[q] && r[|Filter(s[..p], keep)|] == s[p]
  {
    FilterIndexOf(s, keep, q);
    FilterIndexOf(s, keep, p);
    FilterPrefixGrows(s, keep, q, p);
  }

  predicate NoDuplicates<T(==)>(s: seq<T>) {
    forall i, j :: 0 <= i < j < |s| ==> s[i] != s[j]
  }

  /** A sequence without duplicates is as long as the set of its elements is large. */
  lemma {:induction false} NoDuplicatesCardinality<T>(s: seq<T>)
    requires NoDuplicates(s)
    ensures |set x | x in s| == |s|
  {
    if s != [] {
      var last := s[|s| - 1];
      var init := s[..|s| - 1];
      NoDuplicatesCardinality(init);
      assert (set x | x in s) == (set x | x in init) + {last} by {
        forall x | x in s ensures x in init || x == last {
          var i :| 0 <= i < |s| && s[i] == x;
          if i < |s| - 1 { assert init[i] == x; }
        }
      }
      assert last !in init by {
        forall i | 0 <= i < |init| ensures init[i] != last {
          assert s[i] == init[i];
        }
      }
    }
  }

  /** In a sequence without duplicates every value occurs at most once. */
  lemma {:induction false} DistinctMultiplicity<T>(s: seq<T>, x: T)
    requires NoDuplicates(s)
    ensures multiset(s)[x] <= 1
  {
    if s != [] {
      var init := s[..|s| - 1];
      assert s == init + [s[|s| - 1]];
      DistinctMultiplicity(init, x);
      if x == s[|s| - 1] {
        assert x !in init by {
          forall i | 0 <= i < |init| ensures init[i] != x {
            assert init[i] == s[i];
          }
        }
      }
    }
  }

  /** A value found at two positions occurs at least twice. */
  lemma RepeatedMultiplicity<T>(s: seq<T>, i: int, j: int)
    requires 0 <= i < j < |s| && s[i] == s[j]
    ensures multiset(s)[s[i]] >= 2
  {
    assert s == s[..j] + s[j..];
    assert s[..j][i] == s[i];
    assert s[j..][0] == s[j];
  }

  /** Reordering a sequence without duplicates gives one without duplicates. */
  lemma NoDuplicatesPermutation<T>(s: seq<T>, t: seq<T>)
    requires NoDuplicates(s) && multiset(s) == multiset(t)
    ensures NoDuplicates(t)
  {
    forall i, j | 0 <= i < j < |t| ensures t[i] != t[j] {
      if t[i] == t[j] {
        RepeatedMultiplicity(t, i, j);
        DistinctMultiplicity(s, t[i]);
        assert false;
      }
    }
  }

  /** First present value in a column: pandas' 'first' aggregation, which skips missing values. */
  function FirstPresent<T>(column: seq<Option<T>>): (r: Option<T>)
    ensures r.None? <==> forall i :: 0 <= i < |column| ==> column[i].None?
    ensures r.Some? ==> exists i :: 0 <= i < |column| && column[i] == r &&
                           forall j :: 0 <= j < i ==> column[j].None?
  {
    if column == [] then None
    else if column[0].Some? then column[0]
    else
      var rest := FirstPresent(column[1..]);
      assert rest.Some? ==> exists i :: 0 <= i < |column| && column[i] == rest &&
                              forall j :: 0 <= j < i ==> column[j].None? by {
        if rest.Some? {
          var i :| 0 <= i < |column[1..]| && column[1..][i] == rest &&
                   forall j :: 0 <= j < i ==> column[1..][j].None?;
          assert column[i + 1] == rest;
          assert forall j :: 0 <= j < i + 1 ==> column[j].None? by {
            forall j | 0 <= j < i + 1 ensures column[j].None? {
              if j > 0 { assert column[j] == column[1..][j - 1]; }
            }
          }
        }
      }
      rest
  }

  /** One column of a frame: the value f gives each row, in row order. */
  function Column<T, U>(s: seq<T>, f: T -> U): (col: seq<U>)
    ensures |col| == |s|
    ensures forall i :: 0 <= i < |s| ==> col[i] == f(s[i])
  {
    seq(|s|, i requires 0 <= i < |s| => f(s[i]))
  }

  /** The column value of a kept row sits in the selection's column at the row's position in the selection. */
  lemma SelectionColumnAt<T(!new), U>(s: seq<T>, keep: T -> bool, column: T -> U, q: int)
    requires 0 <= q < |s| && keep(s[q])
    ensures |Filter(s[..q], keep)| < |Filter(s, keep)|
    ensures Column(Filter(s, keep), column)[|Filter(s[..q], keep)|] == column(s[q])
  {
    FilterIndexOf(s, keep, q);
  }

  /**
   * 'first' over the rows a selection keeps, stated on the unselected frame:
   * missing exactly when every kept row lacks the value, and otherwise the
   * value of the earliest kept row that has one.
   */
  lemma FirstPresentOfSelection<T(!new), U>(s: seq<T>, keep: T -> bool, column: T -> Option<U>)
    ensures var v := FirstPresent(Column(Filter(s, keep), column));
      && (v.None? <==> forall q :: 0 <= q < |s| && keep(s[q]) ==> column(s[q]).None?)
      && (v.Some? ==> exists p :: (0 <= p < |s| && keep(s[p]) && column(s[p]) == v &&
                        forall q :: 0 <= q < p && keep(s[q]) ==> column(s[q]).None?))
  {
    FirstAbsentOfSelection(s, keep, column);
    var col := Column(Filter(s, keep), column);
    if FirstPresent(col).Some? {
      var i :| 0 <= i < |col| && col[i] == FirstPresent(col) && forall j :: 0 <= j < i ==> col[j].None?;
      FirstFoundOfSelection(s, keep, column, i);
    }
  }

  lemma FirstAbsentOfSelection<T(!new), U>(s: seq<T>, keep: T -> bool, column: T -> Option<U>)
    ensures FirstPresent(Column(Filter(s, keep), column)).None? <==>
      forall q :: 0 <= q < |s| && keep(s[q]) ==> column(s[q]).None?
  {
    var col := Column(Filter(s, keep), column);
    if forall q :: 0 <= q < |s| && keep(s[q]) ==> column(s[q]).None? {
      forall i | 0 <= i < |col| ensures col[i].None? {
        FilterPositionOf(s, keep, i);
      }
    }
    if FirstPresent(col).None? {
      forall q | 0 <= q < |s| && keep(s[q]) ensures column(s[q]).None? {
        SelectionColumnAt(s, keep, column, q);
      }
    }
  }

  /** The first present value of the selection's column, at position i, comes from a kept row with no present value among the kept rows before it. */
  lemma FirstFoundOfSelection<T(!new), U>(s: seq<T>, keep: T -> bool, column: T -> Option<U>, i: int)
    requires 0 <= i < |Filter(s, keep)|
    requires forall j :: 0 <= j < i ==> Column(Filter(s, keep), column)[j].None?
    ensures exists p :: (0 <= p < |s| && keep(s[p]) && column(s[p]) == Column(Filter(s, keep), column)[i] &&
                         forall q :: 0 <= q < p && keep(s[q]) ==> column(s[q]).None?)
  {
    FilterPositionOf(s, keep, i);
    var p :| 0 <= p < |s| && keep(s[p]) && s[p] == Filter(s, keep)[i] && |Filter(s[..p], keep)| == i;
    forall q | 0 <= q < p && keep(s[q]) ensures column(s[q]).None? {
      SelectionColumnAt(s, keep, column, q);
      FilterPrefixGrows(s, keep, q, p);
    }
  }

  /**
   * The index pandas' `idxmax` returns on a column without missing values:
   * the first position holding the largest value.
   */
  function FirstMaxIndex(s: seq<int>): (m: nat)
    requires |s| > 0
    ensures m < |s|
    ensures forall j :: 0 <= j < |s| ==> s[j] <= s[m]
    ensures forall j :: 0 <= j < m ==> s[j] < s[m]
  {
    if |s| == 1 then 0
    else
      var m := FirstMaxIndex(s[..|s| - 1]);
      if s[|s| - 1] > s[m] then |s| - 1 else m
  }

  /** The two properties of FirstMaxIndex determine it. */
  lemma FirstMaxIndexUnique(s: seq<int>, k: nat)
    requires k < |s|
    requires forall j :: 0 <= j < |s| ==> s[j] <= s[k]
    requires forall j :: 0 <= j < k ==> s[j] < s[k]
    ensures k == FirstMaxIndex(s)
  {
  }

  /** With latencies [3, 7, 7, 2] the first 7 is chosen. */
  lemma FirstMaxIndexExample()
    ensures FirstMaxIndex([3, 7, 7, 2]) == 1
  {
    FirstMaxIndexUnique([3, 7, 7, 2], 1);
  }

  /**
   * `idxmax` over a selection, stated on the unselected frame: the chosen row
   * is a kept row whose value no kept row exceeds, and every kept row before
   * it has a smaller value.
   */
  lemma FirstMaxOfSelection<T(!new)>(s: seq<T>, keep: T -> bool, value: T -> int)
    requires Filter(s, keep) != []
    ensures var top := Filter(s, keep)[FirstMaxIndex(Column(Filter(s, keep), value))];
      && (forall q :: 0 <= q < |s| && keep(s[q]) ==> value(s[q]) <= value(top))
      && exists p :: (0 <= p < |s| && keep(s[p]) && s[p] == top &&
                      forall q :: 0 <= q < p && keep(s[q]) ==> value(s[q]) < value(top))
  {
    var r := Filter(s, keep);
    var m := FirstMaxIndex(Column(r, value));
    forall q | 0 <= q < |s| && keep(s[q]) ensures value(s[q]) <= value(r[m]) {
      SelectionColumnAt(s, keep, value, q);
    }
    FilterPositionOf(s, keep, m);
    var p :| 0 <= p < |s| && keep(s[p]) && s[p] == r[m] && |Filter(s[..p], keep)| == m;
    forall q | 0 <= q < p && keep(s[q]) ensures value(s[q]) < value(r[m]) {
      SelectionColumnAt(s, keep, value, q);
      FilterPrefixGrows(s, keep, q, p);
    }
  }
}
