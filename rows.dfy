/** Per-row grouping of per-connection data, as the encoder and the decoder
    use it: a stable filter by row index, concatenation of rows, and
    zero-padding of a row to a capacity. */
module Rows {

  /** The number of row indices equal to i. */
  function Count(rowIndices: seq<nat>, i: nat): (n: nat)
    ensures n <= |rowIndices|
  {
    if |rowIndices| == 0 then 0
    else (if rowIndices[0] == i then 1 else 0) + Count(rowIndices[1..], i)
  }

  /** The items whose row index is i, in their original order. */
  function RowOf<T>(items: seq<T>, rowIndices: seq<nat>, i: nat): (row: seq<T>)
    requires |items| == |rowIndices|
    ensures |row| == Count(rowIndices, i)
  {
    if |items| == 0 then []
    else (if rowIndices[0] == i then [items[0]] else []) + RowOf(items[1..], rowIndices[1..], i)
  }

  /** The rows 0 .. nRows - 1 of per-connection data; items whose index is
      not below nRows belong to no row. */
  function ToRows<T>(items: seq<T>, rowIndices: seq<nat>, nRows: nat): (rows: seq<seq<T>>)
    requires |items| == |rowIndices|
    ensures |rows| == nRows
    ensures forall i :: 0 <= i < nRows ==> rows[i] == RowOf(items, rowIndices, i)
  {
    seq(nRows, i requires 0 <= i < nRows => RowOf(items, rowIndices, i))
  }

  /** The rows laid end to end. */
  function Concat<T>(rows: seq<seq<T>>): (all: seq<T>)
    ensures |all| == SumLengths(rows)
  {
    if |rows| == 0 then [] else Concat(rows[..|rows| - 1]) + rows[|rows| - 1]
  }

  function SumLengths<T>(rows: seq<seq<T>>): nat
  {
    if |rows| == 0 then 0 else SumLengths(rows[..|rows| - 1]) + |rows[|rows| - 1]|
  }

  /** The sum of a sequence of naturals. */
  function Sum(s: seq<nat>): nat
  {
    if |s| == 0 then 0 else Sum(s[..|s| - 1]) + s[|s| - 1]
  }

  /** f applied to every element. */
  function Map<T, U>(f: T -> U, s: seq<T>): (r: seq<U>)
    ensures |r| == |s|
    ensures forall k :: 0 <= k < |s| ==> r[k] == f(s[k])
  {
    seq(|s|, k requires 0 <= k < |s| => f(s[k]))
  }

  /** n copies of x. */
  function Repeat<T>(x: T, n: nat): (r: seq<T>)
    ensures |r| == n
    ensures forall k :: 0 <= k < n ==> r[k] == x
  {
    seq(n, _ => x)
  }

  /** The row padded with zero elements up to capacity; a row already that
      long is left alone. */
  function PadRow<T>(row: seq<T>, capacity: nat, zero: T): (padded: seq<T>)
    ensures |padded| == if |row| < capacity then capacity else |row|
    ensures padded[..|row|] == row
    ensures forall k :: |row| <= k < |padded| ==> padded[k] == zero
  {
    row + Repeat(zero, if |row| < capacity then capacity - |row| else 0)
  }

  /** Grouping commutes with a per-item transformation: the row of the
      transformed items is the transformed row. */
  lemma {:induction false} RowOfMap<T, U>(f: T -> U, items: seq<T>, rowIndices: seq<nat>, i: nat)
    requires |items| == |rowIndices|
    ensures RowOf(Map(f, items), rowIndices, i) == Map(f, RowOf(items, rowIndices, i))
  {
    if |items| > 0 {
      RowOfMap(f, items[1..], rowIndices[1..], i);
      assert Map(f, items)[1..] == Map(f, items[1..]);
    }
  }

  /** The row indices grouped by themselves: row i holds i, once per item
      of that row. */
  lemma {:induction false} RowOfIndices(rowIndices: seq<nat>, i: nat)
    ensures RowOf(rowIndices, rowIndices, i) == Repeat(i, Count(rowIndices, i))
  {
    if |rowIndices| > 0 {
      RowOfIndices(rowIndices[1..], i);
    }
  }

  /** Rows laid end to end keep their order: the j-th item of row i sits
      after all the items of the rows before it. */
  lemma {:induction false} ConcatIndex<T>(rows: seq<seq<T>>, i: nat, j: nat)
    requires i < |rows| && j < |rows[i]|
    ensures SumLengths(rows[..i]) + j < |Concat(rows)|
    ensures Concat(rows)[SumLengths(rows[..i]) + j] == rows[i][j]
  {
    var n := |rows|;
    assert rows[..n - 1][..i] == rows[..i];
    if i < n - 1 {
      ConcatIndex(rows[..n - 1], i, j);
    } else {
      assert rows[..n - 1] == rows[..i];
    }
  }

  /** All rows 0 .. nRows - 1 laid end to end: the items stably sorted by
      row index, dropping those with an index of nRows or more. */
  function Grouped<T>(items: seq<T>, rowIndices: seq<nat>, nRows: nat): seq<T>
    requires |items| == |rowIndices|
  {
    Concat(ToRows(items, rowIndices, nRows))
  }

  /** The items whose row index is below n, in their original order. */
  function Below<T>(items: seq<T>, rowIndices: seq<nat>, n: nat): (r: seq<T>)
    requires |items| == |rowIndices|
    ensures |r| <= |items|
  {
    if |items| == 0 then []
    else (if rowIndices[0] < n then [items[0]] else []) + Below(items[1..], rowIndices[1..], n)
  }

  lemma {:induction false} BelowStep<T>(items: seq<T>, rowIndices: seq<nat>, n: nat)
    requires |items| == |rowIndices|
    ensures multiset(Below(items, rowIndices, n + 1))
            == multiset(Below(items, rowIndices, n)) + multiset(RowOf(items, rowIndices, n))
  {
    if |items| > 0 {
      BelowStep(items[1..], rowIndices[1..], n);
    }
  }

  lemma {:induction false} BelowAll<T>(items: seq<T>, rowIndices: seq<nat>, n: nat)
    requires |items| == |rowIndices|
    requires forall k :: 0 <= k < |rowIndices| ==> rowIndices[k] < n
    ensures Below(items, rowIndices, n) == items
  {
    if |items| > 0 {
      BelowAll(items[1..], rowIndices[1..], n);
    }
  }

  lemma {:induction false} GroupedBelow<T>(items: seq<T>, rowIndices: seq<nat>, n: nat)
    requires |items| == |rowIndices|
    ensures multiset(Grouped(items, rowIndices, n)) == multiset(Below(items, rowIndices, n))
  {
    if n > 0 {
      GroupedBelow(items, rowIndices, n - 1);
      assert ToRows(items, rowIndices, n)[..n - 1] == ToRows(items, rowIndices, n - 1);
      BelowStep(items, rowIndices, n - 1);
    } else {
      BelowZero(items, rowIndices);
    }
  }

  lemma {:induction false} BelowZero<T>(items: seq<T>, rowIndices: seq<nat>)
    requires |items| == |rowIndices|
    ensures Below(items, rowIndices, 0) == []
  {
    if |items| > 0 {
      BelowZero(items[1..], rowIndices[1..]);
    }
  }

  /** When every index names one of the rows, grouping only reorders: the
      grouped items are a permutation of the items. */
  lemma GroupedIsPermutation<T>(items: seq<T>, rowIndices: seq<nat>, nRows: nat)
    requires |items| == |rowIndices|
    requires forall k :: 0 <= k < |rowIndices| ==> rowIndices[k] < nRows
    ensures multiset(Grouped(items, rowIndices, nRows)) == multiset(items)
    ensures |Grouped(items, rowIndices, nRows)| == |items|
  {
    GroupedBelow(items, rowIndices, nRows);
    BelowAll(items, rowIndices, nRows);
    assert |multiset(Grouped(items, rowIndices, nRows))| == |multiset(items)|;
  }

  /** Concatenation commutes with a per-item transformation. */
  lemma {:induction false} ConcatMap<T, U>(f: T -> U, rows: seq<seq<T>>)
    ensures Concat(seq(|rows|, i requires 0 <= i < |rows| => Map(f, rows[i]))) == Map(f, Concat(rows))
  {
    var mapped := seq(|rows|, i requires 0 <= i < |rows| => Map(f, rows[i]));
    if |rows| > 0 {
      var n := |rows|;
      ConcatMap(f, rows[..n - 1]);
      assert mapped[..n - 1] == seq(n - 1, i requires 0 <= i < n - 1 => Map(f, rows[..n - 1][i]));
    }
  }

  /** Grouping commutes with a per-item transformation. */
  lemma GroupedMap<T, U>(f: T -> U, items: seq<T>, rowIndices: seq<nat>, nRows: nat)
    requires |items| == |rowIndices|
    ensures Grouped(Map(f, items), rowIndices, nRows) == Map(f, Grouped(items, rowIndices, nRows))
  {
    var rows := ToRows(items, rowIndices, nRows);
    forall i | 0 <= i < nRows {
      RowOfMap(f, items, rowIndices, i);
    }
    assert ToRows(Map(f, items), rowIndices, nRows) == seq(|rows|, i requires 0 <= i < |rows| => Map(f, rows[i]));
    ConcatMap(f, rows);
  }

  /** The sum of the lengths of rows with the given lengths. */
  lemma {:induction false} SumLengthsOf<T>(rows: seq<seq<T>>, lengths: seq<nat>)
    requires |rows| == |lengths|
    requires forall i :: 0 <= i < |rows| ==> |rows[i]| == lengths[i]
    ensures SumLengths(rows) == Sum(lengths)
  {
    if |rows| > 0 {
      SumLengthsOf(rows[..|rows| - 1], lengths[..|lengths| - 1]);
    }
  }

  /** A row of items of one length holds items of that length. */
  lemma {:induction false} RowOfUniform<T>(items: seq<seq<T>>, rowIndices: seq<nat>, i: nat, b: nat)
    requires |items| == |rowIndices|
    requires forall j :: 0 <= j < |items| ==> |items[j]| == b
    ensures forall k :: 0 <= k < |RowOf(items, rowIndices, i)| ==> |RowOf(items, rowIndices, i)[k]| == b
  {
    if |items| > 0 {
      RowOfUniform(items[1..], rowIndices[1..], i, b);
    }
  }

  /** Rows of one length b laid end to end: b elements per row. */
  lemma {:induction false} ConcatUniform<T>(rows: seq<seq<T>>, b: nat)
    requires forall k :: 0 <= k < |rows| ==> |rows[k]| == b
    ensures |Concat(rows)| == b * |rows|
  {
    if |rows| > 0 {
      ConcatUniform(rows[..|rows| - 1], b);
      assert b * |rows| == b * (|rows| - 1) + b;
    }
  }
}
