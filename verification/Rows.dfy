/** A flat array read as rows of m elements. */
module Rows {
  import opened Numbers

  function Row<T>(s: seq<T>, m: nat, i: nat): seq<T> {
    if i * m + m <= |s| then s[i * m..i * m + m] else []
  }

  lemma RowsApart(m: nat, i: nat, k: nat)
    requires i < k
    ensures i * m + m <= k * m
  {
    MulMonotonic(m, i + 1, k);
  }

  /** The copy of one row; the others stay. */
  method CopyRow<T>(dst: array<T>, m: nat, i: nat, src: seq<T>, ghost n: nat)
    requires dst.Length == n * m && i < n && |src| == m
    modifies dst
    ensures Row(dst[..], m, i) == src
    ensures forall k: nat :: k < n && k != i ==> Row(dst[..], m, k) == old(Row(dst[..], m, k))
  {
    RowsApart(m, i, n);
    ghost var before := dst[..];
    var at := i * m;
    forall j | 0 <= j < m {
      dst[at + j] := src[j];
    }
    forall k: nat | k < n && k != i ensures Row(dst[..], m, k) == Row(before, m, k) {
      RowsApart(m, k, n);
      if k < i {
        RowsApart(m, k, i);
      } else {
        RowsApart(m, i, k);
      }
    }
  }

  lemma SameRows<T>(s: seq<T>, t: seq<T>, m: nat, n: nat)
    requires m > 0 && |s| == |t| == n * m && forall k: nat :: k < n ==> Row(s, m, k) == Row(t, m, k)
    ensures s == t
  {
    forall w | 0 <= w < |s| ensures s[w] == t[w] {
      RowOf(w, m, n);
      RowsApart(m, w / m, n);
      assert Row(s, m, w / m)[w % m] == Row(t, m, w / m)[w % m];
    }
  }

  lemma RowOf(w: nat, m: nat, n: nat)
    requires m > 0 && w < n * m
    ensures w / m < n && w == w / m * m + w % m
  {
    if w / m >= n {
      MulMonotonic(m, n, w / m);
      assert false;
    }
  }

  predicate Even<T>(rows: seq<seq<T>>, m: nat) { forall k :: 0 <= k < |rows| ==> |rows[k]| == m }

  /** The rows one after another. */
  function Flatten<T>(rows: seq<seq<T>>, m: nat): (s: seq<T>)
    requires Even(rows, m)
    ensures |s| == |rows| * m
  {
    if rows == [] then []
    else
      assert |rows| * m == m + (|rows| - 1) * m;
      rows[0] + Flatten(rows[1..], m)
  }

  lemma {:induction false} FlattenRow<T>(rows: seq<seq<T>>, m: nat, k: nat)
    requires Even(rows, m) && k < |rows|
    ensures Row(Flatten(rows, m), m, k) == rows[k]
  {
    RowsApart(m, k, |rows|);
    if k > 0 {
      FlattenRow(rows[1..], m, k - 1);
      RowsApart(m, k - 1, |rows| - 1);
      assert k * m == m + (k - 1) * m;
      assert Flatten(rows, m)[m..] == Flatten(rows[1..], m);
      assert Flatten(rows, m)[k * m..k * m + m] == Flatten(rows, m)[m..][(k - 1) * m..(k - 1) * m + m];
    }
  }

  lemma FlattenIs<T>(rows: seq<seq<T>>, m: nat, s: seq<T>)
    requires m > 0 && Even(rows, m) && |s| == |rows| * m && forall k: nat :: k < |rows| ==> Row(s, m, k) == rows[k]
    ensures s == Flatten(rows, m)
  {
    forall k: nat | k < |rows| ensures Row(s, m, k) == Row(Flatten(rows, m), m, k) {
      FlattenRow(rows, m, k);
    }
    SameRows(s, Flatten(rows, m), m, |rows|);
  }
}
