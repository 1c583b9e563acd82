/** The row schedule of Lyra2's Setup and Wandering phases (Lyra2.c). The sponge and
    the memory matrix are one abstract machine; what each call reads and writes is
    named by its row indices. */
module Lyra2 {
  import opened Numbers
  import opened Bits

  // ---------------------------------------------------------------- cycles

  /** Multiples of an odd step return to 0 modulo a power of two only after a full cycle. */
  lemma {:induction false} OddCycle(s: nat, w: nat, k: nat)
    requires s % 2 == 1 && PowerOfTwo(w) && k * s % w == 0
    ensures k % w == 0
  {
    if w > 1 {
      var h, q := w / 2, k * s / w;
      assert k * s == q * w;
      EvenFactor(k, s, q * h);
      var j := k / 2;
      assert j * s == q * h by {
        assert 2 * (j * s) == k * s;
      }
      DivModUnique(j * s, h, q, 0);
      OddCycle(s, h, j);
      var c := j / h;
      assert j == c * h;
      assert k == c * w;
      DivModUnique(k, w, c, 0);
    }
  }

  lemma EvenFactor(k: nat, s: nat, x: nat)
    requires s % 2 == 1 && k * s == 2 * x
    ensures k % 2 == 0
  {
    var t := s / 2;
    MulDistributes(k, 2 * t, 1);
    MulAssoc(k, 2, t);
    MulAssoc(2, k, t);
    var y := k * t;
    assert k == 2 * (x - y);
  }

  /** Two positions of the cycle that agree are a whole number of cycles apart. */
  lemma SameResidue(i: nat, j: nat, s: nat, w: nat)
    requires w > 0 && i <= j && i * s % w == j * s % w
    ensures (j - i) * s % w == 0
  {
    var p, q := i * s / w, j * s / w;
    assert i * s == p * w + i * s % w && j * s == q * w + j * s % w;
    assert (j - i) * s == j * s - i * s;
    assert (q - p) * w == q * w - p * w;
    DivModUnique((j - i) * s, w, q - p, 0);
  }

  ghost function Below(n: nat): (s: set<int>)
    ensures |s| == n && forall r :: r in s <==> 0 <= r < n
  {
    if n == 0 then {} else Below(n - 1) + {n - 1}
  }

  ghost function Elements(v: seq<int>): (s: set<int>)
    ensures forall r :: r in s <==> r in v
  {
    if v == [] then {} else Elements(v[..|v| - 1]) + {v[|v| - 1]}
  }

  ghost predicate Distinct(v: seq<int>) { forall i, j :: 0 <= i < j < |v| ==> v[i] != v[j] }

  lemma {:induction false} DistinctCount(v: seq<int>)
    requires Distinct(v)
    ensures |Elements(v)| == |v|
  {
    if v != [] {
      DistinctCount(v[..|v| - 1]);
    }
  }

  /** n different numbers below n are all the numbers below n. */
  lemma Pigeonhole(v: seq<int>)
    requires Distinct(v) && forall i :: 0 <= i < |v| ==> 0 <= v[i] < |v|
    ensures EachOnce(v, |v|)
  {
    DistinctCount(v);
    assert Elements(v) <= Below(|v|);
    SubsetSame(Elements(v), Below(|v|));
    assert forall r :: 0 <= r < |v| ==> r in Below(|v|);
  }

  lemma SubsetSame(a: set<int>, b: set<int>)
    requires a <= b && |a| == |b|
    ensures a == b
  {
    assert b == a + (b - a);
  }

  /** Every row below n once, in some order. */
  ghost predicate EachOnce(v: seq<int>, n: nat) {
    && |v| == n
    && Distinct(v)
    && (forall r :: r in v <==> 0 <= r < n)
  }

  // ---------------------------------------------------------------- Setup

  /** Where k steps of s lead, modulo w. */
  function Residue(k: nat, s: int, w: nat): (r: nat)
    requires w > 0
    ensures r < w
  {
    k * s % w
  }

  /** The revisitation window while row r is computed: the largest power of two up to r. */
  function Window(r: nat): (w: nat)
    requires r >= 2
    ensures PowerOfTwo(w) && 2 <= w <= r < 2 * w
  {
    if r < 4 then 2 else 2 * Window(r / 2)
  }

  /** The sign the gap has in the window w: alternating from +1. */
  function Gap(w: nat): int
    requires w >= 2
  {
    if w < 4 then 1 else -Gap(w / 2)
  }

  lemma {:induction false} GapIsSign(w: nat)
    requires w >= 2
    ensures Gap(w) == 1 || Gap(w) == -1
  {
    if w >= 4 {
      GapIsSign(w / 2);
    }
  }

  /** The visitation step in the window w. */
  function Step(w: nat): int
    requires w >= 2
  {
    if w < 4 then 1 else w / 2 + Gap(w / 2)
  }

  lemma StepOdd(w: nat)
    requires PowerOfTwo(w) && w >= 2
    ensures Step(w) >= 1 && Step(w) % 2 == 1
  {
    if w >= 4 {
      GapIsSign(w / 2);
    }
  }

  /** row* while row r is computed. */
  function RowStar(r: nat): (a: nat)
    requires r >= 2
    ensures a < Window(r)
  {
    Residue(r - Window(r), Step(Window(r)), Window(r))
  }

  /** The machine after rows 2 .. r - 1 have been computed by duplexSetup(prev, row*, row). */
  ghost function SetupRun<M>(duplexSetup: (M, nat, nat, nat) -> M, m: M, r: nat): M
    requires r >= 2
  {
    if r == 2 then m else duplexSetup(SetupRun(duplexSetup, m, r - 1), r - 2, RowStar(r - 1), r - 1)
  }

  /** row*, prev and row are three different rows, row* among those already computed. */
  lemma SetupDistinct(r: nat)
    requires r >= 2
    ensures RowStar(r) < r - 1 < r
  {
    hide Window;
    if r == Window(r) {
      ResidueStart(Step(r), r);
    }
  }

  lemma ResidueStart(s: int, w: nat)
    requires w > 0
    ensures Residue(0, s, w) == 0
  {
    assert 0 * s == 0;
    DivModUnique(0, w, 0, 0);
  }

  lemma ResidueFull(s: int, w: nat)
    requires w > 0
    ensures Residue(w, s, w) == 0
  {
    DivModUnique(w * s, w, s, 0);
  }

  lemma ResidueInside(k: nat, s: nat, w: nat)
    requires s % 2 == 1 && PowerOfTwo(w) && 0 < k < w
    ensures Residue(k, s, w) != 0
  {
    if k * s % w == 0 {
      OddCycle(s, w, k);
      DivModUnique(k, w, 0, k);
    }
  }

  /** The windows follow one another: one more row stays inside, or opens the next. */
  lemma {:induction false} WindowNext(r: nat)
    requires r >= 2
    ensures Window(r + 1) == if r + 1 == 2 * Window(r) then 2 * Window(r) else Window(r)
  {
    var v, w := Window(r + 1), Window(r);
    if v < w {
      PowersApart(v, w);
    } else if w < v {
      PowersApart(w, v);
    }
  }

  lemma ResidueNext(k: nat, s: int, w: nat)
    requires w > 0
    ensures Residue(k + 1, s, w) == (Residue(k, s, w) + s) % w
  {
    var x := k * s;
    MulDistributes(s, k, 1);
    assert (k + 1) * s == x + s;
    var q := x / w;
    assert x == q * w + x % w;
    var p, r := (x % w + s) / w, (x % w + s) % w;
    assert x % w + s == p * w + r;
    assert (q + p) * w == q * w + p * w;
    DivModUnique(x + s, w, q + p, r);
  }

  /** Inside a window row* moves by the step and comes to 0 only at its end. */
  lemma RowStarNext(r: nat)
    requires r >= 2
    ensures var w := Window(r); RowStar(r + 1) == (RowStar(r) + Step(w)) % w
    ensures RowStar(r + 1) == 0 <==> r + 1 == 2 * Window(r)
  {
    var w := Window(r);
    var s, k := Step(w), r - w;
    StepOdd(w);
    WindowNext(r);
    hide Window, Step, PowerOfTwo, Residue;
    ResidueNext(k, s, w);
    if r + 1 == 2 * w {
      ResidueFull(s, w);
      ResidueStart(Step(r + 1), r + 1);
    } else {
      ResidueInside(k + 1, s, w);
    }
  }

  /** While the window w lasts, row* visits each of its rows exactly once. */
  lemma SetupCoverage(w: nat)
    requires PowerOfTwo(w) && w >= 2
    ensures EachOnce(seq(w, t requires 0 <= t < w => RowStar(w + t)), w)
  {
    var s := Step(w);
    StepOdd(w);
    var v: seq<int> := seq(w, t requires 0 <= t < w => RowStar(w + t));
    forall t | 0 <= t < w ensures v[t] == Residue(t, s, w) < w {
      WindowInside(w, t);
      assert v[t] == RowStar(w + t);
    }
    hide RowStar, Step, PowerOfTwo;
    forall i, j | 0 <= i < j < w ensures v[i] != v[j] {
      if v[i] == v[j] {
        SameResidue(i, j, s, w);
        ResidueInside(j - i, s, w);
      }
    }
    Pigeonhole(v);
  }

  lemma WindowInside(w: nat, t: nat)
    requires PowerOfTwo(w) && w >= 2 && t < w
    ensures Window(w + t) == w && RowStar(w + t) == Residue(t, Step(w), w) < w
  {
    hide Residue, Step;
    var v := Window(w + t);
    if v < w {
      PowersApart(v, w);
    } else if w < v {
      PowersApart(w, v);
    }
  }

  lemma {:induction false} GapThree(w: nat)
    requires PowerOfTwo(w) && w >= 2
    ensures (w + Gap(w)) % 3 == 0
  {
    if w >= 4 {
      GapThree(w / 2);
      var k := (w / 2 + Gap(w / 2)) / 3;
      assert w + Gap(w) == 3 * (2 * k - Gap(w / 2));
    }
  }

  /** The step in a window from 4 on: of the two neighbours of half the window, the one that
      three divides. */
  lemma StepThree(w: nat)
    requires PowerOfTwo(w) && w >= 4
    ensures Step(w) % 3 == 0 && (Step(w) == w / 2 + 1 || Step(w) == w / 2 - 1)
  {
    GapThree(w / 2);
    GapIsSign(w / 2);
  }

  /** A machine that only writes down its calls as (prev, row*, row). */
  function Log(m: seq<(nat, nat, nat)>, prev: nat, rowa: nat, row: nat): seq<(nat, nat, nat)> {
    m + [(prev, rowa, row)]
  }

  function Calls(m: seq<(nat, nat, nat)>): nat { |m| }

  /** The first seven calls of Setup. */
  lemma SetupExample()
    ensures SetupRun(Log, [], 9)
      == [(1, 0, 2), (2, 1, 3), (3, 0, 4), (4, 3, 5), (5, 2, 6), (6, 1, 7), (7, 0, 8)]
  {
    FirstRows();
    hide RowStar;
    SetupRunNext(Log, [], 2);
    SetupRunNext(Log, [], 3);
    SetupRunNext(Log, [], 4);
    SetupRunNext(Log, [], 5);
    SetupRunNext(Log, [], 6);
    SetupRunNext(Log, [], 7);
    SetupRunNext(Log, [], 8);
  }

  lemma FirstRows()
    ensures RowStar(2) == 0 && RowStar(3) == 1 && RowStar(4) == 0 && RowStar(5) == 3 && RowStar(6) == 2
    ensures RowStar(7) == 1 && RowStar(8) == 0
  {
  }

  /** The loop variables on the schedule while row r is computed. */
  ghost predicate OnSchedule(r: nat, rowa: int, step: int, window: int, gap: int) {
    r >= 2 && window == Window(r) && step == Step(window) && gap == Gap(window) && rowa == RowStar(r)
  }

  lemma RunStart<M>(duplexSetup: (M, nat, nat, nat) -> M, m: M)
    ensures SetupRun(duplexSetup, m, 2) == m && OnSchedule(2, 0, 1, 2, 1)
  {
    SetupStart();
  }

  /** The Setup loop: the machine's run over the schedule above. */
  method Setup<M>(duplexSetup: (M, nat, nat, nat) -> M, m0: M, nRows: nat) returns (m: M, prev: nat)
    requires nRows >= 3
    ensures m == SetupRun(duplexSetup, m0, nRows) && prev == nRows - 1
  {
    hide OnSchedule, SetupRun, BitAnd;
    m := m0;
    var row, rowa, step, window, gap := 2, 0, 1, 2, 1;
    prev := 1;
    RunStart(duplexSetup, m0);
    while true
      invariant 2 <= row < nRows && prev == row - 1
      invariant OnSchedule(row, rowa, step, window, gap)
      invariant m == SetupRun(duplexSetup, m0, row)
      decreases nRows - row
    {
      SetupRunNext(duplexSetup, m0, row);
      SetupAdvance(row, rowa, step, window, gap);
      m := duplexSetup(m, prev, rowa, row);
      rowa := BitAnd(rowa + step, window - 1);
      prev := row;
      row := row + 1;
      if rowa == 0 {
        step := window + gap;
        window := window * 2;
        gap := -gap;
      }
      if row >= nRows {
        break;
      }
    }
  }

  lemma SetupRunNext<M>(duplexSetup: (M, nat, nat, nat) -> M, m: M, r: nat)
    requires r >= 2
    ensures SetupRun(duplexSetup, m, r + 1) == duplexSetup(SetupRun(duplexSetup, m, r), r - 1, RowStar(r), r)
  {
  }

  lemma SetupStart()
    ensures Window(2) == 2 && Step(2) == 1 && Gap(2) == 1 && RowStar(2) == 0
  {
    ResidueStart(1, 2);
  }

  /** One iteration's updates keep row*, step, window and gap on the schedule. */
  lemma SetupAdvance(r: nat, rowa: int, step: int, window: int, gap: int)
    requires OnSchedule(r, rowa, step, window, gap)
    ensures rowa == RowStar(r) && rowa + step >= 0 && window >= 1
    ensures var a := BitAnd(rowa + step, window - 1);
      if a == 0 then OnSchedule(r + 1, a, window + gap, window * 2, -gap) else OnSchedule(r + 1, a, step, window, gap)
  {
    StepOdd(window);
    RowStarNext(r);
    WindowNext(r);
    hide RowStar, BitAnd;
    AndPower(RowStar(r) + Step(window), window);
  }

  // ---------------------------------------------------------------- Wandering

  /** The step of time pass tau: half the rows less one, or one back. */
  function WanderStep(tau: nat, n: nat): int { if tau % 2 == 0 then -1 else n / 2 - 1 }

  /** The update of row: a signed step added in unsigned 64-bit arithmetic, modulo nRows. */
  function NextRow(row: nat, step: int, n: nat): (r: nat)
    requires n > 0
    ensures r < n
  {
    (row + step) % B64 % n
  }

  /** The row that the k-th update of a pass leads to. */
  function RowAt(n: nat, step: int, k: nat): int
    requires n > 0
  {
    if step >= 0 then Residue(k, step, n) else if k == 0 then 0 else (B64 - 1) % n + 1 - k
  }

  /** v is one pass: the rows from 0 until the update comes back to 0. */
  ghost predicate Pass(v: seq<int>, n: nat, step: int) {
    && n > 0 && v != []
    && (forall k :: 0 <= k < |v| ==> v[k] == RowAt(n, step, k))
    && (forall k :: 0 < k < |v| ==> RowAt(n, step, k) != 0)
    && RowAt(n, step, |v|) == 0
  }

  /** The machine after the rows of v, row* being picked from the sponge each time. */
  ghost function RunRows<M>(duplex: (M, nat, nat, nat) -> M, pick: M -> nat, n: nat, m: M, prev: nat, v: seq<int>): M
    requires n > 0 && forall k :: 0 <= k < |v| ==> v[k] >= 0
  {
    if v == [] then m
    else
      var u := v[..|v| - 1];
      var before := RunRows(duplex, pick, n, m, prev, u);
      duplex(before, if u == [] then prev else u[|u| - 1], pick(before) % n, v[|v| - 1])
  }

  lemma RowAtNext(n: nat, step: int, k: nat)
    requires 0 < n <= 0x8000_0000_0000_0000 && (step == -1 || 0 <= step < n)
    requires RowAt(n, step, k) >= 0 && (k > 0 ==> RowAt(n, step, k) != 0)
    ensures RowAt(n, step, k) < n && RowAt(n, step, k + 1) == NextRow(RowAt(n, step, k), step, n)
  {
    if step >= 0 {
      var r := RowAt(n, step, k);
      ResidueNext(k, step, n);
      assert (r + step) % B64 == r + step;
    } else if k > 0 {
      var r := RowAt(n, step, k);
      var top := (B64 - 1) % n;
      assert 0 < r <= top < n;
      assert (r + step) % B64 == r - 1;
      DivModUnique(r - 1, n, 0, r - 1);
    }
  }

  /** Every pass ends: within n updates, or as many as counting down takes. */
  function PassBound(n: nat, step: int): nat
    requires n > 0
  {
    if step >= 0 then n else (B64 - 1) % n + 1
  }

  lemma PassEnds(n: nat, step: int)
    requires n > 0
    ensures RowAt(n, step, PassBound(n, step)) == 0 && PassBound(n, step) > 0
  {
    if step >= 0 {
      ResidueFull(step, n);
    }
  }

  /** A pass under way: v has been visited and row comes next. */
  ghost predicate Walking(n: nat, step: int, v: seq<int>, row: int) {
    && n > 0 && row == RowAt(n, step, |v|) && row >= 0 && (v != [] ==> row != 0)
    && (forall k :: 0 <= k < |v| ==> v[k] == RowAt(n, step, k) >= 0)
    && (forall k :: 0 < k < |v| ==> RowAt(n, step, k) != 0)
    && |v| < PassBound(n, step)
  }

  lemma WalkingStart(n: nat, step: int)
    requires 0 < n
    ensures Walking(n, step, [], 0)
  {
    PassEnds(n, step);
    if step >= 0 {
      ResidueStart(step, n);
    }
  }

  lemma WalkingStep(n: nat, step: int, v: seq<int>, row: nat)
    requires 0 < n <= 0x8000_0000_0000_0000 && (step == -1 || 0 <= step < n) && Walking(n, step, v, row)
    ensures var next := NextRow(row, step, n); var u := v + [row];
      if next == 0 then Pass(u, n, step) else Walking(n, step, u, next)
  {
    PassEnds(n, step);
    RowAtNext(n, step, |v|);
    hide RowAt, NextRow, PassBound;
  }

  lemma RunRowsSnoc<M>(duplex: (M, nat, nat, nat) -> M, pick: M -> nat, n: nat, m: M, prev: nat, v: seq<int>, row: nat)
    requires n > 0 && forall k :: 0 <= k < |v| ==> v[k] >= 0
    ensures var before := RunRows(duplex, pick, n, m, prev, v);
      RunRows(duplex, pick, n, m, prev, v + [row]) == duplex(before, if v == [] then prev else v[|v| - 1],
          pick(before) % n, row)
  {
    assert (v + [row])[..|v|] == v;
  }

  /** The rows visited so far, the matrix they left and the last of them. */
  ghost predicate Visited<M>(duplex: (M, nat, nat, nat) -> M, pick: M -> nat, n: nat, m0: M, prev0: nat, v: seq<int>,
      m: M, prev: nat)
  {
    && n > 0 && (forall k :: 0 <= k < |v| ==> v[k] >= 0)
    && m == RunRows(duplex, pick, n, m0, prev0, v) && prev == if v == [] then prev0 else v[|v| - 1]
  }

  lemma VisitedStep<M>(duplex: (M, nat, nat, nat) -> M, pick: M -> nat, n: nat, m0: M, prev0: nat, v: seq<int>,
      m: M, prev: nat, row: nat)
    requires Visited(duplex, pick, n, m0, prev0, v, m, prev)
    ensures n > 0 && Visited(duplex, pick, n, m0, prev0, v + [row], duplex(m, prev, pick(m) % n, row), row)
  {
    RunRowsSnoc(duplex, pick, n, m0, prev0, v, row);
    hide RunRows;
  }

  /** The inner do-while loop of Wandering. */
  method WanderPass<M>(duplex: (M, nat, nat, nat) -> M, pick: M -> nat, m0: M, prev0: nat, n: nat, step: int)
    returns (m: M, prev: nat, visited: seq<int>)
    requires 0 < n <= 0x8000_0000_0000_0000 && (step == -1 || 0 <= step < n)
    ensures Pass(visited, n, step) && (forall k :: 0 <= k < |visited| ==> visited[k] >= 0)
    ensures visited != [] && m == RunRows(duplex, pick, n, m0, prev0, visited) && prev == visited[|visited| - 1]
  {
    m, prev, visited := m0, prev0, [];
    var row: nat := 0;
    WalkingStart(n, step);
    WalkingBound(n, step, visited, row);
    assert Visited(duplex, pick, n, m0, prev0, [], m, prev) by {
      RunNothing(duplex, pick, n, m0, prev0);
    }
    hide Walking, Pass, NextRow, RunRows, Visited;
    while true
      invariant Walking(n, step, visited, row) && Visited(duplex, pick, n, m0, prev0, visited, m, prev)
      invariant |visited| < PassBound(n, step)
      decreases PassBound(n, step) - |visited|
    {
      WalkingStep(n, step, visited, row);
      VisitedStep(duplex, pick, n, m0, prev0, visited, m, prev, row);
      var rowa := pick(m) % n;
      m := duplex(m, prev, rowa, row);
      prev := row;
      visited := visited + [row];
      row := NextRow(row, step, n);
      if row == 0 {
        VisitedEnds(duplex, pick, n, m0, prev0, visited, m, prev);
        return;
      }
      WalkingBound(n, step, visited, row);
    }
  }

  lemma VisitedEnds<M>(duplex: (M, nat, nat, nat) -> M, pick: M -> nat, n: nat, m0: M, prev0: nat, v: seq<int>,
      m: M, prev: nat)
    requires v != [] && Visited(duplex, pick, n, m0, prev0, v, m, prev)
    ensures n > 0 && forall k :: 0 <= k < |v| ==> v[k] >= 0
    ensures m == RunRows(duplex, pick, n, m0, prev0, v) && prev == v[|v| - 1]
  {
  }

  lemma RunNothing<M>(duplex: (M, nat, nat, nat) -> M, pick: M -> nat, n: nat, m: M, prev: nat)
    requires n > 0
    ensures RunRows(duplex, pick, n, m, prev, []) == m
  {
  }

  lemma WalkingBound(n: nat, step: int, v: seq<int>, row: int)
    requires Walking(n, step, v, row)
    ensures n > 0 && |v| < PassBound(n, step)
  {
  }

  // ---------------------------------------------------------------- coverage of a pass

  /** An inverse of the step modulo n: only full cycles return to 0. */
  lemma Invertible(n: nat, s: nat, a: int, b: int, k: nat)
    requires s * a == 1 + n * b && 0 < k < n
    ensures Residue(k, s, n) != 0
  {
    if k * s % n == 0 {
      var q := k * s / n;
      assert k * s == q * n;
      assert (k * s) * a == k * (s * a) == k + k * (n * b);
      assert (q * n) * a == n * (q * a) && k * (n * b) == n * (k * b);
      var c := q * a - k * b;
      assert k == n * c;
      NoMultiple(n, k, c);
    }
  }

  lemma NoMultiple(n: nat, k: nat, c: int)
    requires 0 < k < n
    ensures k != n * c
  {
    if c >= 1 {
      MulMonotonic(n, 1, c);
    } else {
      MulMonotonic(n, c, 0);
    }
  }

  /** Which row counts the first kind of pass covers: multiples of four, and odd
      numbers that three does not divide. */
  predicate Coverable(n: nat) { n % 4 == 0 || (n % 2 == 1 && n % 3 != 0) }

  lemma CoverableNonzero(n: nat, k: nat)
    requires n >= 3 && Coverable(n) && 0 < k < n
    ensures Residue(k, n / 2 - 1, n) != 0
  {
    var s := n / 2 - 1;
    if n % 4 == 0 {
      var q := n / 4;
      assert s == 2 * q - 1;
      SquareOfStep(q);
      Invertible(n, s, s, q - 1, k);
    } else if n % 3 == 1 {
      var j := n / 3;
      assert 2 * s == n - 3 && n == 3 * j + 1;
      InverseOne(n, s, j);
      Invertible(n, s, 2 * j, j - 1, k);
    } else {
      var j := n / 3;
      assert 2 * s == n - 3 && n == 3 * j + 2;
      InverseTwo(n, s, j);
      assert 1 - n * j == 1 + n * (0 - j);
      Invertible(n, s, -2 * (j + 1), 0 - j, k);
    }
  }

  /** (2q - 1)^2 == 1 + 4q (q - 1) */
  lemma SquareOfStep(q: nat)
    ensures (2 * q - 1) * (2 * q - 1) == 1 + 4 * q * (q - 1)
  {
  }

  lemma InverseOne(n: nat, s: nat, j: nat)
    requires 2 * s == n - 3 && n == 3 * j + 1
    ensures s * (2 * j) == 1 + n * (j - 1)
  {
    assert s * (2 * j) == (2 * s) * j == n * j - 3 * j;
    assert n * (j - 1) == n * j - n;
  }

  lemma InverseTwo(n: nat, s: nat, j: nat)
    requires 2 * s == n - 3 && n == 3 * j + 2
    ensures s * (-2 * (j + 1)) == 1 - n * j
  {
    assert s * (-2 * (j + 1)) == -((2 * s) * (j + 1)) == 3 * (j + 1) - n * (j + 1);
    assert n * (j + 1) == n * j + n;
  }

  /** Otherwise the pass is back at 0 too early. */
  lemma UncoverableReturns(n: nat) returns (k: nat)
    requires n >= 3 && !Coverable(n)
    ensures 0 < k < n && Residue(k, n / 2 - 1, n) == 0
  {
    hide Residue;
    if n % 2 == 0 {
      var a := TwoModFour(n);
      k := 2 * a + 1;
      HalfReturns(n, k, a);
    } else {
      var a := ThreeModSix(n);
      k := 2 * a + 1;
      HalfReturns(n, k, a);
    }
  }

  lemma TwoModFour(n: nat) returns (a: nat)
    requires n % 2 == 0 && n % 4 != 0
    ensures n == 4 * a + 2 && n / 2 - 1 == 2 * a
  {
    var m := n / 2;
    a := m / 2;
    if m == 2 * a {
      DivModUnique(n, 4, a, 0);
    } else {
      DivModUnique(n, 2, 2 * a + 1, 0);
    }
  }

  lemma ThreeModSix(n: nat) returns (a: nat)
    requires n % 2 == 1 && n % 3 == 0
    ensures n == 6 * a + 3 && n / 2 - 1 == 3 * a
  {
    var m := n / 3;
    a := m / 2;
    if m == 2 * a {
      DivModUnique(n, 2, 3 * a, 0);
    } else {
      DivModUnique(n, 2, 3 * a + 1, 1);
    }
  }

  lemma HalfReturns(n: nat, k: nat, i: nat)
    requires n > 0 && ((n / 2 - 1 == 2 * i && n == 2 * k) || (n / 2 - 1 == 3 * i && n == 3 * k))
    ensures Residue(k, n / 2 - 1, n) == 0
  {
    var s := n / 2 - 1;
    assert k * s == i * n by {
      if s == 2 * i && n == 2 * k {
        MulAssoc(k, 2, i);
        MulAssoc(i, 2, k);
      } else {
        MulAssoc(k, 3, i);
        MulAssoc(i, 3, k);
      }
    }
    DivModUnique(k * s, n, i, 0);
  }

  lemma PassLength(v: seq<int>, n: nat, step: int, k: nat)
    requires Pass(v, n, step) && k > 0 && RowAt(n, step, k) == 0
    ensures |v| <= k
  {
  }

  /** An odd time pass visits every row exactly once, and so stops after exactly nRows
      steps, if and only if nRows is a multiple of four, or odd and not one of three. */
  lemma OddPassCoverage(v: seq<int>, n: nat)
    requires n >= 3 && Pass(v, n, n / 2 - 1)
    ensures EachOnce(v, n) <==> Coverable(n)
  {
    var s := n / 2 - 1;
    if Coverable(n) {
      ResidueFull(s, n);
      PassLength(v, n, s, n);
      if |v| < n {
        CoverableNonzero(n, |v|);
      }
      forall i, j | 0 <= i < j < n ensures v[i] != v[j] {
        CoverableNonzero(n, j - i);
        if v[i] == v[j] {
          SameResidue(i, j, s, n);
        }
      }
      Pigeonhole(v);
    } else {
      var k := UncoverableReturns(n);
      PassLength(v, n, s, k);
    }
  }

  /** Six rows, for one, are not all visited by a pass with step 2. */
  lemma SixRowsMissed(v: seq<int>)
    requires Pass(v, 6, 2)
    ensures !EachOnce(v, 6)
  {
    OddPassCoverage(v, 6);
  }

  /** An even time pass counts down from (2^64 - 1) mod nRows; it visits every row
      exactly once if and only if nRows divides 2^64. */
  lemma EvenPassCoverage(v: seq<int>, n: nat)
    requires n > 0 && Pass(v, n, -1)
    ensures EachOnce(v, n) <==> B64 % n == 0
  {
    var top := (B64 - 1) % n;
    PassLength(v, n, -1, top + 1);
    assert |v| == top + 1;
    CountingDown(n);
    if top == n - 1 {
      Pigeonhole(v);
    }
  }

  lemma CountingDown(n: nat)
    requires n > 0
    ensures (B64 - 1) % n == n - 1 <==> B64 % n == 0
  {
    var q := (B64 - 1) / n;
    assert B64 - 1 == q * n + (B64 - 1) % n;
    if (B64 - 1) % n == n - 1 {
      DivModUnique(B64, n, q + 1, 0);
    } else {
      DivModUnique(B64, n, q, (B64 - 1) % n + 1);
    }
  }

  /** For every power of two from four on both kinds of pass visit every row once. */
  lemma PowerOfTwoCoverage(n: nat)
    requires PowerOfTwo(n) && 4 <= n <= 0x8000_0000_0000_0000
    ensures Coverable(n) && B64 % n == 0
  {
    assert PowerOfTwo(4);
    PowerDivides(4, n);
    PowerDividesWord(n);
  }

  predicate Visits(v: seq<int>) { v != [] && forall k :: 0 <= k < |v| ==> v[k] >= 0 }

  /** The matrix and the row before it after all the passes, each going on from the last. */
  ghost function RunPasses<M>(duplex: (M, nat, nat, nat) -> M, pick: M -> nat, n: nat, m: M, prev: nat,
      passes: seq<seq<int>>): (M, nat)
    requires n > 0 && forall i :: 0 <= i < |passes| ==> Visits(passes[i])
  {
    if passes == [] then (m, prev)
    else
      var v := passes[|passes| - 1];
      assert Visits(v);
      var (m', prev') := RunPasses(duplex, pick, n, m, prev, passes[..|passes| - 1]);
      (RunRows(duplex, pick, n, m', prev', v), v[|v| - 1])
  }

  lemma RunPassesSnoc<M>(duplex: (M, nat, nat, nat) -> M, pick: M -> nat, n: nat, m: M, prev: nat,
      passes: seq<seq<int>>, v: seq<int>)
    requires n > 0 && Visits(v) && forall i :: 0 <= i < |passes| ==> Visits(passes[i])
    ensures var (m', prev') := RunPasses(duplex, pick, n, m, prev, passes);
            RunPasses(duplex, pick, n, m, prev, passes + [v]) == (RunRows(duplex, pick, n, m', prev', v), v[|v| - 1])
  {
    hide RunRows;
    assert (passes + [v])[..|passes|] == passes;
  }

  /** The time loop of Wandering: pass tau walks with its own step. */
  method Wander<M>(duplex: (M, nat, nat, nat) -> M, pick: M -> nat, m0: M, prev0: nat, n: nat, timeCost: nat)
    returns (m: M, passes: seq<seq<int>>)
    requires 3 <= n <= 0x8000_0000_0000_0000
    ensures |passes| == timeCost
    ensures forall i :: 0 <= i < timeCost ==> Pass(passes[i], n, WanderStep(i + 1, n)) && Visits(passes[i])
    ensures m == RunPasses(duplex, pick, n, m0, prev0, passes).0
  {
    m, passes := m0, [];
    var prev := prev0;
    hide Pass, RunRows;
    for tau := 1 to timeCost + 1
      invariant |passes| == tau - 1 && prev >= 0
      invariant forall i :: 0 <= i < tau - 1 ==> Pass(passes[i], n, WanderStep(i + 1, n)) && Visits(passes[i])
      invariant (m, prev) == RunPasses(duplex, pick, n, m0, prev0, passes)
    {
      var visited;
      m, prev, visited := WanderPass(duplex, pick, m, prev, n, WanderStep(tau, n));
      RunPassesSnoc(duplex, pick, n, m0, prev0, passes, visited);
      passes := passes + [visited];
    }
  }

  /** The order of every pass. The first pass and every second one after it go up by half the
      rows less one; the others count down, from the last row if nRows divides 2^64. */
  lemma WanderOrder(passes: seq<seq<int>>, n: nat, i: nat, k: nat)
    requires 3 <= n && i < |passes| && Pass(passes[i], n, WanderStep(i + 1, n)) && k < |passes[i]|
    ensures i % 2 == 0 ==> passes[i][k] == k * (n / 2 - 1) % n
    ensures i % 2 == 1 ==> passes[i][k] == if k == 0 then 0 else (B64 - 1) % n + 1 - k
    ensures i % 2 == 1 && B64 % n == 0 ==> passes[i][k] == if k == 0 then 0 else n - k
  {
    CountingDown(n);
  }

  /** Two passes over four rows, row* being the number of calls so far. */
  lemma WanderExample(v: seq<int>, w: seq<int>)
    requires Pass(v, 4, WanderStep(1, 4)) && Pass(w, 4, WanderStep(2, 4)) && Visits(v) && Visits(w)
    ensures RunPasses(Log, Calls, 4, [], 3, [v, w]).0
      == [(3, 0, 0), (0, 1, 1), (1, 2, 2), (2, 3, 3), (3, 0, 0), (0, 1, 3), (3, 2, 2), (2, 3, 1)]
  {
    FourRows(v, w);
    ExamplePasses();
    hide RunRows, Pass, Log, Calls;
    assert RunPasses(Log, Calls, 4, [], 3, []) == ([], 3);
    RunPassesSnoc(Log, Calls, 4, [], 3, [], v);
    RunPassesSnoc(Log, Calls, 4, [], 3, [v], w);
    hide RunPasses;
    assert [] + [v] == [v] && [v] + [w] == [v, w];
  }

  lemma ExamplePasses()
    ensures var first := [(3, 0, 0), (0, 1, 1), (1, 2, 2), (2, 3, 3)];
      && RunRows(Log, Calls, 4, [], 3, [0, 1, 2, 3]) == first
      && RunRows(Log, Calls, 4, first, 3, [0, 3, 2, 1]) == first + [(3, 0, 0), (0, 1, 3), (3, 2, 2), (2, 3, 1)]
  {
    FourCalls(Log, Calls, [], 3, 0, 1, 2, 3);
    FourCalls(Log, Calls, [(3, 0, 0), (0, 1, 1), (1, 2, 2), (2, 3, 3)], 3, 0, 3, 2, 1);
    hide RunRows;
  }

  lemma FourRows(v: seq<int>, w: seq<int>)
    requires Pass(v, 4, WanderStep(1, 4)) && Pass(w, 4, WanderStep(2, 4))
    ensures v == [0, 1, 2, 3] && w == [0, 3, 2, 1]
  {
    PassLength(v, 4, 1, 4);
    PassLength(w, 4, -1, 4);
  }

  lemma FourCalls<M>(duplex: (M, nat, nat, nat) -> M, pick: M -> nat, m: M, prev: nat, a: nat, b: nat, c: nat, d: nat)
    ensures var m1 := duplex(m, prev, pick(m) % 4, a); var m2 := duplex(m1, a, pick(m1) % 4, b);
      var m3 := duplex(m2, b, pick(m2) % 4, c);
      RunRows(duplex, pick, 4, m, prev, [a, b, c, d]) == duplex(m3, c, pick(m3) % 4, d)
  {
    assert [a, b, c, d][..3] == [a, b, c] && [a, b, c][..2] == [a, b] && [a, b][..1] == [a] && [a][..0] == [];
    RunNothing(duplex, pick, 4, m, prev);
    var m1 := duplex(m, prev, pick(m) % 4, a);
    var m2 := duplex(m1, a, pick(m1) % 4, b);
    assert RunRows(duplex, pick, 4, m, prev, [a]) == m1;
    assert RunRows(duplex, pick, 4, m, prev, [a, b]) == m2;
    assert RunRows(duplex, pick, 4, m, prev, [a, b, c]) == duplex(m2, b, pick(m2) % 4, c);
  }

  /** Over the whole of Wandering, for every power of two from four on, every time
      pass visits every row exactly once. */
  lemma WanderCoverage(passes: seq<seq<int>>, n: nat)
    requires PowerOfTwo(n) && 4 <= n <= 0x8000_0000_0000_0000
    requires forall i :: 0 <= i < |passes| ==> Pass(passes[i], n, WanderStep(i + 1, n))
    ensures forall i :: 0 <= i < |passes| ==> EachOnce(passes[i], n)
  {
    PowerOfTwoCoverage(n);
    hide PowerOfTwo, Pass, EachOnce;
    forall i | 0 <= i < |passes| ensures EachOnce(passes[i], n) {
      if (i + 1) % 2 == 0 {
        EvenPassCoverage(passes[i], n);
      } else {
        OddPassCoverage(passes[i], n);
      }
    }
  }
}
