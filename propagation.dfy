/**
 * The propagation rules of the solver as functions on candidate grids.
 *
 * One step on a cell (v, h) that is not yet determined runs three stages in
 * order: inequality pruning, row/column elimination and hidden singles.
 * A pass runs that step on every cell in row-major order, and a run repeats
 * passes until one changes nothing or a pass budget is used up.
 */
module Propagation {
  import opened Candidates
  import opened Layouts

  // ---------------------------------------------------------------------
  // Stage 1: inequality pruning

  /**
   * Counter c rules out the value index n: an even ("greater") counter k
   * removes the k smallest values, an odd ("less") counter k the k largest.
   */
  predicate Hit(k: seq<nat>, s: nat, c: nat, n: int)
    requires |k| == 4 && c < 4
  {
    if c % 2 == 0 then n < k[c] else s - k[c] <= n
  }

  /** One of the counters 0 .. c - 1 rules out the value index n. */
  predicate PrunedBy(k: seq<nat>, s: nat, c: nat, n: int)
    requires |k| == 4 && c <= 4
  {
    c > 0 && (PrunedBy(k, s, c - 1, n) || Hit(k, s, c - 1, n))
  }

  /** The value index n is ruled out at a cell whose counters are k: one of the four counters hits it. */
  predicate Pruned(k: seq<nat>, s: nat, n: int)
    requires |k| == 4
  {
    PrunedBy(k, s, 4, n)
  }

  /** The grid with the values ruled out by the counters k forbidden at (v, h). */
  function Prune(g: Cells, k: seq<nat>, v: nat, h: nat): (r: Cells)
    requires Shaped(g, |g|) && v < |g| && h < |g| && |k| == 4
    ensures Shaped(r, |g|)
  {
    var s := |g|;
    g[v := g[v][h := seq(s, n requires 0 <= n < s => g[v][h][n] || Pruned(k, s, n))]]
  }

  /** Pruning forbids at (v, h) the values the counters rule out, and touches nothing else. */
  lemma PruneBits(g: Cells, k: seq<nat>, v: nat, h: nat)
    requires Shaped(g, |g|) && v < |g| && h < |g| && |k| == 4
    ensures forall a, b, n :: 0 <= a < |g| && 0 <= b < |g| && 0 <= n < |g| ==>
      Prune(g, k, v, h)[a][b][n] == (g[a][b][n] || (a == v && b == h && Pruned(k, |g|, n)))
  {
    var r := Prune(g, k, v, h);
    assert forall a :: 0 <= a < |g| && a != v ==> r[a] == g[a];
    assert forall b :: 0 <= b < |g| && b != h ==> r[v][b] == g[v][b];
  }

  // ---------------------------------------------------------------------
  // Stage 2: row/column elimination

  /** (a, b) is another cell of row v or of column h. */
  predicate Peer(v: int, h: int, a: int, b: int) {
    (a == v || b == h) && !(a == v && b == h)
  }

  /** The grid p with the value that cell (a, b) is determined to in g, if any, forbidden at (a, b). */
  function ForbidOwn(p: Cells, g: Cells, a: nat, b: nat): (r: Cells)
    requires Shaped(p, |p|) && Shaped(g, |p|) && a < |p| && b < |p|
    ensures Shaped(r, |p|)
  {
    var n := Value(g[a][b]);
    if n > 0 then ForbidBit(p, a, b, n - 1) else p
  }

  /** ForbidOwn sets at most the one bit of (a, b)'s own value. */
  lemma ForbidOwnBits(p: Cells, g: Cells, a: nat, b: nat)
    requires Shaped(p, |p|) && Shaped(g, |p|) && a < |p| && b < |p|
    ensures forall x, y, z :: 0 <= x < |p| && 0 <= y < |p| && 0 <= z < |p| ==>
      ForbidOwn(p, g, a, b)[x][y][z] == (p[x][y][z] || (x == a && y == b && z == Value(g[a][b]) - 1))
  {
    var n := Value(g[a][b]);
    if n > 0 {
      ForbidBitBits(p, a, b, n - 1);
    }
  }

  /**
   * Rounds 0 .. i - 1 of elimination around (v, h): round j forbids in the
   * column peer (j, h) and in the row peer (v, j), when either is another
   * cell that is determined, its own value (leaving it with no candidate).
   * The values are read from g, the grid the stage started with: no round
   * writes a cell a later round reads.
   */
  function EliminateRounds(g: Cells, v: nat, h: nat, i: nat): (r: Cells)
    requires Shaped(g, |g|) && v < |g| && h < |g| && i <= |g|
    ensures Shaped(r, |g|)
    decreases i
  {
    if i == 0 then g
    else EliminationRound(EliminateRounds(g, v, h, i - 1), g, v, h, i - 1)
  }

  /**
   * Round j of elimination around (v, h) applied to the grid p: the column
   * peer (j, h), then the row peer (v, j), loses the value it has in g.
   */
  function EliminationRound(p: Cells, g: Cells, v: nat, h: nat, j: nat): (r: Cells)
    requires Shaped(p, |p|) && Shaped(g, |p|) && v < |p| && h < |p| && j < |p|
    ensures Shaped(r, |p|)
  {
    var p' := if j != v then ForbidOwn(p, g, j, h) else p;
    if j != h then ForbidOwn(p', g, v, j) else p'
  }

  /** Stage 2 on (v, h): every round of elimination. */
  function Eliminate(g: Cells, v: nat, h: nat): (r: Cells)
    requires Shaped(g, |g|) && v < |g| && h < |g|
    ensures Shaped(r, |g|)
  {
    EliminateRounds(g, v, h, |g|)
  }

  /** Round i - 1 forbids in its column peer and its row peer their own value, and nothing else. */
  lemma EliminateRoundBits(g: Cells, v: nat, h: nat, i: nat)
    requires Shaped(g, |g|) && v < |g| && h < |g| && 0 < i <= |g|
    ensures forall a, b, n :: 0 <= a < |g| && 0 <= b < |g| && 0 <= n < |g| ==>
      EliminateRounds(g, v, h, i)[a][b][n] ==
        (EliminateRounds(g, v, h, i - 1)[a][b][n] ||
         (((a == i - 1 != v && b == h) || (a == v && b == i - 1 != h)) && n == Value(g[a][b]) - 1))
  {
    var p := EliminateRounds(g, v, h, i - 1);
    var j := i - 1;
    var p' := if j != v then ForbidOwn(p, g, j, h) else p;
    assert EliminateRounds(g, v, h, i) == EliminationRound(p, g, v, h, j);
    if j != v {
      ForbidOwnBits(p, g, j, h);
    }
    if j != h {
      ForbidOwnBits(p', g, v, j);
    }
  }

  /**
   * After i rounds, the peers whose round is over (row index for column
   * peers, column index for row peers) have their own value forbidden, and
   * nothing else has changed.
   */
  lemma {:induction false} EliminateRoundsBits(g: Cells, v: nat, h: nat, i: nat)
    requires Shaped(g, |g|) && v < |g| && h < |g| && i <= |g|
    ensures forall a, b, n :: 0 <= a < |g| && 0 <= b < |g| && 0 <= n < |g| ==>
      EliminateRounds(g, v, h, i)[a][b][n] ==
        (g[a][b][n] || (Peer(v, h, a, b) && (if b == h then a else b) < i && n == Value(g[a][b]) - 1))
    decreases i
  {
    if i > 0 {
      EliminateRoundsBits(g, v, h, i - 1);
      EliminateRoundBits(g, v, h, i);
    }
  }

  /**
   * The cells round i reads still hold what they held in g: no earlier
   * round writes them.
   */
  lemma EliminateRoundsReads(g: Cells, v: nat, h: nat, i: nat)
    requires Shaped(g, |g|) && v < |g| && h < |g| && i < |g|
    ensures i != v ==> EliminateRounds(g, v, h, i)[i][h] == g[i][h]
    ensures i != h ==> EliminateRounds(g, v, h, i)[v][i] == g[v][i]
  {
    var r := EliminateRounds(g, v, h, i);
    EliminateRoundsBits(g, v, h, i);
    if i != v {
      assert forall n :: 0 <= n < |g| ==> r[i][h][n] == g[i][h][n];
    }
    if i != h {
      assert forall n :: 0 <= n < |g| ==> r[v][i][n] == g[v][i][n];
    }
  }

  /** Elimination forbids in each determined peer its own value, and touches nothing else. */
  lemma EliminateBits(g: Cells, v: nat, h: nat)
    requires Shaped(g, |g|) && v < |g| && h < |g|
    ensures forall a, b, n :: 0 <= a < |g| && 0 <= b < |g| && 0 <= n < |g| ==>
      Eliminate(g, v, h)[a][b][n] == (g[a][b][n] || (Peer(v, h, a, b) && n == Value(g[a][b]) - 1))
  {
    EliminateRoundsBits(g, v, h, |g|);
  }

  /** One of the peers (i', h) or (v, i') with i' < i is determined. */
  predicate PeersDetermined(g: Cells, v: nat, h: nat, i: nat)
    requires Shaped(g, |g|) && v < |g| && h < |g| && i <= |g|
  {
    i > 0 &&
    (PeersDetermined(g, v, h, i - 1) ||
     (i - 1 != v && Value(g[i - 1][h]) > 0) || (i - 1 != h && Value(g[v][i - 1]) > 0))
  }

  /** PeersDetermined names a round k below i whose column or row peer is determined. */
  lemma {:induction false} PeersDeterminedWitness(g: Cells, v: nat, h: nat, i: nat)
    requires Shaped(g, |g|) && v < |g| && h < |g| && i <= |g|
    ensures PeersDetermined(g, v, h, i) <==>
      exists k :: 0 <= k < i && ((k != v && Value(g[k][h]) > 0) || (k != h && Value(g[v][k]) > 0))
  {
    if i > 0 {
      PeersDeterminedWitness(g, v, h, i - 1);
    }
  }

  /** A determined peer loses its own value, so elimination changes the grid. */
  lemma EliminateForbidsPeer(g: Cells, v: nat, h: nat, a: nat, b: nat)
    requires Shaped(g, |g|) && v < |g| && h < |g| && a < |g| && b < |g| && Peer(v, h, a, b) && Value(g[a][b]) > 0
    ensures Eliminate(g, v, h) != g
  {
    var n := Value(g[a][b]);
    ValueAllowed(g[a][b]);
    EliminateBits(g, v, h);
    assert Eliminate(g, v, h)[a][b][n - 1];
  }

  /** With no determined peer, elimination leaves the grid as it is. */
  lemma EliminateKeeps(g: Cells, v: nat, h: nat)
    requires Shaped(g, |g|) && v < |g| && h < |g|
    requires forall a, b :: 0 <= a < |g| && 0 <= b < |g| && Peer(v, h, a, b) ==> Value(g[a][b]) == 0
    ensures Eliminate(g, v, h) == g
  {
    EliminateBits(g, v, h);
    SameCells(Eliminate(g, v, h), g, |g|);
  }

  /**
   * Elimination changes the grid exactly when some other cell of row v or
   * column h is determined: such a cell still allows its own value, which
   * is then forbidden.
   */
  lemma EliminateChanges(g: Cells, v: nat, h: nat)
    requires Shaped(g, |g|) && v < |g| && h < |g|
    ensures Eliminate(g, v, h) != g <==> PeersDetermined(g, v, h, |g|)
  {
    var s := |g|;
    PeersDeterminedWitness(g, v, h, s);
    if PeersDetermined(g, v, h, s) {
      var k :| 0 <= k < s && ((k != v && Value(g[k][h]) > 0) || (k != h && Value(g[v][k]) > 0));
      if k != v && Value(g[k][h]) > 0 {
        EliminateForbidsPeer(g, v, h, k, h);
      } else {
        EliminateForbidsPeer(g, v, h, v, k);
      }
    } else {
      forall a, b | 0 <= a < s && 0 <= b < s && Peer(v, h, a, b)
        ensures Value(g[a][b]) == 0
      {
        var k := if b == h then a else b;
        assert !((k != v && Value(g[k][h]) > 0) || (k != h && Value(g[v][k]) > 0));
      }
      EliminateKeeps(g, v, h);
    }
  }

  // ---------------------------------------------------------------------
  // Stage 3: hidden singles

  /** No cell of row v other than (v, h) admits the value n. */
  ghost predicate OnlyInRow(g: Cells, v: nat, h: nat, n: int)
    requires Shaped(g, |g|) && v < |g| && 1 <= n <= |g|
  {
    forall i :: 0 <= i < |g| ==> i == h || g[v][i][n - 1]
  }

  /** No cell of column h other than (v, h) admits the value n. */
  ghost predicate OnlyInColumn(g: Cells, v: nat, h: nat, n: int)
    requires Shaped(g, |g|) && h < |g| && 1 <= n <= |g|
  {
    forall i :: 0 <= i < |g| ==> i == v || g[i][h][n - 1]
  }

  /** The value n is allowed at (v, h) and nowhere else in its row or in its column. */
  ghost predicate Hidden(g: Cells, v: nat, h: nat, n: int)
    requires Shaped(g, |g|) && v < |g| && h < |g|
  {
    1 <= n <= |g| && !g[v][h][n - 1] && (OnlyInRow(g, v, h, n) || OnlyInColumn(g, v, h, n))
  }

  /** The smallest hidden single of (v, h) that is at least lo, or 0 when there is none. */
  ghost function FirstHidden(g: Cells, v: nat, h: nat, lo: nat): (m: nat)
    requires Shaped(g, |g|) && v < |g| && h < |g| && 1 <= lo
    ensures m == 0 || (lo <= m <= |g| && Hidden(g, v, h, m))
    ensures forall n :: lo <= n <= |g| && (m == 0 || n < m) ==> !Hidden(g, v, h, n)
    decreases |g| + 1 - lo
  {
    if lo > |g| then 0
    else if Hidden(g, v, h, lo) then lo
    else FirstHidden(g, v, h, lo + 1)
  }

  /** The grid with (v, h) fixed to its first hidden single, if it has one. */
  ghost function HiddenSingle(g: Cells, v: nat, h: nat): (r: Cells)
    requires Shaped(g, |g|) && v < |g| && h < |g|
    ensures Shaped(r, |g|)
  {
    var m := FirstHidden(g, v, h, 1);
    if m == 0 then g else Fix(g, v, h, m)
  }

  // ---------------------------------------------------------------------
  // One step, one pass, a run of passes

  /** The step on (v, h) with counters k: nothing when (v, h) is determined, else the three stages. */
  ghost function CellStep(g: Cells, k: seq<nat>, v: nat, h: nat): (r: Cells)
    requires Shaped(g, |g|) && v < |g| && h < |g| && |k| == 4
    ensures Shaped(r, |g|)
  {
    if Value(g[v][h]) > 0 then g
    else HiddenSingle(Eliminate(Prune(g, k, v, h), v, h), v, h)
  }

  /** The grid after the steps on the first h cells of row v, left to right. */
  ghost function RowSweep(g: Cells, t: Counters, v: nat, h: nat): (r: Cells)
    requires Shaped(g, |g|) && Tabled(t, |g|) && v < |g| && h <= |g|
    ensures Shaped(r, |g|)
    decreases h, 0
  {
    if h == 0 then g else StepAfter(g, t, v, h - 1)
  }

  /** The grid just after the step on (v, h) in a sweep of row v that started from g. */
  ghost function StepAfter(g: Cells, t: Counters, v: nat, h: nat): (r: Cells)
    requires Shaped(g, |g|) && Tabled(t, |g|) && v < |g| && h < |g|
    ensures Shaped(r, |g|)
    decreases h, 1
  {
    CellStep(RowSweep(g, t, v, h), t[v][h], v, h)
  }

  /** The sweep of a row over h + 1 cells is the sweep over h cells followed by the step on (v, h). */
  lemma RowSweepNext(g: Cells, t: Counters, v: nat, h: nat)
    requires Shaped(g, |g|) && Tabled(t, |g|) && v < |g| && h < |g|
    ensures RowSweep(g, t, v, h + 1) == CellStep(RowSweep(g, t, v, h), t[v][h], v, h)
  {
    assert RowSweep(g, t, v, h + 1) == StepAfter(g, t, v, h);
  }

  /** The grid after the steps on every cell of the first v rows. */
  ghost function PassPrefix(g: Cells, t: Counters, v: nat): (r: Cells)
    requires Shaped(g, |g|) && Tabled(t, |g|) && v <= |g|
    ensures Shaped(r, |g|)
    decreases v
  {
    if v == 0 then g
    else RowSweep(PassPrefix(g, t, v - 1), t, v - 1, |g|)
  }

  /** One pass: the step on every cell, row by row, left to right. */
  ghost function Pass(g: Cells, t: Counters): (r: Cells)
    requires Shaped(g, |g|) && Tabled(t, |g|)
    ensures Shaped(r, |g|)
  {
    PassPrefix(g, t, |g|)
  }

  /** Passes until one changes nothing, at most `passes` of them. */
  ghost function Run(g: Cells, t: Counters, passes: nat): (r: Cells)
    requires Shaped(g, |g|) && Tabled(t, |g|)
    ensures Shaped(r, |g|)
    decreases passes
  {
    if passes == 0 then g
    else
      var g' := Pass(g, t);
      if g' == g then g else Run(g', t, passes - 1)
  }

  /** A run with passes left does one pass, then stops if it changed nothing. */
  lemma RunStep(g: Cells, t: Counters, passes: nat)
    requires Shaped(g, |g|) && Tabled(t, |g|) && passes > 0
    ensures Run(g, t, passes) == if Pass(g, t) == g then g else Run(Pass(g, t), t, passes - 1)
  {
  }

  /** One of the steps on the first h cells of row v changed the grid it was given. */
  ghost predicate RowChanged(g: Cells, t: Counters, v: nat, h: nat)
    requires Shaped(g, |g|) && Tabled(t, |g|) && v < |g| && h <= |g|
    decreases h
  {
    h > 0 && (RowChanged(g, t, v, h - 1) || RowSweep(g, t, v, h) != RowSweep(g, t, v, h - 1))
  }

  /** One of the steps on the cells of the first v rows changed the grid it was given. */
  ghost predicate PassChanged(g: Cells, t: Counters, v: nat)
    requires Shaped(g, |g|) && Tabled(t, |g|) && v <= |g|
    decreases v
  {
    v > 0 && (PassChanged(g, t, v - 1) || RowChanged(PassPrefix(g, t, v - 1), t, v - 1, |g|))
  }

  // ---------------------------------------------------------------------
  // Propagation only ever forbids

  lemma PruneGrows(g: Cells, k: seq<nat>, v: nat, h: nat)
    requires Shaped(g, |g|) && v < |g| && h < |g| && |k| == 4
    ensures Refines(g, Prune(g, k, v, h), |g|)
  {
    PruneBits(g, k, v, h);
  }

  lemma EliminateGrows(g: Cells, v: nat, h: nat)
    requires Shaped(g, |g|) && v < |g| && h < |g|
    ensures Refines(g, Eliminate(g, v, h), |g|)
  {
    EliminateBits(g, v, h);
  }

  lemma HiddenSingleGrows(g: Cells, v: nat, h: nat)
    requires Shaped(g, |g|) && v < |g| && h < |g|
    ensures Refines(g, HiddenSingle(g, v, h), |g|)
  {
  }

  /** A step never gives a value back: every bit forbidden before is forbidden after. */
  lemma CellStepGrows(g: Cells, k: seq<nat>, v: nat, h: nat)
    requires Shaped(g, |g|) && v < |g| && h < |g| && |k| == 4
    ensures Refines(g, CellStep(g, k, v, h), |g|)
  {
    if Value(g[v][h]) == 0 {
      var g1 := Prune(g, k, v, h);
      var g2 := Eliminate(g1, v, h);
      PruneGrows(g, k, v, h);
      EliminateGrows(g1, v, h);
      HiddenSingleGrows(g2, v, h);
      RefinesTransitive(g, g1, g2, |g|);
      RefinesTransitive(g, g2, HiddenSingle(g2, v, h), |g|);
    }
  }

  /** The step on the h-th cell of a row only ever forbids. */
  lemma SweepStepGrows(g: Cells, t: Counters, v: nat, h: nat)
    requires Shaped(g, |g|) && Tabled(t, |g|) && v < |g| && h < |g|
    ensures Refines(RowSweep(g, t, v, h), RowSweep(g, t, v, h + 1), |g|)
  {
    RowSweepNext(g, t, v, h);
    CellStepGrows(RowSweep(g, t, v, h), t[v][h], v, h);
  }

  /** The steps along a row only ever forbid. */
  lemma {:induction false} RowSweepGrows(g: Cells, t: Counters, v: nat, h: nat)
    requires Shaped(g, |g|) && Tabled(t, |g|) && v < |g| && h <= |g|
    ensures Refines(g, RowSweep(g, t, v, h), |g|)
    decreases h
  {
    if h == 0 {
      RefinesReflexive(g, |g|);
    } else {
      RowSweepGrows(g, t, v, h - 1);
      SweepStepGrows(g, t, v, h - 1);
      RefinesTransitive(g, RowSweep(g, t, v, h - 1), RowSweep(g, t, v, h), |g|);
    }
  }

  /**
   * Some step of a row changed the grid it was given exactly when the row,
   * taken as a whole, changed the grid: as steps only forbid, no step can
   * undo another.
   */
  lemma {:induction false} RowChangedIff(g: Cells, t: Counters, v: nat, h: nat)
    requires Shaped(g, |g|) && Tabled(t, |g|) && v < |g| && h <= |g|
    ensures RowChanged(g, t, v, h) <==> RowSweep(g, t, v, h) != g
    decreases h
  {
    if h > 0 {
      RowChangedIff(g, t, v, h - 1);
      RowSweepGrows(g, t, v, h - 1);
      SweepStepGrows(g, t, v, h - 1);
      ChainChanged(g, RowSweep(g, t, v, h - 1), RowSweep(g, t, v, h), |g|);
    }
  }

  /** The rows of a pass only ever forbid. */
  lemma {:induction false} PassPrefixGrows(g: Cells, t: Counters, v: nat)
    requires Shaped(g, |g|) && Tabled(t, |g|) && v <= |g|
    ensures Refines(g, PassPrefix(g, t, v), |g|)
    decreases v
  {
    if v == 0 {
      RefinesReflexive(g, |g|);
    } else {
      var p := PassPrefix(g, t, v - 1);
      PassPrefixGrows(g, t, v - 1);
      RowSweepGrows(p, t, v - 1, |g|);
      RefinesTransitive(g, p, PassPrefix(g, t, v), |g|);
    }
  }

  /** Some step of a pass changed the grid it was given exactly when the pass changed the grid. */
  lemma {:induction false} PassChangedIff(g: Cells, t: Counters, v: nat)
    requires Shaped(g, |g|) && Tabled(t, |g|) && v <= |g|
    ensures PassChanged(g, t, v) <==> PassPrefix(g, t, v) != g
    decreases v
  {
    if v > 0 {
      var p := PassPrefix(g, t, v - 1);
      PassChangedIff(g, t, v - 1);
      PassPrefixGrows(g, t, v - 1);
      RowSweepGrows(p, t, v - 1, |g|);
      RowChangedIff(p, t, v - 1, |g|);
      ChainChanged(g, p, PassPrefix(g, t, v), |g|);
    }
  }

  /** A run only ever forbids: every value ruled out before is ruled out after. */
  lemma {:induction false} RunGrows(g: Cells, t: Counters, passes: nat)
    requires Shaped(g, |g|) && Tabled(t, |g|)
    ensures Refines(g, Run(g, t, passes), |g|)
    decreases passes
  {
    if passes == 0 || Pass(g, t) == g {
      RefinesReflexive(g, |g|);
    } else {
      PassPrefixGrows(g, t, |g|);
      RunGrows(Pass(g, t), t, passes - 1);
      RefinesTransitive(g, Pass(g, t), Run(g, t, passes), |g|);
    }
  }

  // ---------------------------------------------------------------------
  // What the stages do to the cell and to the solutions it admits

  /** Every cell of the grid still allows the value the solution sol puts there. */
  ghost predicate Admits(g: Cells, sol: seq<seq<int>>)
    requires Shaped(g, |g|)
  {
    |sol| == |g| &&
    forall v :: 0 <= v < |g| ==>
      |sol[v]| == |g| && forall h :: 0 <= h < |g| ==> 1 <= sol[v][h] <= |g| && !g[v][h][sol[v][h] - 1]
  }

  /** PrunedBy(k, s, c, n) says one of the counters 0 .. c - 1 hits n. */
  lemma {:induction false} PrunedByHit(k: seq<nat>, s: nat, c: nat, n: int)
    requires |k| == 4 && c <= 4
    ensures PrunedBy(k, s, c, n) <==> exists d :: 0 <= d < c && Hit(k, s, d, n)
    decreases c
  {
    if c > 0 {
      PrunedByHit(k, s, c - 1, n);
    }
  }

  /**
   * Pruning is sound: the value of (v, h) in any solution of the slots lies
   * above its "greater" counters and below size minus its "less" counters,
   * so no solution the grid admits is lost.
   */
  lemma PruneSound(g: Cells, l: Layout, sol: seq<seq<int>>, v: nat, h: nat)
    requires Shaped(g, |g|) && Valid(l) && l.size == |g| && v < |g| && h < |g|
    requires Solution(l, sol) && Admits(g, sol)
    ensures Admits(Prune(g, Counts(l, v, h), v, h), sol)
  {
    PruneSpares(l, sol, v, h);
    PruneBits(g, Counts(l, v, h), v, h);
  }

  /** No counter of (v, h) hits the value a solution puts there. */
  lemma PruneSpares(l: Layout, sol: seq<seq<int>>, v: nat, h: nat)
    requires Valid(l) && v < l.size && h < l.size && Solution(l, sol)
    ensures !Pruned(Counts(l, v, h), l.size, sol[v][h] - 1)
  {
    var k := Counts(l, v, h);
    SolutionWithinCounters(l, sol, v, h);
    PrunedByHit(k, l.size, 4, sol[v][h] - 1);
  }

  /**
   * As written, elimination leaves every determined peer of (v, h) with no
   * candidate at all: its only remaining value is the one it loses.
   */
  lemma EliminateEmptiesPeer(g: Cells, v: nat, h: nat, a: nat, b: nat)
    requires Shaped(g, |g|) && v < |g| && h < |g| && a < |g| && b < |g| && Peer(v, h, a, b) && Value(g[a][b]) > 0
    ensures forall n :: 0 <= n < |g| ==> Eliminate(g, v, h)[a][b][n]
  {
    var m := Value(g[a][b]);
    ValueMeaning(g[a][b]);
    assert Only(g[a][b], m);
    EliminateBits(g, v, h);
  }

  /**
   * A hidden single determines its cell: when some value is allowed at
   * (v, h) and nowhere else in row v or in column h, the cell is fixed to
   * the smallest such value and no other cell changes; when there is none
   * the grid is left as it is.
   */
  lemma HiddenSingleFixes(g: Cells, v: nat, h: nat)
    requires Shaped(g, |g|) && v < |g| && h < |g|
    ensures forall m :: Hidden(g, v, h, m) && (forall n :: 1 <= n < m ==> !Hidden(g, v, h, n)) ==>
      HiddenSingle(g, v, h) == Fix(g, v, h, m) && Value(HiddenSingle(g, v, h)[v][h]) == m
    ensures forall a, b :: 0 <= a < |g| && 0 <= b < |g| && !(a == v && b == h) ==> HiddenSingle(g, v, h)[a][b] == g[a][b]
    ensures (forall n :: !Hidden(g, v, h, n)) ==> HiddenSingle(g, v, h) == g
  {
    var first := FirstHidden(g, v, h, 1);
    forall m | Hidden(g, v, h, m) && (forall n :: 1 <= n < m ==> !Hidden(g, v, h, n))
      ensures HiddenSingle(g, v, h) == Fix(g, v, h, m) && Value(HiddenSingle(g, v, h)[v][h]) == m
    {
      assert first == m;
      ValueMeaning(Fixed(|g|, m));
    }
  }

  /**
   * Hidden singles are sound: if a solution puts m somewhere in row v (or
   * column h) and every other cell there forbids m, the solution puts m at
   * (v, h), which is what the cell is fixed to.
   */
  lemma HiddenSingleSound(g: Cells, l: Layout, sol: seq<seq<int>>, v: nat, h: nat)
    requires Shaped(g, |g|) && Valid(l) && l.size == |g| && v < |g| && h < |g|
    requires Solution(l, sol) && Admits(g, sol)
    ensures Admits(HiddenSingle(g, v, h), sol)
  {
    var m := FirstHidden(g, v, h, 1);
    if m != 0 {
      HiddenIsSolved(g, sol, v, h, m);
      FixSolved(g, sol, v, h);
    }
  }

  /** A hidden single of (v, h) is the value every admitted Latin square puts there. */
  lemma HiddenIsSolved(g: Cells, sol: seq<seq<int>>, v: nat, h: nat, m: int)
    requires Shaped(g, |g|) && v < |g| && h < |g| && Hidden(g, v, h, m)
    requires Latin(|g|, sol) && Admits(g, sol)
    ensures sol[v][h] == m
  {
    if OnlyInRow(g, v, h, m) {
      assert RowHas(sol, v, m);
      var b :| 0 <= b < |sol[v]| && sol[v][b] == m;
      assert !g[v][b][m - 1];
    } else {
      assert ColumnHas(sol, h, m);
      var a :| 0 <= a < |sol| && 0 <= h < |sol[a]| && sol[a][h] == m;
      assert !g[a][h][m - 1];
    }
  }

  /** Fixing a cell to the value a solution puts there keeps that solution admitted. */
  lemma FixSolved(g: Cells, sol: seq<seq<int>>, v: nat, h: nat)
    requires Shaped(g, |g|) && v < |g| && h < |g| && Admits(g, sol)
    ensures Admits(Fix(g, v, h, sol[v][h]), sol)
  {
    var r := Fix(g, v, h, sol[v][h]);
    assert forall a, b :: 0 <= a < |g| && 0 <= b < |g| && !(a == v && b == h) ==> r[a][b] == g[a][b];
  }

  // ---------------------------------------------------------------------
  // Where a run stops

  /** The grid after j passes in a row, with no stopping. */
  ghost function Passes(g: Cells, t: Counters, j: nat): (r: Cells)
    requires Shaped(g, |g|) && Tabled(t, |g|)
    ensures Shaped(r, |g|)
    decreases j
  {
    if j == 0 then g else Passes(Pass(g, t), t, j - 1)
  }

  /**
   * A run stops at a grid that one more pass would not change, or else it
   * has used its whole budget of passes, every one of which changed the
   * grid.
   */
  lemma {:induction false} RunStops(g: Cells, t: Counters, passes: nat)
    requires Shaped(g, |g|) && Tabled(t, |g|)
    ensures Pass(Run(g, t, passes), t) == Run(g, t, passes) ||
      (Run(g, t, passes) == Passes(g, t, passes) &&
       forall j :: 0 <= j < passes ==> Passes(g, t, j + 1) != Passes(g, t, j))
    decreases passes
  {
    if passes > 0 && Pass(g, t) != g {
      var g' := Pass(g, t);
      RunStops(g', t, passes - 1);
      assert Run(g, t, passes) == Run(g', t, passes - 1);
      assert Passes(g, t, passes) == Passes(g', t, passes - 1);
      if Pass(Run(g', t, passes - 1), t) != Run(g', t, passes - 1) {
        forall j | 0 <= j < passes
          ensures Passes(g, t, j + 1) != Passes(g, t, j)
        {
          assert Passes(g, t, j + 1) == Passes(g', t, j);
          if j == 0 {
            assert Passes(g', t, 0) == g' && Passes(g, t, 0) == g;
          } else {
            var i := j - 1;
            assert Passes(g', t, i + 1) != Passes(g', t, i);
            assert Passes(g, t, j) == Passes(g', t, i);
          }
        }
      }
    }
  }
}
