/**
 * The candidate-set view of a Futoshiki grid, as plain values.
 *
 * A grid of size `s` keeps, for every cell (v, h) and every value index n
 * in [0, s), one bit that says whether the value n + 1 has been ruled out
 * at that cell. A cell is determined when exactly one bit is clear, and
 * contradictory when none is.
 */
module Candidates {

  /** bits[n] is true when the value n + 1 is forbidden in one cell. */
  type Bits = seq<bool>

  /** g[v][h] are the forbidden bits of the cell in row v, column h. */
  type Cells = seq<seq<Bits>>

  /** g is an s x s grid of cells, each holding s bits. */
  ghost predicate Shaped(g: Cells, s: nat) {
    |g| == s &&
    forall v :: 0 <= v < s ==> |g[v]| == s && forall h :: 0 <= h < s ==> |g[v][h]| == s
  }

  /** The value n is the one and only candidate left in `bits`. */
  ghost predicate Only(bits: Bits, n: int) {
    1 <= n <= |bits| && !bits[n - 1] &&
    forall i :: 0 <= i < |bits| && i != n - 1 ==> bits[i]
  }

  /** How many values are still allowed. */
  function FreeCount(bits: Bits): nat
  {
    if bits == [] then 0
    else FreeCount(bits[..|bits| - 1]) + (if bits[|bits| - 1] then 0 else 1)
  }

  /** Index of the last allowed value, or |bits| when there is none. */
  function LastFree(bits: Bits): (i: nat)
    ensures i <= |bits|
    ensures i < |bits| ==> !bits[i] && forall j :: i < j < |bits| ==> bits[j]
    ensures i == |bits| ==> forall j :: 0 <= j < |bits| ==> bits[j]
  {
    if bits == [] then 0
    else if !bits[|bits| - 1] then |bits| - 1
    else
      var i := LastFree(bits[..|bits| - 1]);
      if i == |bits| - 1 then |bits| else i
  }

  /**
   * The value a cell is determined to: its single remaining candidate,
   * or 0 when no candidate or several candidates remain.
   */
  function Value(bits: Bits): (n: nat)
    ensures n <= |bits|
  {
    if FreeCount(bits) == 1 then FreeCountZero(bits); LastFree(bits) + 1 else 0
  }

  /** Allowing one more prefix bit never lowers the number of allowed values. */
  lemma {:induction false} FreeCountPrefix(bits: Bits, i: nat)
    requires i <= |bits|
    ensures FreeCount(bits[..i]) <= FreeCount(bits)
    decreases |bits|
  {
    if i < |bits| {
      assert bits[..|bits| - 1][..i] == bits[..i];
      FreeCountPrefix(bits[..|bits| - 1], i);
    } else {
      assert bits[..i] == bits;
    }
  }

  /** FreeCount is zero exactly when every value is forbidden. */
  lemma {:induction false} FreeCountZero(bits: Bits)
    ensures FreeCount(bits) == 0 <==> forall j :: 0 <= j < |bits| ==> bits[j]
    decreases |bits|
  {
    if bits != [] {
      var p := bits[..|bits| - 1];
      FreeCountZero(p);
      assert forall j :: 0 <= j < |p| ==> p[j] == bits[j];
    }
  }

  /**
   * Value picks out the only candidate: it is n > 0 exactly when n is the
   * one value still allowed, and it is 0 exactly when the cell is not
   * determined.
   */
  lemma {:induction false} ValueMeaning(bits: Bits)
    ensures Value(bits) <= |bits|
    ensures forall n :: 1 <= n <= |bits| ==> (Value(bits) == n <==> Only(bits, n))
    decreases |bits|
  {
    if bits != [] {
      var p := bits[..|bits| - 1];
      ValueMeaning(p);
      FreeCountZero(p);
      assert forall j :: 0 <= j < |p| ==> p[j] == bits[j];
      if !bits[|bits| - 1] {
        // the last value is allowed: determined iff nothing before it is
        assert FreeCount(bits) == FreeCount(p) + 1;
      } else {
        assert FreeCount(bits) == FreeCount(p);
        assert LastFree(bits) == LastFree(p) || LastFree(bits) == |bits|;
        forall n | 1 <= n <= |bits|
          ensures Value(bits) == n <==> Only(bits, n)
        {
          if n < |bits| {
            assert Only(bits, n) <==> Only(p, n);
          }
        }
      }
    }
  }

  /** A determined cell still allows the value it is determined to. */
  lemma ValueAllowed(bits: Bits)
    ensures Value(bits) > 0 ==> Value(bits) <= |bits| && !bits[Value(bits) - 1]
  {
    ValueMeaning(bits);
  }

  /** A cell determined to the value n: every other value forbidden. */
  function Fixed(s: nat, n: int): (bits: Bits)
    ensures |bits| == s
    ensures 1 <= n <= s ==> Only(bits, n)
  {
    seq(s, i => i != n - 1)
  }

  /** The grid with cell (v, h) determined to n and nothing else changed. */
  function Fix(g: Cells, v: nat, h: nat, n: int): (r: Cells)
    requires v < |g| && h < |g[v]|
  {
    g[v := g[v][h := Fixed(|g[v][h]|, n)]]
  }

  /** The grid with the value index n forbidden at (v, h) and nothing else changed. */
  function ForbidBit(g: Cells, v: nat, h: nat, n: nat): (r: Cells)
    requires Shaped(g, |g|) && v < |g| && h < |g| && n < |g|
    ensures Shaped(r, |g|)
  {
    g[v := g[v][h := g[v][h][n := true]]]
  }

  /** ForbidBit sets exactly one bit. */
  lemma ForbidBitBits(g: Cells, v: nat, h: nat, n: nat)
    requires Shaped(g, |g|) && v < |g| && h < |g| && n < |g|
    ensures forall a, b, j :: 0 <= a < |g| && 0 <= b < |g| && 0 <= j < |g| ==>
      ForbidBit(g, v, h, n)[a][b][j] == (g[a][b][j] || (a == v && b == h && j == n))
  {
  }

  /**
   * g2 forbids everything g1 forbids (and perhaps more): g2 has at most the
   * candidates of g1, cell by cell.
   */
  ghost predicate Refines(g1: Cells, g2: Cells, s: nat) {
    Shaped(g1, s) && Shaped(g2, s) &&
    forall v, h, n :: 0 <= v < s && 0 <= h < s && 0 <= n < s && g1[v][h][n] ==> g2[v][h][n]
  }

  /** Two grids of the same shape with the same bits are the same grid. */
  lemma SameCells(g1: Cells, g2: Cells, s: nat)
    requires Shaped(g1, s) && Shaped(g2, s)
    requires forall v, h, n :: 0 <= v < s && 0 <= h < s && 0 <= n < s ==> g1[v][h][n] == g2[v][h][n]
    ensures g1 == g2
  {
    forall v | 0 <= v < s ensures g1[v] == g2[v] {
      forall h | 0 <= h < s ensures g1[v][h] == g2[v][h] {
        assert forall n :: 0 <= n < s ==> g1[v][h][n] == g2[v][h][n];
      }
    }
  }

  lemma RefinesReflexive(g: Cells, s: nat)
    requires Shaped(g, s)
    ensures Refines(g, g, s)
  {
  }

  lemma RefinesTransitive(g1: Cells, g2: Cells, g3: Cells, s: nat)
    requires Refines(g1, g2, s) && Refines(g2, g3, s)
    ensures Refines(g1, g3, s)
  {
  }

  /** Refinement is antisymmetric: a grid that refines and is refined by another is that grid. */
  lemma RefinesAntisymmetric(g1: Cells, g2: Cells, s: nat)
    requires Refines(g1, g2, s) && Refines(g2, g1, s)
    ensures g1 == g2
  {
    SameCells(g1, g2, s);
  }

  /**
   * Along two refinement steps the last grid differs from the first exactly
   * when one of the steps changed something.
   */
  lemma ChainChanged(g0: Cells, g1: Cells, g2: Cells, s: nat)
    requires Refines(g0, g1, s) && Refines(g1, g2, s)
    ensures g2 != g0 <==> (g1 != g0 || g2 != g1)
  {
    if g2 == g0 {
      RefinesAntisymmetric(g0, g1, s);
    }
  }

  /** Every cell of the grid is determined. */
  ghost predicate Solved(g: Cells, s: nat)
    requires Shaped(g, s)
  {
    forall v, h :: 0 <= v < s && 0 <= h < s ==> Value(g[v][h]) > 0
  }
}
