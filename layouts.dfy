/**
 * The inequality constraints of a puzzle and the per-cell counters derived
 * from them.
 *
 * vs[r][h] sits between the cells (r, h) and (r + 1, h): '^' says the upper
 * cell is smaller, 'v' says it is larger, ' ' says nothing. hs[v][c] sits
 * between (v, c) and (v, c + 1): '<' says the left cell is smaller, '>' that
 * it is larger, ' ' nothing.
 */
module Layouts {

  datatype Layout = Layout(size: nat, vs: seq<seq<char>>, hs: seq<seq<char>>)

  /** The four counters of a cell, indexed as in the source's table. */
  const VertGreater := 0   // neighbours above/below that the cell must exceed
  const VertLess := 1      // neighbours above/below that must exceed the cell
  const HorzGreater := 2   // neighbours left/right that the cell must exceed
  const HorzLess := 3      // neighbours left/right that must exceed the cell

  predicate VSlot(c: char) { c == '^' || c == 'v' || c == ' ' }
  predicate HSlot(c: char) { c == '<' || c == '>' || c == ' ' }

  /** Slot tables of the right shape holding only the admitted characters. */
  ghost predicate Valid(l: Layout) {
    l.size >= 1 &&
    |l.vs| == l.size - 1 && |l.hs| == l.size &&
    (forall r :: 0 <= r < l.size - 1 ==> |l.vs[r]| == l.size && forall h :: 0 <= h < l.size ==> VSlot(l.vs[r][h])) &&
    (forall v :: 0 <= v < l.size ==> |l.hs[v]| == l.size - 1 && forall c :: 0 <= c < l.size - 1 ==> HSlot(l.hs[v][c]))
  }

  /** The cell (a, b) must hold a smaller value than the adjacent cell (a2, b2). */
  ghost predicate Smaller(l: Layout, a: int, b: int, a2: int, b2: int)
    requires Valid(l)
  {
    0 <= a < l.size && 0 <= b < l.size && 0 <= a2 < l.size && 0 <= b2 < l.size &&
    ((a2 == a + 1 && b2 == b && l.vs[a][b] == '^') ||
     (a2 == a - 1 && b2 == b && l.vs[a2][b] == 'v') ||
     (a2 == a && b2 == b + 1 && l.hs[a][b] == '<') ||
     (a2 == a && b2 == b - 1 && l.hs[a][b2] == '>'))
  }

  function Ind(b: bool): nat { if b then 1 else 0 }

  /**
   * Counter c of cell (v, h): how many of its vertical (c = 0, 1) or
   * horizontal (c = 2, 3) neighbours it must exceed (c even) or stay
   * below (c odd).
   */
  ghost function Counter(l: Layout, v: int, h: int, c: int): nat
    requires Valid(l) && 0 <= v < l.size && 0 <= h < l.size
  {
    if c == VertGreater then Ind(Smaller(l, v - 1, h, v, h)) + Ind(Smaller(l, v + 1, h, v, h))
    else if c == VertLess then Ind(Smaller(l, v, h, v - 1, h)) + Ind(Smaller(l, v, h, v + 1, h))
    else if c == HorzGreater then Ind(Smaller(l, v, h - 1, v, h)) + Ind(Smaller(l, v, h + 1, v, h))
    else if c == HorzLess then Ind(Smaller(l, v, h, v, h - 1)) + Ind(Smaller(l, v, h, v, h + 1))
    else 0
  }

  /**
   * The counters read off the slot characters next to the cell: a '^' above
   * or a 'v' below makes the cell exceed that neighbour, a '<' to the left or
   * a '>' to the right likewise, and the reverse characters the reverse.
   */
  lemma CounterSlots(l: Layout, v: int, h: int)
    requires Valid(l) && 0 <= v < l.size && 0 <= h < l.size
    ensures Counter(l, v, h, VertGreater) == Ind(v > 0 && l.vs[v - 1][h] == '^') + Ind(v < l.size - 1 && l.vs[v][h] == 'v')
    ensures Counter(l, v, h, VertLess) == Ind(v > 0 && l.vs[v - 1][h] == 'v') + Ind(v < l.size - 1 && l.vs[v][h] == '^')
    ensures Counter(l, v, h, HorzGreater) == Ind(h > 0 && l.hs[v][h - 1] == '<') + Ind(h < l.size - 1 && l.hs[v][h] == '>')
    ensures Counter(l, v, h, HorzLess) == Ind(h > 0 && l.hs[v][h - 1] == '>') + Ind(h < l.size - 1 && l.hs[v][h] == '<')
  {
  }

  /** The four counters of cell (v, h). */
  ghost function Counts(l: Layout, v: int, h: int): (k: seq<nat>)
    requires Valid(l) && 0 <= v < l.size && 0 <= h < l.size
    ensures |k| == 4
  {
    [Counter(l, v, h, 0), Counter(l, v, h, 1), Counter(l, v, h, 2), Counter(l, v, h, 3)]
  }

  /** A counter table: t[v][h] holds the four counters of cell (v, h). */
  type Counters = seq<seq<seq<nat>>>

  /** t has a row per grid row, an entry per cell of the row and four counters per cell. */
  ghost predicate Tabled(t: Counters, s: nat) {
    |t| == s && forall v :: 0 <= v < s ==> |t[v]| == s && forall h :: 0 <= h < s ==> |t[v][h]| == 4
  }

  /** The counter table the slots of l determine. */
  ghost function CountersOf(l: Layout): (t: Counters)
    requires Valid(l)
    ensures Tabled(t, l.size)
    ensures forall v, h, c :: 0 <= v < l.size && 0 <= h < l.size && 0 <= c < 4 ==> t[v][h][c] == Counter(l, v, h, c)
  {
    seq(l.size, v requires 0 <= v < l.size => seq(l.size, h requires 0 <= h < l.size => Counts(l, v, h)))
  }

  /**
   * A neighbour is never both smaller and larger, so the two vertical
   * counters together are at most the number of vertical neighbours, the
   * two horizontal ones at most the number of horizontal neighbours, and
   * every counter is below the size.
   */
  lemma CounterBound(l: Layout, v: int, h: int)
    requires Valid(l) && 0 <= v < l.size && 0 <= h < l.size
    ensures Counter(l, v, h, VertGreater) + Counter(l, v, h, VertLess) <= Ind(v > 0) + Ind(v < l.size - 1)
    ensures Counter(l, v, h, HorzGreater) + Counter(l, v, h, HorzLess) <= Ind(h > 0) + Ind(h < l.size - 1)
    ensures forall c :: 0 <= c < 4 ==> Counter(l, v, h, c) < l.size
  {
  }

  /** Every cell (v, h) holds one value of 1..size, each row and column holding each value once. */
  ghost predicate Latin(s: nat, sol: seq<seq<int>>) {
    |sol| == s &&
    (forall v :: 0 <= v < s ==> |sol[v]| == s) &&
    (forall v, h :: 0 <= v < s && 0 <= h < s ==> 1 <= sol[v][h] <= s) &&
    (forall v, h1, h2 :: 0 <= v < s && 0 <= h1 < h2 < s ==> sol[v][h1] != sol[v][h2]) &&
    (forall v1, v2, h :: 0 <= v1 < v2 < s && 0 <= h < s ==> sol[v1][h] != sol[v2][h]) &&
    (forall v, n :: 0 <= v < s && 1 <= n <= s ==> RowHas(sol, v, n)) &&
    (forall h, n :: 0 <= h < s && 1 <= n <= s ==> ColumnHas(sol, h, n))
  }

  ghost predicate RowHas(sol: seq<seq<int>>, v: int, n: int)
    requires 0 <= v < |sol|
  {
    exists h :: 0 <= h < |sol[v]| && sol[v][h] == n
  }

  ghost predicate ColumnHas(sol: seq<seq<int>>, h: int, n: int) {
    exists v :: 0 <= v < |sol| && 0 <= h < |sol[v]| && sol[v][h] == n
  }

  /** sol is a solution of the puzzle's inequalities: a Latin square respecting every '<', '>', '^', 'v'. */
  ghost predicate Solution(l: Layout, sol: seq<seq<int>>)
    requires Valid(l)
  {
    Latin(l.size, sol) &&
    forall a, b, a2, b2 :: Smaller(l, a, b, a2, b2) ==> sol[a][b] < sol[a2][b2]
  }

  /**
   * A cell of a solution lies above its "greater" counters and below
   * size minus its "less" counters: the neighbours on one axis lie in one
   * row or column, so they hold distinct values.
   */
  lemma {:induction false} SolutionWithinCounters(l: Layout, sol: seq<seq<int>>, v: int, h: int)
    requires Valid(l) && Solution(l, sol) && 0 <= v < l.size && 0 <= h < l.size
    ensures Counter(l, v, h, VertGreater) < sol[v][h]
    ensures Counter(l, v, h, HorzGreater) < sol[v][h]
    ensures sol[v][h] <= l.size - Counter(l, v, h, VertLess)
    ensures sol[v][h] <= l.size - Counter(l, v, h, HorzLess)
  {
    if Smaller(l, v - 1, h, v, h) && Smaller(l, v + 1, h, v, h) {
      assert sol[v - 1][h] != sol[v + 1][h];
    }
    if Smaller(l, v, h, v - 1, h) && Smaller(l, v, h, v + 1, h) {
      assert sol[v - 1][h] != sol[v + 1][h];
    }
    if Smaller(l, v, h - 1, v, h) && Smaller(l, v, h + 1, v, h) {
      assert sol[v][h - 1] != sol[v][h + 1];
    }
    if Smaller(l, v, h, v, h - 1) && Smaller(l, v, h, v, h + 1) {
      assert sol[v][h - 1] != sol[v][h + 1];
    }
  }
}
