/**
 * The Futoshiki grid object: a candidate table updated in place by
 * propagation, with the constraint tables it was parsed from.
 *
 * Every method that changes the candidate table is specified by the value
 * it gives the abstract grid `Grid()`, as a function (from module
 * Propagation) of the grid it found.
 */
module Puzzle {
  import opened Results
  import opened Candidates
  import opened Layouts
  import opened Propagation
  import opened Parsing

  /** SetValue was asked to fix (v, h) to a value already forbidden there. */
  datatype Conflict = Conflict(v: nat, h: nat, n: nat)

  class Futoshiki {
    const size: nat
    /** forbidden[v, h, n] is true when the value n + 1 is ruled out at (v, h). */
    const forbidden: array3<bool>
    /** vConstraints[r, h] relates (r, h) and (r + 1, h): '^', 'v' or ' '. */
    const vConstraints: array2<char>
    /** hConstraints[v, c] relates (v, c) and (v, c + 1): '<', '>' or ' '. */
    const hConstraints: array2<char>
    /** constraints[v, h, c]: the four counters of (v, h), indexed as in Layouts. */
    const constraints: array3<nat>

    /** The tables have the dimensions the size calls for. */
    ghost predicate Sized() {
      size >= 1 &&
      forbidden.Length0 == size && forbidden.Length1 == size && forbidden.Length2 == size &&
      vConstraints.Length0 == size - 1 && vConstraints.Length1 == size &&
      hConstraints.Length0 == size && hConstraints.Length1 == size - 1 &&
      constraints.Length0 == size && constraints.Length1 == size && constraints.Length2 == 4
    }

    /** The forbidden bits of cell (v, h) as a value. */
    ghost function Cell(v: nat, h: nat): (bits: Bits)
      reads forbidden
      requires Sized() && v < size && h < size
      ensures |bits| == size
      ensures forall n :: 0 <= n < size ==> bits[n] == forbidden[v, h, n]
    {
      seq(size, n requires 0 <= n < size reads forbidden => forbidden[v, h, n])
    }

    /** The candidate table as a value. */
    ghost function Grid(): (g: Cells)
      reads forbidden
      requires Sized()
      ensures Shaped(g, size)
    {
      GridRows(size)
    }

    /** The cells of the first n rows. */
    ghost function GridRows(n: nat): (g: Cells)
      reads forbidden
      requires Sized() && n <= size
      ensures |g| == n
      ensures forall v :: 0 <= v < n ==> |g[v]| == size && forall h :: 0 <= h < size ==> |g[v][h]| == size
      decreases n
    {
      if n == 0 then [] else GridRows(n - 1) + [RowCells(n - 1, size)]
    }

    /** The first m cells of row v. */
    ghost function RowCells(v: nat, m: nat): (r: seq<Bits>)
      reads forbidden
      requires Sized() && v < size && m <= size
      ensures |r| == m && forall h :: 0 <= h < m ==> |r[h]| == size
      decreases m
    {
      if m == 0 then [] else RowCells(v, m - 1) + [Cell(v, m - 1)]
    }

    /** The first m cells of row v are the cells of the array. */
    lemma {:induction false} RowCellsAre(v: nat, m: nat)
      requires Sized() && v < size && m <= size
      ensures forall h :: 0 <= h < m ==> RowCells(v, m)[h] == Cell(v, h)
      decreases m
    {
      if m > 0 {
        RowCellsAre(v, m - 1);
      }
    }

    /** The first n rows are the rows of the array. */
    lemma {:induction false} GridRowsAre(n: nat)
      requires Sized() && n <= size
      ensures forall v, h :: 0 <= v < n && 0 <= h < size ==> GridRows(n)[v][h] == Cell(v, h)
      decreases n
    {
      if n > 0 {
        GridRowsAre(n - 1);
        RowCellsAre(n - 1, size);
      }
    }

    /** The grid view holds the cells of the array. */
    lemma GridCells()
      requires Sized()
      ensures forall v, h :: 0 <= v < size && 0 <= h < size ==> Grid()[v][h] == Cell(v, h)
    {
      GridRowsAre(size);
    }

    /** The grid view holds the bits of the array. */
    lemma GridBits()
      requires Sized()
      ensures forall v, h, n :: 0 <= v < size && 0 <= h < size && 0 <= n < size ==> Grid()[v][h][n] == forbidden[v, h, n]
    {
      GridCells();
    }

    /** The two slot tables as a value. */
    ghost function Slots(): (l: Layout)
      reads vConstraints, hConstraints
      requires Sized()
      ensures l.size == size && |l.vs| == size - 1 && |l.hs| == size
      ensures forall r, h :: 0 <= r < size - 1 && 0 <= h < size ==> |l.vs[r]| == size && l.vs[r][h] == vConstraints[r, h]
      ensures forall v, c :: 0 <= v < size && 0 <= c < size - 1 ==> |l.hs[v]| == size - 1 && l.hs[v][c] == hConstraints[v, c]
    {
      Layout(size,
        seq(size - 1, r requires 0 <= r < size - 1 reads vConstraints =>
          seq(size, h requires 0 <= h < size reads vConstraints => vConstraints[r, h])),
        seq(size, v requires 0 <= v < size reads hConstraints =>
          seq(size - 1, c requires 0 <= c < size - 1 reads hConstraints => hConstraints[v, c])))
    }

    /** The slots hold admitted characters and the counters are the ones they determine. */
    ghost predicate Valid()
      reads vConstraints, hConstraints, constraints
    {
      Sized() && CountedFrom(Slots())
    }

    /** The counters are the ones the slots of l determine. */
    ghost predicate CountedFrom(l: Layout)
      reads constraints
      requires Sized()
    {
      Layouts.Valid(l) && l.size == size &&
      forall v, h, c :: 0 <= v < size && 0 <= h < size && 0 <= c < 4 ==>
        constraints[v, h, c] == Counter(l, v, h, c)
    }

    /** A grid of the given size with every value allowed everywhere and every counter zero. */
    constructor (size: nat)
      requires size >= 1
      ensures this.size == size && Sized()
      ensures fresh(forbidden) && fresh(vConstraints) && fresh(hConstraints) && fresh(constraints)
      ensures forall v, h, n :: 0 <= v < size && 0 <= h < size && 0 <= n < size ==> !forbidden[v, h, n]
      ensures forall v, h, c :: 0 <= v < size && 0 <= h < size && 0 <= c < 4 ==> constraints[v, h, c] == 0
      ensures forall r, h :: 0 <= r < size - 1 && 0 <= h < size ==> vConstraints[r, h] == '\0'
      ensures forall v, c :: 0 <= v < size && 0 <= c < size - 1 ==> hConstraints[v, c] == '\0'
    {
      this.size := size;
      forbidden := new bool[size, size, size]((_, _, _) => false);
      vConstraints := new char[size - 1, size]((_, _) => '\0');
      hConstraints := new char[size, size - 1]((_, _) => '\0');
      constraints := new nat[size, size, 4]((_, _, _) => 0);
    }

    /**
     * Reads a puzzle text. The text is cut at every '\n'; an even number of
     * lines is refused, and the lines are then read in order, the first
     * offending line deciding the error: a line not as long as the text has
     * lines, then a bad cell, a bad horizontal slot, a bad vertical slot or a
     * bad separator. Every digit fixes its cell, every slot character is
     * copied into its table, and the counters are built from the slots.
     */
    static method Parse(input: string) returns (r: Result<Futoshiki, ParseError>)
      ensures InputError(Split(input)) == if r.Ok? then None else Some(r.error)
      ensures r.Ok? ==> WellFormed(Split(input)) && r.value.Valid() && r.value.size == SizeOf(Split(input))
      ensures r.Ok? ==> r.value.Grid() == HintsOf(Split(input)) && r.value.Slots() == SlotsOf(Split(input))
    {
      var ss := Split(input);
      if |ss| % 2 == 0 {
        return Err(EvenLineCount);
      }
      var size := |ss| / 2 + 1;
      var p := new Futoshiki(size);
      p.NothingLoaded(ss);
      var e := p.ReadLines(ss);
      if e.Some? {
        return Err(e.value);
      }
      InputErrorIff(ss);
      p.Finish(ss);
      r := Ok(p);
    }

    /** A fresh table has read nothing. */
    lemma NothingLoaded(ss: seq<string>)
      requires Sized()
      requires forall v, h, n :: 0 <= v < size && 0 <= h < size && 0 <= n < size ==> !forbidden[v, h, n]
      ensures Grid() == Loaded(ss, size, 0, 0)
    {
      GridBits();
      LoadedNothing(ss, size);
      SameCells(Grid(), Loaded(ss, size, 0, 0), size);
    }

    /**
     * Reads the lines in order, stopping at the first that is refused; the
     * error is the one LinesError names.
     */
    method ReadLines(ss: seq<string>) returns (e: Option<ParseError>)
      requires Sized() && |ss| == 2 * size - 1
      requires Grid() == Loaded(ss, size, 0, 0) && SlotsRead(ss, 0)
      modifies forbidden, vConstraints, hConstraints
      ensures e == LinesError(ss, 0)
      ensures e == None ==> Grid() == Loaded(ss, size, size, 0) && SlotsRead(ss, |ss|)
    {
      for v := 0 to |ss|
        invariant LinesError(ss, 0) == LinesError(ss, v)
        invariant Grid() == Loaded(ss, size, (v + 1) / 2, 0)
        invariant SlotsRead(ss, v)
      {
        e := ReadLine(ss, v);
        if e.Some? {
          return;
        }
      }
      e := None;
    }

    /**
     * Once every line of a well-formed text is read, the candidates are its
     * hints and the slots its slots; the counters are then built from them.
     */
    method Finish(ss: seq<string>)
      requires Sized() && WellFormed(ss) && size == SizeOf(ss)
      requires Grid() == Loaded(ss, size, size, 0) && SlotsRead(ss, |ss|)
      requires forall a, b, c :: 0 <= a < size && 0 <= b < size && 0 <= c < 4 ==> constraints[a, b, c] == 0
      modifies constraints
      ensures Valid() && Grid() == HintsOf(ss) && Slots() == SlotsOf(ss)
    {
      LoadedAll(ss);
      ReadAll(ss, Slots());
      BuildCounters();
    }

    /** The slot tables hold the slot characters of the first `lines` lines of ss, and '\0' elsewhere. */
    ghost predicate SlotsRead(ss: seq<string>, lines: nat)
      reads vConstraints, hConstraints
      requires Sized()
    {
      (forall r, h :: 0 <= r < size - 1 && 0 <= h < size ==> vConstraints[r, h] == ReadChar(ss, lines, 2 * r + 1, 2 * h)) &&
      (forall v, c :: 0 <= v < size && 0 <= c < size - 1 ==> hConstraints[v, c] == ReadChar(ss, lines, 2 * v, 2 * c + 1))
    }

    /**
     * Reads line v: a line not as long as the text has lines is refused,
     * otherwise it is read as a cell line or a slot line as its parity says.
     */
    method ReadLine(ss: seq<string>, v: nat) returns (e: Option<ParseError>)
      requires Sized() && |ss| == 2 * size - 1 && v < |ss|
      requires Grid() == Loaded(ss, size, (v + 1) / 2, 0) && SlotsRead(ss, v)
      modifies forbidden, vConstraints, hConstraints
      ensures e == if |ss[v]| != |ss| then Some(NotSquare)
                   else if v % 2 == 0 then CellLineError(ss[v], size) else SlotLineError(ss[v])
      ensures e == None ==> Grid() == Loaded(ss, size, (v + 2) / 2, 0) && SlotsRead(ss, v + 1)
    {
      if |ss[v]| != |ss| {
        return Some(NotSquare);
      }
      if v % 2 == 0 {
        e := ReadCells(ss, v);
        if e == None {
          e := ReadHorizontalSlots(ss, v);
        }
      } else {
        e := ReadSlotLine(ss, v);
      }
    }

    /**
     * Reads the cells of cell line v, fixing each digit's cell; the error is
     * that of the first bad cell.
     */
    method ReadCells(ss: seq<string>, v: nat) returns (e: Option<ParseError>)
      requires Sized() && |ss| == 2 * size - 1 && v < |ss| && v % 2 == 0 && |ss[v]| == |ss|
      requires Grid() == Loaded(ss, size, v / 2, 0)
      modifies forbidden
      ensures e == None <==> forall x :: 0 <= x < |ss[v]| && x % 2 == 0 ==> IsCellChar(ss[v][x], size)
      ensures e != None ==> e == Some(BadCell)
      ensures e == None ==> Grid() == Loaded(ss, size, v / 2 + 1, 0)
    {
      var line := ss[v];
      for b := 0 to size
        invariant forall x :: 0 <= x < 2 * b && x % 2 == 0 ==> IsCellChar(line[x], size)
        invariant Grid() == Loaded(ss, size, v / 2, b)
      {
        var ok := ReadCell(ss, v, b);
        if !ok {
          return Some(BadCell);
        }
      }
      LoadedRow(ss, size, v / 2);
      e := None;
    }

    /**
     * Reads cell b of cell line v: a '?' leaves the cell alone, a digit from
     * 1 to size fixes the cell to it, anything else is refused.
     */
    method ReadCell(ss: seq<string>, v: nat, b: nat) returns (ok: bool)
      requires Sized() && |ss| == 2 * size - 1 && v < |ss| && v % 2 == 0 && |ss[v]| == |ss| && b < size
      requires Grid() == Loaded(ss, size, v / 2, b)
      modifies forbidden
      ensures ok <==> IsCellChar(ss[v][2 * b], size)
      ensures ok ==> Grid() == Loaded(ss, size, v / 2, b + 1)
    {
      var ch := ss[v][2 * b];
      LoadedCell(ss, size, v / 2, b);
      if ch == '?' {
        return true;
      }
      if !('0' <= ch <= '9') || Digit(ch) > size || Digit(ch) <= 0 {
        return false;
      }
      SetHint(v / 2, b, Digit(ch), Loaded(ss, size, v / 2, b));
      ok := true;
    }

    /**
     * Fixes the hinted cell (v, h), which allows every value, to its digit n
     * (the source ignores what SetValue returns here).
     */
    method SetHint(v: nat, h: nat, n: nat, ghost g: Cells)
      requires Sized() && v < size && h < size && 1 <= n <= size
      requires Grid() == g && forall j :: 0 <= j < size ==> !g[v][h][j]
      modifies forbidden
      ensures Grid() == Fix(g, v, h, n)
    {
      GridBits();
      var _ := SetValue(v, h, n);
    }

    /**
     * Reads the horizontal slots of cell line v, copying each into its
     * table; the error is that of the first bad slot.
     */
    method ReadHorizontalSlots(ss: seq<string>, v: nat) returns (e: Option<ParseError>)
      requires Sized() && |ss| == 2 * size - 1 && v < |ss| && v % 2 == 0 && |ss[v]| == |ss|
      requires SlotsRead(ss, v)
      modifies hConstraints
      ensures e == None <==> forall x :: 0 <= x < |ss[v]| && x % 2 == 1 ==> HSlot(ss[v][x])
      ensures e != None ==> e == Some(BadHorizontal)
      ensures e == None ==> SlotsRead(ss, v + 1)
    {
      var line := ss[v];
      for c := 0 to size - 1
        invariant forall x :: 0 <= x < 2 * c + 1 && x % 2 == 1 ==> HSlot(line[x])
        invariant forall a, d :: 0 <= a < size && 0 <= d < size - 1 ==>
          hConstraints[a, d] == if a == v / 2 && d < c then line[2 * d + 1] else old(hConstraints[a, d])
      {
        var ch := line[2 * c + 1];
        if !HSlot(ch) {
          assert !HSlot(line[2 * c + 1]);
          return Some(BadHorizontal);
        }
        hConstraints[v / 2, c] := ch;
      }
      e := None;
    }

    /**
     * Reads slot line v: first every vertical slot, copying it into its
     * table, then every separator. The error is the line's own: a bad slot
     * anywhere before a bad separator.
     */
    method ReadSlotLine(ss: seq<string>, v: nat) returns (e: Option<ParseError>)
      requires Sized() && |ss| == 2 * size - 1 && v < |ss| && v % 2 == 1 && |ss[v]| == |ss|
      requires SlotsRead(ss, v)
      modifies vConstraints
      ensures e == SlotLineError(ss[v])
      ensures e == None ==> SlotsRead(ss, v + 1)
    {
      var line := ss[v];
      for b := 0 to size
        invariant forall x :: 0 <= x < 2 * b && x % 2 == 0 ==> VSlot(line[x])
        invariant forall r, h :: 0 <= r < size - 1 && 0 <= h < size ==>
          vConstraints[r, h] == if r == v / 2 && h < b then line[2 * h] else old(vConstraints[r, h])
      {
        var ch := line[2 * b];
        if !VSlot(ch) {
          assert !VSlot(line[2 * b]);
          return Some(BadVertical);
        }
        vConstraints[v / 2, b] := ch;
      }
      for c := 0 to size - 1
        invariant forall x :: 0 <= x < 2 * c + 1 && x % 2 == 1 ==> line[x] == ' '
      {
        if line[2 * c + 1] != ' ' {
          return Some(BadSeparator);
        }
      }
      e := None;
    }

    /**
     * Fills the counter table from the slot tables, cell by cell: each
     * non-space slot next to a cell adds one to the counter saying on which
     * side of that neighbour the cell's value lies (the vertical slots in
     * CountVertical, the horizontal ones in CountHorizontal).
     */
    method BuildCounters()
      requires Sized() && Layouts.Valid(Slots())
      requires forall v, h, c :: 0 <= v < size && 0 <= h < size && 0 <= c < 4 ==> constraints[v, h, c] == 0
      modifies constraints
      ensures Valid()
    {
      ghost var l := Slots();
      for v := 0 to size
        invariant CountedBelow(l, v, 0)
      {
        for h := 0 to size
          invariant CountedBelow(l, v, h)
        {
          CountCell(v, h, l);
        }
        NextRow(l, v);
      }
    }

    /**
     * The counters of the cells before (v, h) in row-major order are the
     * ones the slots of l determine, the others are still zero.
     */
    ghost predicate CountedBelow(l: Layout, v: nat, h: nat)
      reads vConstraints, hConstraints, constraints
    {
      Sized() && l == Slots() && Layouts.Valid(l) &&
      forall a, b, c :: 0 <= a < size && 0 <= b < size && 0 <= c < 4 ==>
        constraints[a, b, c] == if a < v || (a == v && b < h) then Counter(l, a, b, c) else 0
    }

    /** A row whose every cell is counted hands over to the next row. */
    lemma NextRow(l: Layout, v: nat)
      requires CountedBelow(l, v, size)
      ensures CountedBelow(l, v + 1, 0)
    {
    }

    /** The counters of (v, h) are set from its slots; nothing else changes. */
    method CountCell(v: nat, h: nat, ghost l: Layout)
      requires CountedBelow(l, v, h) && v < size && h < size
      modifies constraints
      ensures CountedBelow(l, v, h + 1)
    {
      CountVertical(v, h, l);
      CountHorizontal(v, h, l);
    }

    /**
     * The vertical slots of (v, h): a '^' above or a 'v' below adds one to
     * its VertGreater counter, a 'v' above or a '^' below to its VertLess
     * counter. Nothing else changes.
     */
    method CountVertical(v: nat, h: nat, ghost l: Layout)
      requires Sized() && l == Slots() && Layouts.Valid(l) && v < size && h < size
      requires constraints[v, h, VertGreater] == 0 && constraints[v, h, VertLess] == 0
      modifies constraints
      ensures constraints[v, h, VertGreater] == Counter(l, v, h, VertGreater)
      ensures constraints[v, h, VertLess] == Counter(l, v, h, VertLess)
      ensures forall a, b, c :: 0 <= a < size && 0 <= b < size && 0 <= c < 4 && !(a == v && b == h && c < 2) ==>
        constraints[a, b, c] == old(constraints[a, b, c])
    {
      CounterSlots(l, v, h);
      if v > 0 && vConstraints[v - 1, h] != ' ' {
        var c := if vConstraints[v - 1, h] == '^' then 0 else 1;
        constraints[v, h, c] := constraints[v, h, c] + 1;
      }
      if v < size - 1 && vConstraints[v, h] != ' ' {
        var c := if vConstraints[v, h] == '^' then 1 else 0;
        constraints[v, h, c] := constraints[v, h, c] + 1;
      }
    }

    /**
     * The horizontal slots of (v, h): a '<' to the left or a '>' to the
     * right adds one to its HorzGreater counter, a '>' to the left or a '<'
     * to the right to its HorzLess counter. Nothing else changes.
     */
    method CountHorizontal(v: nat, h: nat, ghost l: Layout)
      requires Sized() && l == Slots() && Layouts.Valid(l) && v < size && h < size
      requires constraints[v, h, HorzGreater] == 0 && constraints[v, h, HorzLess] == 0
      modifies constraints
      ensures constraints[v, h, HorzGreater] == Counter(l, v, h, HorzGreater)
      ensures constraints[v, h, HorzLess] == Counter(l, v, h, HorzLess)
      ensures forall a, b, c :: 0 <= a < size && 0 <= b < size && 0 <= c < 4 && !(a == v && b == h && c >= 2) ==>
        constraints[a, b, c] == old(constraints[a, b, c])
    {
      CounterSlots(l, v, h);
      if h > 0 && hConstraints[v, h - 1] != ' ' {
        var c := if hConstraints[v, h - 1] == '<' then 2 else 3;
        constraints[v, h, c] := constraints[v, h, c] + 1;
      }
      if h < size - 1 && hConstraints[v, h] != ' ' {
        var c := if hConstraints[v, h] == '<' then 3 else 2;
        constraints[v, h, c] := constraints[v, h, c] + 1;
      }
    }

    /**
     * Fixes (v, h) to the value n by forbidding every other value there.
     * Refuses, changing nothing, when n itself is already forbidden; otherwise
     * reports whether any bit changed.
     */
    method SetValue(v: nat, h: nat, n: nat) returns (r: Result<bool, Conflict>)
      requires Sized() && v < size && h < size && 1 <= n <= size
      modifies forbidden
      ensures old(forbidden[v, h, n - 1]) ==> r == Err(Conflict(v, h, n)) && Grid() == old(Grid())
      ensures !old(forbidden[v, h, n - 1]) ==>
        r.Ok? && Grid() == Fix(old(Grid()), v, h, n) && (r.value <==> Grid() != old(Grid()))
    {
      if forbidden[v, h, n - 1] {
        return Err(Conflict(v, h, n));
      }
      ghost var g0 := Grid();
      GridBits();
      ghost var w := 0;
      var didSomething := false;
      for i := 1 to size + 1
        invariant forall a, b, j :: 0 <= a < size && 0 <= b < size && 0 <= j < size && !(a == v && b == h) ==>
          forbidden[a, b, j] == g0[a][b][j]
        invariant forall j :: 0 <= j < size ==> forbidden[v, h, j] == (g0[v][h][j] || (j < i - 1 && j != n - 1))
        invariant didSomething ==> 0 <= w < size && forbidden[v, h, w] && !g0[v][h][w]
        invariant !didSomething ==> forall j :: 0 <= j < i - 1 && j != n - 1 ==> g0[v][h][j]
      {
        if i != n && !forbidden[v, h, i - 1] {
          forbidden[v, h, i - 1] := true;
          didSomething := true;
          w := i - 1;
        }
      }
      GridBits();
      SameCells(Grid(), Fix(g0, v, h, n), size);
      if didSomething {
        assert Grid()[v][h][w] != g0[v][h][w];
      } else {
        SameCells(Grid(), g0, size);
      }
      r := Ok(didSomething);
    }

    /** The value (v, h) is determined to, or 0 when it has no candidate or several. */
    method GetValue(v: nat, h: nat) returns (value: nat)
      requires Sized() && v < size && h < size
      ensures value == Value(Cell(v, h))
    {
      ghost var bits := Cell(v, h);
      value := 0;
      for i := 1 to size + 1
        invariant FreeCount(bits[..i - 1]) <= 1
        invariant value == Value(bits[..i - 1])
      {
        assert bits[..i][..i - 1] == bits[..i - 1];
        if !forbidden[v, h, i - 1] {
          if value > 0 {
            FreeCountPrefix(bits, i);
            return 0;
          }
          value := i;
        }
      }
      assert bits[..size] == bits;
    }

    /**
     * Stage 1 of a step: forbids at (v, h) the values its counters rule out.
     * k is the value of the four counters of (v, h).
     */
    method PruneAt(v: nat, h: nat, ghost k: seq<nat>) returns (didSomething: bool)
      requires Sized() && v < size && h < size
      requires |k| == 4 && forall c :: 0 <= c < 4 ==> constraints[v, h, c] == k[c] < size
      modifies forbidden
      ensures Grid() == Prune(old(Grid()), k, v, h)
      ensures didSomething <==> Grid() != old(Grid())
    {
      ghost var g0 := Grid();
      GridBits();
      didSomething := false;
      for c := 0 to 4
        invariant forall a, b, j :: 0 <= a < size && 0 <= b < size && 0 <= j < size && !(a == v && b == h) ==>
          forbidden[a, b, j] == g0[a][b][j]
        invariant forall j :: 0 <= j < size ==> forbidden[v, h, j] == (g0[v][h][j] || PrunedBy(k, size, c, j))
        invariant didSomething <==> exists j :: 0 <= j < size && forbidden[v, h, j] != g0[v][h][j]
      {
        var changed := PruneBy(v, h, c);
        didSomething := didSomething || changed;
      }
      PruneBits(g0, k, v, h);
      GridBits();
      SameCells(Grid(), Prune(g0, k, v, h), size);
      if !didSomething {
        SameCells(Grid(), g0, size);
      }
    }

    /**
     * Applies counter c of (v, h): a "greater" counter (c even) forbids its
     * count of smallest values, a "less" counter its count of largest
     * values. Only (v, h) changes; reports whether a bit flipped.
     */
    method PruneBy(v: nat, h: nat, c: nat) returns (didSomething: bool)
      requires Sized() && v < size && h < size && c < 4 && 0 <= constraints[v, h, c] < size
      modifies forbidden
      ensures forall a, b, j :: 0 <= a < size && 0 <= b < size && 0 <= j < size && !(a == v && b == h) ==>
        forbidden[a, b, j] == old(forbidden[a, b, j])
      ensures forall j :: 0 <= j < size ==>
        forbidden[v, h, j] == (old(forbidden[v, h, j]) || if c % 2 == 0 then j < constraints[v, h, c] else size - constraints[v, h, c] <= j)
      ensures didSomething <==> exists j :: 0 <= j < size && forbidden[v, h, j] != old(forbidden[v, h, j])
    {
      ghost var w := 0;
      didSomething := false;
      for i := 0 to constraints[v, h, c]
        invariant forall a, b, j :: 0 <= a < size && 0 <= b < size && 0 <= j < size && !(a == v && b == h) ==>
          forbidden[a, b, j] == old(forbidden[a, b, j])
        invariant forall j :: 0 <= j < size ==>
          forbidden[v, h, j] == (old(forbidden[v, h, j]) || if c % 2 == 0 then j < i else size - i <= j)
        invariant didSomething ==> 0 <= w < size && forbidden[v, h, w] && !old(forbidden[v, h, w])
        invariant !didSomething ==> forall j :: 0 <= j < size ==> forbidden[v, h, j] == old(forbidden[v, h, j])
      {
        if !forbidden[v, h, if c % 2 != 0 then size - 1 - i else i] {
          forbidden[v, h, if c % 2 != 0 then size - 1 - i else i] := true;
          didSomething := true;
          w := if c % 2 != 0 then size - 1 - i else i;
        }
      }
    }

    /**
     * Stage 2 of a step: every other cell of row v and of column h that is
     * determined gets its own value forbidden.
     */
    method EliminateAround(v: nat, h: nat) returns (didSomething: bool)
      requires Sized() && v < size && h < size
      modifies forbidden
      ensures Grid() == Eliminate(old(Grid()), v, h)
      ensures didSomething <==> Grid() != old(Grid())
    {
      ghost var g := Grid();
      didSomething := false;
      for i := 0 to size
        invariant Grid() == EliminateRounds(g, v, h, i)
        invariant didSomething == PeersDetermined(g, v, h, i)
      {
        var changed := EliminateRound(v, h, i, g);
        didSomething := didSomething || changed;
      }
      EliminateChanges(g, v, h);
    }

    /**
     * Round i of the elimination loop: the peer (i, h) of column h and the
     * peer (v, i) of row v each lose their own value if they are determined;
     * changed tells whether either did.
     */
    method EliminateRound(v: nat, h: nat, i: nat, ghost g: Cells) returns (changed: bool)
      requires Sized() && Shaped(g, size) && v < size && h < size && i < size
      requires Grid() == EliminateRounds(g, v, h, i)
      modifies forbidden
      ensures Grid() == EliminateRounds(g, v, h, i + 1)
      ensures changed <==> (i != v && Value(g[i][h]) > 0) || (i != h && Value(g[v][i]) > 0)
    {
      EliminateRoundsReads(g, v, h, i);
      GridCells();
      var nv := GetValue(i, h);
      var nh := GetValue(v, i);
      changed := false;
      if i != v {
        changed := DropValue(i, h, nv, g);
      }
      if i != h {
        GridCells();
        var rowChanged := DropValue(v, i, nh, g);
        changed := changed || rowChanged;
      }
    }

    /**
     * One of the two conditional writes of an elimination round: when n, the
     * value (a, b) is determined to in g, is not 0 and not yet forbidden
     * there, it is forbidden.
     */
    method DropValue(a: nat, b: nat, n: nat, ghost g: Cells) returns (changed: bool)
      requires Sized() && Shaped(g, size) && a < size && b < size
      requires Cell(a, b) == g[a][b] && n == Value(g[a][b])
      modifies forbidden
      ensures Grid() == ForbidOwn(old(Grid()), g, a, b)
      ensures changed <==> n > 0
    {
      changed := false;
      if n != 0 {
        ValueAllowed(g[a][b]);
      }
      if n != 0 && !forbidden[a, b, n - 1] {
        Forbid(a, b, n - 1);
        changed := true;
      }
    }

    /** Forbids the value index n at (a, b), leaving every other bit as it is. */
    method Forbid(a: nat, b: nat, n: nat)
      requires Sized() && a < size && b < size && n < size
      modifies forbidden
      ensures Grid() == ForbidBit(old(Grid()), a, b, n)
    {
      ghost var g := Grid();
      GridBits();
      forbidden[a, b, n] := true;
      GridBits();
      ForbidBitBits(g, a, b, n);
      SameCells(Grid(), ForbidBit(g, a, b, n), size);
    }

    /** The array holds exactly the bits of the grid e. */
    ghost predicate Holds(e: Cells)
      reads forbidden
      requires Sized()
    {
      Shaped(e, size) &&
      forall a, b, j :: 0 <= a < size && 0 <= b < size && 0 <= j < size ==> forbidden[a, b, j] == e[a][b][j]
    }

    /** The array holds the grid e, so the grid view is e. */
    lemma GridIs(e: Cells)
      requires Sized() && Holds(e)
      ensures Grid() == e
    {
      GridBits();
      SameCells(Grid(), e, size);
    }

    /**
     * Stage 3 of a step: the first value allowed at (v, h) and nowhere else
     * in its row, or nowhere else in its column, is fixed there.
     */
    method HiddenSingleAt(v: nat, h: nat) returns (didSomething: bool)
      requires Sized() && v < size && h < size
      modifies forbidden
      ensures Grid() == HiddenSingle(old(Grid()), v, h)
      ensures didSomething <==> Grid() != old(Grid())
    {
      ghost var g := Grid();
      ghost var m := FirstHidden(g, v, h, 1);
      HoldsGrid();
      didSomething := false;
      for n := 1 to size + 1
        invariant Holds(if m != 0 && m < n then Fix(g, v, h, m) else g)
        invariant didSomething == (m != 0 && m < n && Fix(g, v, h, m) != g)
      {
        var changed := HiddenRound(v, h, n, g, m);
        didSomething := didSomething || changed;
      }
      GridIs(HiddenSingle(g, v, h));
    }

    /**
     * Round n of the hidden-single loop: when the value n is still allowed
     * at (v, h) and nowhere else in its row or in its column, (v, h) is
     * fixed to n. Before the first hidden single m is met the array holds g,
     * afterwards g with (v, h) fixed to m.
     */
    method HiddenRound(v: nat, h: nat, n: nat, ghost g: Cells, ghost m: nat) returns (changed: bool)
      requires Sized() && Shaped(g, size) && v < size && h < size && 1 <= n <= size
      requires m == FirstHidden(g, v, h, 1)
      requires Holds(if m != 0 && m < n then Fix(g, v, h, m) else g)
      modifies forbidden
      ensures Holds(if m != 0 && m < n + 1 then Fix(g, v, h, m) else g)
      ensures changed == (m == n && Fix(g, v, h, m) != g)
    {
      if forbidden[v, h, n - 1] {
        assert m != n;
        return false;
      }
      assert !(m != 0 && m < n);
      var j := n - 1;
      var onlyInThisRow := forall i :: 0 <= i < size ==> i == h || forbidden[v, i, j];
      var onlyInThisCol := forall i :: 0 <= i < size ==> i == v || forbidden[i, h, j];
      assert onlyInThisRow == OnlyInRow(g, v, h, n);
      assert onlyInThisCol == OnlyInColumn(g, v, h, n);
      changed := false;
      if onlyInThisRow || onlyInThisCol {
        assert Hidden(g, v, h, n);
        assert m == n;
        GridIs(g);
        var r := SetValue(v, h, n);
        assert r.Ok?;  // n is still allowed at (v, h), so SetValue cannot fail here
        changed := r.value;
        HoldsGrid();
      } else {
        assert !Hidden(g, v, h, n);
        assert m != n;
      }
    }

    /** The grid view is what the array holds. */
    lemma HoldsGrid()
      requires Sized()
      ensures Holds(Grid())
    {
      GridBits();
    }

    /**
     * One propagation step on (v, h): nothing when the cell is already
     * determined, otherwise the three stages in order. Reports whether any
     * bit changed.
     */
    method SolveAt(v: nat, h: nat, ghost k: seq<nat>) returns (didSomething: bool)
      requires Sized() && v < size && h < size
      requires |k| == 4 && forall c :: 0 <= c < 4 ==> constraints[v, h, c] == k[c] < size
      modifies forbidden
      ensures Grid() == CellStep(old(Grid()), k, v, h)
      ensures didSomething <==> Grid() != old(Grid())
      ensures old(Value(Cell(v, h))) > 0 ==> !didSomething && Grid() == old(Grid())
    {
      var value := GetValue(v, h);
      GridCells();
      if value > 0 {
        return false;
      }
      ghost var g0 := Grid();
      var pruned := PruneAt(v, h, k);
      ghost var g1 := Grid();
      var eliminated := EliminateAround(v, h);
      ghost var g2 := Grid();
      var fixed := HiddenSingleAt(v, h);
      didSomething := pruned || eliminated || fixed;
      PruneGrows(g0, k, v, h);
      EliminateGrows(g1, v, h);
      HiddenSingleGrows(g2, v, h);
      ChainChanged(g0, g1, g2, size);
      RefinesTransitive(g0, g1, g2, size);
      ChainChanged(g0, g2, Grid(), size);
    }

    /**
     * Propagation passes over every cell in row-major order, stopping after
     * the first pass in which no step changed anything, and after 100 passes
     * at most. The steps read the counter table built from the slots.
     */
    method Solve()
      requires Valid()
      modifies forbidden
      ensures Grid() == Run(old(Grid()), CountersOf(Slots()), 100)
    {
      ghost var t := CountersOf(Slots());
      CountersHeld();
      ghost var outcome := Run(Grid(), t, 100);
      for pass := 0 to 100
        invariant Run(Grid(), t, 100 - pass) == outcome
      {
        ghost var start := Grid();
        var didSomething := SolvePass(t);
        RunStep(start, t, 100 - pass);
        if !didSomething {
          break;
        }
      }
    }

    /** The counter array holds the table t, every counter below the size. */
    ghost predicate TableHeld(t: Counters)
      reads constraints
    {
      Sized() && Tabled(t, size) &&
      forall v, h, c :: 0 <= v < size && 0 <= h < size && 0 <= c < 4 ==> constraints[v, h, c] == t[v][h][c] < size
    }

    /** Row v of the counter array holds row v of the table t, every counter below the size. */
    ghost predicate RowHeld(t: Counters, v: nat)
      reads constraints
    {
      Sized() && Tabled(t, size) && v < size &&
      forall h, c :: 0 <= h < size && 0 <= c < 4 ==> constraints[v, h, c] == t[v][h][c] < size
    }

    /** A valid puzzle's counter array holds the counters its slots determine, each below the size. */
    lemma CountersHeld()
      requires Valid()
      ensures TableHeld(CountersOf(Slots()))
    {
      var l := Slots();
      forall v, h, c | 0 <= v < size && 0 <= h < size && 0 <= c < 4
        ensures Counter(l, v, h, c) < size
      {
        CounterBound(l, v, h);
      }
    }

    /**
     * One pass of Solve: the step on every cell in row-major order, saying
     * whether any of them changed the grid.
     */
    method SolvePass(ghost t: Counters) returns (didSomething: bool)
      requires TableHeld(t)
      modifies forbidden
      ensures Grid() == Pass(old(Grid()), t)
      ensures didSomething <==> Grid() != old(Grid())
    {
      ghost var start := Grid();
      didSomething := false;
      for v := 0 to size
        invariant Grid() == PassPrefix(start, t, v)
        invariant didSomething == PassChanged(start, t, v)
      {
        var changed := SolveRow(v, t);
        didSomething := didSomething || changed;
      }
      PassChangedIff(start, t, size);
    }

    /**
     * The steps on the cells of row v, left to right; says whether one of
     * them changed the grid.
     */
    method SolveRow(v: nat, ghost t: Counters) returns (changed: bool)
      requires RowHeld(t, v)
      modifies forbidden
      ensures Grid() == RowSweep(old(Grid()), t, v, size)
      ensures changed == RowChanged(old(Grid()), t, v, size)
    {
      ghost var rowStart := Grid();
      changed := false;
      for h := 0 to size
        invariant Grid() == RowSweep(rowStart, t, v, h)
        invariant changed == RowChanged(rowStart, t, v, h)
      {
        var stepChanged := SweepStep(v, h, t, rowStart);
        changed := changed || stepChanged;
      }
    }

    /**
     * The step on (v, h) inside row v, the row having begun with the grid
     * `rowStart`: the grid moves one cell further along the row.
     */
    method SweepStep(v: nat, h: nat, ghost t: Counters, ghost rowStart: Cells) returns (changed: bool)
      requires RowHeld(t, v) && h < size
      requires Shaped(rowStart, size) && Grid() == RowSweep(rowStart, t, v, h)
      modifies forbidden
      ensures Grid() == RowSweep(rowStart, t, v, h + 1)
      ensures changed <==> RowSweep(rowStart, t, v, h + 1) != RowSweep(rowStart, t, v, h)
    {
      RowSweepNext(rowStart, t, v, h);
      changed := SolveAt(v, h, t[v][h]);
    }

    /**
     * Whether every cell is determined (what the source's Print returns;
     * the printing itself is not modelled).
     */
    method Print() returns (isSolved: bool)
      requires Sized()
      ensures isSolved <==> Solved(Grid(), size)
    {
      ghost var g := Grid();
      GridCells();
      isSolved := true;
      for v := 0 to size
        invariant isSolved <==> forall a, b :: 0 <= a < v && 0 <= b < size ==> Value(g[a][b]) > 0
      {
        for h := 0 to size
          invariant isSolved <==>
            (forall a, b :: 0 <= a < v && 0 <= b < size ==> Value(g[a][b]) > 0) &&
            (forall b :: 0 <= b < h ==> Value(g[v][b]) > 0)
        {
          var value := GetValue(v, h);
          isSolved := isSolved && value > 0;
        }
      }
    }
  }
}
