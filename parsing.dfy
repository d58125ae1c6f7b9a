/**
 * The textual puzzle format: 2s - 1 lines of 2s - 1 characters each.
 *
 * Even lines hold a cell ('?' or a digit 1..s) at every even column and a
 * horizontal slot ('<', '>' or ' ') at every odd column. Odd lines hold a
 * vertical slot ('^', 'v' or ' ') at every even column and a space at every
 * odd column.
 */
module Parsing {
  import opened Results
  import opened Candidates
  import opened Layouts

  /** Why a puzzle text is refused (one kind per message of the source). */
  datatype ParseError =
    | EvenLineCount   // "expected odd number of lines"
    | NotSquare       // "expected square grid"
    | BadCell         // "expected digit between 1 and <size> or ?"
    | BadHorizontal   // "expected >, < or space"
    | BadVertical     // "expected ^, v or space"
    | BadSeparator    // "expected space"

  /** The pieces of s between '\n' characters, kept even when empty, as String.Split does. */
  function Split(s: string): (parts: seq<string>)
    ensures |parts| >= 1
    ensures forall i :: 0 <= i < |parts| ==> '\n' !in parts[i]
    decreases |s|
  {
    if s == [] then [""]
    else
      var rest := Split(s[1..]);
      if s[0] == '\n' then [""] + rest
      else [[s[0]] + rest[0]] + rest[1..]
  }

  /** The pieces put back together with '\n' between neighbours. */
  function Join(parts: seq<string>): string
    requires |parts| >= 1
    decreases |parts|
  {
    if |parts| == 1 then parts[0] else parts[0] + "\n" + Join(parts[1..])
  }

  /** Splitting loses nothing: joining the pieces gives the text back. */
  lemma {:induction false} JoinSplit(s: string)
    ensures Join(Split(s)) == s
    decreases |s|
  {
    if s != [] {
      var rest := Split(s[1..]);
      JoinSplit(s[1..]);
      if s[0] == '\n' {
        assert ([""] + rest)[1..] == rest;
        assert s == "\n" + s[1..];
      } else if |rest| == 1 {
        assert s == [s[0]] + s[1..];
      } else {
        var parts := [[s[0]] + rest[0]] + rest[1..];
        assert parts[1..] == rest[1..];
        assert Join(rest) == rest[0] + "\n" + Join(rest[1..]);
        assert s == [s[0]] + s[1..];
      }
    }
  }

  /** The numeric value of a decimal digit character. */
  function Digit(c: char): int { c as int - '0' as int }

  /** A cell character: '?' or an ASCII digit from 1 to size. */
  predicate IsCellChar(c: char, size: nat) {
    c == '?' || ('0' <= c <= '9' && 0 < Digit(c) <= size)
  }

  /** What an even (cell) line raises: a bad cell anywhere wins over a bad slot. */
  function CellLineError(line: string, size: nat): Option<ParseError>
  {
    if exists h :: 0 <= h < |line| && h % 2 == 0 && !IsCellChar(line[h], size) then Some(BadCell)
    else if exists h :: 0 <= h < |line| && h % 2 == 1 && !HSlot(line[h]) then Some(BadHorizontal)
    else None
  }

  /** What an odd (vertical-slot) line raises: a bad slot anywhere wins over a bad separator. */
  function SlotLineError(line: string): Option<ParseError>
  {
    if exists h :: 0 <= h < |line| && h % 2 == 0 && !VSlot(line[h]) then Some(BadVertical)
    else if exists h :: 0 <= h < |line| && h % 2 == 1 && line[h] != ' ' then Some(BadSeparator)
    else None
  }

  /** The first error met when the lines from v on are read in order, or None. */
  function LinesError(ss: seq<string>, v: nat): Option<ParseError>
    requires v <= |ss|
    decreases |ss| - v
  {
    if v == |ss| then None
    else if |ss[v]| != |ss| then Some(NotSquare)
    else
      var e := if v % 2 == 0 then CellLineError(ss[v], |ss| / 2 + 1) else SlotLineError(ss[v]);
      if e.Some? then e else LinesError(ss, v + 1)
  }

  /** The error the parser raises on these lines, or None when it accepts them. */
  function InputError(ss: seq<string>): Option<ParseError>
  {
    if |ss| % 2 == 0 then Some(EvenLineCount) else LinesError(ss, 0)
  }

  /** The character at line v, column h is the kind that position admits. */
  ghost predicate CharOk(ss: seq<string>, v: nat, h: nat)
    requires v < |ss| && h < |ss[v]|
  {
    var c := ss[v][h];
    if v % 2 == 0 then
      (if h % 2 == 0 then IsCellChar(c, |ss| / 2 + 1) else HSlot(c))
    else
      (if h % 2 == 0 then VSlot(c) else c == ' ')
  }

  /** Line v is as long as there are lines and holds only admitted characters. */
  ghost predicate LineOk(ss: seq<string>, v: nat)
    requires v < |ss|
  {
    |ss[v]| == |ss| && forall h :: 0 <= h < |ss[v]| ==> CharOk(ss, v, h)
  }

  /** An acceptable puzzle text, described position by position. */
  ghost predicate WellFormed(ss: seq<string>) {
    |ss| % 2 == 1 && forall v :: 0 <= v < |ss| ==> LineOk(ss, v)
  }

  lemma LineErrorNone(ss: seq<string>, v: nat)
    requires v < |ss| && |ss[v]| == |ss|
    ensures (if v % 2 == 0 then CellLineError(ss[v], |ss| / 2 + 1) else SlotLineError(ss[v])) == None
            <==> LineOk(ss, v)
  {
    if v % 2 == 0 {
      if CellLineError(ss[v], |ss| / 2 + 1) != None {
        var h :| 0 <= h < |ss[v]| && ((h % 2 == 0 && !IsCellChar(ss[v][h], |ss| / 2 + 1)) || (h % 2 == 1 && !HSlot(ss[v][h])));
        assert !CharOk(ss, v, h);
      }
    } else {
      if SlotLineError(ss[v]) != None {
        var h :| 0 <= h < |ss[v]| && ((h % 2 == 0 && !VSlot(ss[v][h])) || (h % 2 == 1 && ss[v][h] != ' '));
        assert !CharOk(ss, v, h);
      }
    }
  }

  lemma {:induction false} LinesErrorNone(ss: seq<string>, v: nat)
    requires v <= |ss|
    ensures LinesError(ss, v) == None <==> forall w :: v <= w < |ss| ==> LineOk(ss, w)
    decreases |ss| - v
  {
    if v < |ss| {
      LinesErrorNone(ss, v + 1);
      if |ss[v]| == |ss| {
        LineErrorNone(ss, v);
      }
      assert (forall w :: v <= w < |ss| ==> LineOk(ss, w))
        <==> LineOk(ss, v) && (forall w :: v + 1 <= w < |ss| ==> LineOk(ss, w));
    }
  }

  /**
   * The parser accepts exactly the well-formed texts: it raises no error
   * iff the line count is odd, every line is as long as the line count, and
   * every position holds a character its kind admits.
   */
  lemma InputErrorIff(ss: seq<string>)
    ensures InputError(ss) == None <==> WellFormed(ss)
  {
    LinesErrorNone(ss, 0);
  }

  /** The size of the grid a text of |ss| lines describes. */
  function SizeOf(ss: seq<string>): nat { |ss| / 2 + 1 }

  /** Every position of a well-formed text exists and holds an admitted character. */
  lemma WellFormedAt(ss: seq<string>, v: nat, h: nat)
    requires WellFormed(ss) && v < |ss| && h < |ss|
    ensures |ss[v]| == |ss| && CharOk(ss, v, h)
  {
    assert LineOk(ss, v);
  }

  /** The character of cell (v, h) in a well-formed text. */
  function CellChar(ss: seq<string>, v: nat, h: nat): (c: char)
    requires WellFormed(ss) && v < SizeOf(ss) && h < SizeOf(ss)
    ensures IsCellChar(c, SizeOf(ss))
  {
    WellFormedAt(ss, 2 * v, 2 * h);
    ss[2 * v][2 * h]
  }

  /** The character of the slot between (r, h) and (r + 1, h) in a well-formed text. */
  function VSlotChar(ss: seq<string>, r: nat, h: nat): (c: char)
    requires WellFormed(ss) && r < SizeOf(ss) - 1 && h < SizeOf(ss)
    ensures VSlot(c)
  {
    WellFormedAt(ss, 2 * r + 1, 2 * h);
    ss[2 * r + 1][2 * h]
  }

  /** The character of the slot between (v, c) and (v, c + 1) in a well-formed text. */
  function HSlotChar(ss: seq<string>, v: nat, c: nat): (ch: char)
    requires WellFormed(ss) && v < SizeOf(ss) && c < SizeOf(ss) - 1
    ensures HSlot(ch)
  {
    WellFormedAt(ss, 2 * v, 2 * c + 1);
    ss[2 * v][2 * c + 1]
  }

  /** The candidate bits a cell character starts with: all values for '?', only its digit otherwise. */
  function HintBits(c: char, s: nat): (bits: Bits)
    ensures |bits| == s
  {
    if c == '?' then seq(s, _ => false) else Fixed(s, Digit(c))
  }

  /** The grid of candidates a well-formed text describes. */
  ghost function HintsOf(ss: seq<string>): (g: Cells)
    requires WellFormed(ss)
    ensures Shaped(g, SizeOf(ss))
  {
    var s := SizeOf(ss);
    seq(s, v requires 0 <= v < s => seq(s, h requires 0 <= h < s => HintBits(CellChar(ss, v, h), s)))
  }

  /** The inequality slots a well-formed text describes, copied character for character. */
  ghost function SlotsOf(ss: seq<string>): (l: Layout)
    requires WellFormed(ss)
    ensures Valid(l) && l.size == SizeOf(ss)
  {
    var s := SizeOf(ss);
    var l := Layout(s,
      seq(s - 1, r requires 0 <= r < s - 1 => seq(s, h requires 0 <= h < s => VSlotChar(ss, r, h))),
      seq(s, v requires 0 <= v < s => seq(s - 1, c requires 0 <= c < s - 1 => HSlotChar(ss, v, c))));
    l
  }

  // ---------------------------------------------------------------------
  // What the constructor has read so far

  /**
   * The candidates once the cells of the first `rows` cell lines, and the
   * first b cells of cell line `rows`, have been read: a cell read holds
   * the bits of its character, every other cell allows every value.
   */
  ghost function Loaded(ss: seq<string>, s: nat, rows: nat, b: nat): (g: Cells)
    ensures Shaped(g, s)
  {
    seq(s, a requires 0 <= a < s =>
      seq(s, c requires 0 <= c < s =>
        if (a < rows || (a == rows && c < b)) && 2 * a < |ss| && 2 * c < |ss[2 * a]|
        then HintBits(ss[2 * a][2 * c], s) else HintBits('?', s)))
  }

  /** Before anything is read every value is allowed everywhere. */
  lemma LoadedNothing(ss: seq<string>, s: nat)
    ensures forall a, c, n :: 0 <= a < s && 0 <= c < s && 0 <= n < s ==> !Loaded(ss, s, 0, 0)[a][c][n]
  {
  }

  /**
   * Reading the cell (a, b): a '?' changes nothing, a digit fixes the cell
   * to that digit.
   */
  lemma LoadedCell(ss: seq<string>, s: nat, a: nat, b: nat)
    requires a < s && b < s && 2 * a < |ss| && 2 * b < |ss[2 * a]|
    ensures ss[2 * a][2 * b] == '?' ==> Loaded(ss, s, a, b + 1) == Loaded(ss, s, a, b)
    ensures ss[2 * a][2 * b] != '?' ==>
      Loaded(ss, s, a, b + 1) == Fix(Loaded(ss, s, a, b), a, b, Digit(ss[2 * a][2 * b]))
  {
    var g := Loaded(ss, s, a, b);
    var g' := Loaded(ss, s, a, b + 1);
    if ss[2 * a][2 * b] == '?' {
      assert forall x :: 0 <= x < s ==> g'[x] == g[x];
    } else {
      var f := Fix(g, a, b, Digit(ss[2 * a][2 * b]));
      assert forall x :: 0 <= x < s && x != a ==> g'[x] == f[x];
      assert forall y :: 0 <= y < s ==> g'[a][y] == f[a][y];
      assert g'[a] == f[a];
    }
  }

  /** Having read every cell of a line is having read no cell of the next one. */
  lemma LoadedRow(ss: seq<string>, s: nat, a: nat)
    ensures Loaded(ss, s, a, s) == Loaded(ss, s, a + 1, 0)
  {
    var g := Loaded(ss, s, a, s);
    var g' := Loaded(ss, s, a + 1, 0);
    assert forall x :: 0 <= x < s ==> g[x] == g'[x];
  }

  /** Once every cell line is read, the candidates are the hints of the text. */
  lemma LoadedAll(ss: seq<string>)
    requires WellFormed(ss)
    ensures Loaded(ss, SizeOf(ss), SizeOf(ss), 0) == HintsOf(ss)
  {
    var s := SizeOf(ss);
    var g := Loaded(ss, s, s, 0);
    var e := HintsOf(ss);
    forall a | 0 <= a < s ensures g[a] == e[a] {
      forall c | 0 <= c < s ensures g[a][c] == e[a][c] {
        WellFormedAt(ss, 2 * a, 2 * c);
      }
    }
  }

  /** The character at line w, column x when line w is among the first `lines` read, and '\0' otherwise. */
  function ReadChar(ss: seq<string>, lines: nat, w: nat, x: nat): char
  {
    if w < lines && w < |ss| && x < |ss[w]| then ss[w][x] else '\0'
  }

  /** Once every line is read, the slot characters read are the slots of the text. */
  lemma ReadAll(ss: seq<string>, l: Layout)
    requires WellFormed(ss) && l.size == SizeOf(ss) && |l.vs| == l.size - 1 && |l.hs| == l.size
    requires forall r :: 0 <= r < l.size - 1 ==> |l.vs[r]| == l.size
    requires forall v :: 0 <= v < l.size ==> |l.hs[v]| == l.size - 1
    requires forall r, h :: 0 <= r < l.size - 1 && 0 <= h < l.size ==> l.vs[r][h] == ReadChar(ss, |ss|, 2 * r + 1, 2 * h)
    requires forall v, c :: 0 <= v < l.size && 0 <= c < l.size - 1 ==> l.hs[v][c] == ReadChar(ss, |ss|, 2 * v, 2 * c + 1)
    ensures l == SlotsOf(ss)
  {
    var s := SizeOf(ss);
    var e := SlotsOf(ss);
    forall r | 0 <= r < s - 1 ensures l.vs[r] == e.vs[r] {
      forall h | 0 <= h < s ensures l.vs[r][h] == e.vs[r][h] {
        WellFormedAt(ss, 2 * r + 1, 2 * h);
      }
    }
    forall v | 0 <= v < s ensures l.hs[v] == e.hs[v] {
      forall c | 0 <= c < s - 1 ensures l.hs[v][c] == e.hs[v][c] {
        WellFormedAt(ss, 2 * v, 2 * c + 1);
      }
    }
  }

  /**
   * A hinted cell of a parsed text is determined to its digit, and a '?'
   * cell allows every value.
   */
  lemma HintMeaning(ss: seq<string>, v: nat, h: nat)
    requires WellFormed(ss) && v < SizeOf(ss) && h < SizeOf(ss)
    ensures CellChar(ss, v, h) == '?' ==> forall n :: 0 <= n < SizeOf(ss) ==> !HintsOf(ss)[v][h][n]
    ensures CellChar(ss, v, h) != '?' ==> 1 <= Digit(CellChar(ss, v, h)) <= SizeOf(ss) && Value(HintsOf(ss)[v][h]) == Digit(CellChar(ss, v, h))
  {
    ValueMeaning(HintsOf(ss)[v][h]);
  }

  /** The seven lines of the sample puzzle the project's tests use. */
  function Sample(): seq<string>
  {
    ["3 ? ? ?",
     "  ^    ",
     "? ?<? ?",
     "v      ",
     "? ? ? ?",
     "    ^ ^",
     "?<? ? ?"]
  }

  /**
   * The sample is accepted as a 4 x 4 puzzle whose top-left cell is fixed
   * to 3 while the cell beside it keeps every value.
   */
  lemma SampleParses()
    ensures InputError(Sample()) == None && SizeOf(Sample()) == 4
    ensures Value(HintsOf(Sample())[0][0]) == 3
    ensures forall n :: 0 <= n < 4 ==> !HintsOf(Sample())[0][1][n]
  {
    var ss := Sample();
    forall v, h | 0 <= v < 7 && 0 <= h < 7 ensures |ss[v]| == 7 && CharOk(ss, v, h) {
      assert v in {0, 1, 2, 3, 4, 5, 6} && h in {0, 1, 2, 3, 4, 5, 6};
    }
    assert forall v :: 0 <= v < 7 ==> LineOk(ss, v);
    InputErrorIff(ss);
    HintMeaning(ss, 0, 0);
    HintMeaning(ss, 0, 1);
  }
}
