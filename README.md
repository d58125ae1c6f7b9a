# Futoshiki candidate propagation, modelled in Dafny

This project models the `Futoshiki` class of `Futoshiki/Futoshiki.cs`. The class holds an s x s Futoshiki grid: a Latin square with `<`/`>` (horizontal) and `^`/`v` (vertical) inequalities between neighbouring cells. Its state is:
- `forbidden[v, h, n]`: a 3-D boolean table that is true when value n + 1 is ruled out at (v, h);
- `hConstraints` and `vConstraints`: the two slot tables, copied from the puzzle text;
- `constraints[v, h, c]`: a table of four counters per cell, derived from the slots.

The class reads a puzzle text and then propagates candidates:
- **Pruning:** each of the four counters acts on its own. A cell greater than k of its vertical neighbours (or k of its horizontal neighbours) loses its k smallest values. A cell smaller than k of its vertical (or horizontal) neighbours loses its k largest values.
- **Row/column elimination:** this stage is modelled exactly as written. A determined cell of the same row or column loses its own value.
- **Hidden singles:** a cell is fixed to a value that no other cell of its row, or of its column, still allows.

A pass applies these three stages to every undetermined cell in row-major order. Passes repeat until one changes nothing, or until 100 passes have run.

Modules:
- `Candidates`: the candidate grid as a value. It defines `Cells` (bits per cell), `Value` (what `GetValue` computes), `Fix` (what `SetValue` does) and refinement (one grid forbids at least what another forbids).
- `Layouts`: the slot tables as a value (`Layout`), the four counters of a cell (`Counter`), and what a solution of the puzzle is.
- `Parsing`: the puzzle text. It covers the split into lines, which texts are refused and with which error (for texts of characters from the Basic Multilingual Plane; see "## Left out"), and the grid and slots an accepted text describes.
- `Propagation`: the three stages, one step, one pass and a run of passes, as functions on grids. It also holds the lemmas about them.
- `Puzzle`: the class `Futoshiki` over the arrays. Every method that changes `forbidden` is proved to give the abstract view `Grid()` the value of a function of `Candidates`, `Parsing` or `Propagation` applied to the grid it found.
- `Results`: `Option` and `Result`.

## Model

| member | source | states |
|---|---|---|
| Parsing.Split | Futoshiki/Futoshiki.cs:8 | the input is cut at every '\n' into at least one piece, none holding a '\n' |
| Parsing.JoinSplit | Futoshiki/Futoshiki.cs:8 | splitting loses nothing: joining the pieces with '\n' gives the input back |
| Parsing.InputErrorIff | Futoshiki/Futoshiki.cs:9-36 | the parser raises no error exactly when the text is well formed: an odd line count, every line as long as the line count, and every position holding a character its kind admits |
| Parsing.LinesErrorNone | Futoshiki/Futoshiki.cs:15-36 | reading lines v.. in order raises nothing exactly when each of them is well formed |
| Parsing.LineErrorNone | Futoshiki/Futoshiki.cs:18-35 | a line of the right length raises nothing exactly when each of its characters is admitted |
| Parsing.SampleParses | Futoshiki/Futoshiki.cs:9-24 | the sample puzzle of the tests is accepted as a 4 x 4 grid whose cell (0, 0) is determined to 3 and whose cell (0, 1) keeps every value |
| Parsing.HintMeaning | Futoshiki/Futoshiki.cs:19-24 | in the grid of an accepted text, a digit cell has exactly its digit as candidate and a '?' cell keeps every value |
| Parsing.LoadedCell | Futoshiki/Futoshiki.cs:20-23 | reading one cell leaves the grid alone for '?' and fixes the cell to its digit otherwise |
| Parsing.LoadedRow | Futoshiki/Futoshiki.cs:19-24 | having read every cell of a cell line is having read none of the next |
| Parsing.LoadedAll | Futoshiki/Futoshiki.cs:15-24 | once every cell line of a well-formed text is read, the candidates are the hints of the text |
| Parsing.ReadAll | Futoshiki/Futoshiki.cs:25-31 | once every line is read, the slot characters copied are the slots of the text, character for character |
| Puzzle.Futoshiki.Parse | Futoshiki/Futoshiki.cs:7-36 | the error returned is the one InputError names for the text's lines, with even line count checked first and then the lines in order (lengths counted in characters, not UTF-16 units); on success the text is well formed, size is lines/2 + 1, the candidates are the hints, the slot tables hold the text's characters and the counters are those the slots determine |
| Puzzle.Futoshiki.constructor | Futoshiki/Futoshiki.cs:11-14 | the tables are allocated with the dimensions the size calls for, every value allowed everywhere |
| Puzzle.Futoshiki.NothingLoaded | Futoshiki/Futoshiki.cs:14 | a freshly allocated candidate table is the grid of a text of which nothing is read yet |
| Puzzle.Futoshiki.ReadLines | Futoshiki/Futoshiki.cs:15-36 | reading the lines in order stops with the error of the first bad line; otherwise all hints are loaded and all slots copied |
| Puzzle.Futoshiki.ReadLine | Futoshiki/Futoshiki.cs:16-35 | a line not as long as the line count is refused as not square; otherwise the line's own error, cell line or slot line by parity |
| Puzzle.Futoshiki.ReadCells | Futoshiki/Futoshiki.cs:19-24 | the cells of a cell line are refused exactly when some cell is neither '?' nor a digit 1..size; otherwise the line's digits are fixed |
| Puzzle.Futoshiki.ReadCell | Futoshiki/Futoshiki.cs:20-23 | one cell character is accepted exactly when it is '?' or a digit in 1..size; a digit fixes its cell |
| Puzzle.Futoshiki.SetHint | Futoshiki/Futoshiki.cs:23 | SetValue on a cell that still allows every value succeeds and fixes the cell |
| Puzzle.Futoshiki.ReadHorizontalSlots | Futoshiki/Futoshiki.cs:25-27 | the odd positions of a cell line are refused exactly when one is not '<', '>' or ' '; otherwise they are copied into hConstraints |
| Puzzle.Futoshiki.ReadSlotLine | Futoshiki/Futoshiki.cs:29-34 | a slot line is refused for a bad vertical slot anywhere before a bad separator; otherwise its slots are copied into vConstraints |
| Puzzle.Futoshiki.Finish | Futoshiki/Futoshiki.cs:37-49 | after the whole text is read, the object is valid, holds the hints as candidates and the text's slots |
| Puzzle.Futoshiki.BuildCounters | Futoshiki/Futoshiki.cs:37-49 | from zero, every counter becomes the one its neighbouring slots determine |
| Puzzle.Futoshiki.CountCell | Futoshiki/Futoshiki.cs:40-48 | the counters of one cell are set, those before it in row-major order are kept, those after it are still zero |
| Puzzle.Futoshiki.CountVertical | Futoshiki/Futoshiki.cs:41-44 | a '^' above or a 'v' below adds to counter 0, the reverse to counter 1; spaces add nothing; nothing else changes |
| Puzzle.Futoshiki.CountHorizontal | Futoshiki/Futoshiki.cs:45-48 | a '<' to the left or a '>' to the right adds to counter 2, the reverse to counter 3; spaces add nothing; nothing else changes |
| Layouts.CounterSlots | Futoshiki/Futoshiki.cs:41-48 | each counter is the number of neighbouring slot characters pointing its way |
| Layouts.CounterBound | Futoshiki/Futoshiki.cs:37-49 | counters 0 + 1 are at most the number of vertical neighbours, 2 + 3 at most the number of horizontal ones, so every counter is below the size |
| Layouts.CountersOf | Futoshiki/Futoshiki.cs:37-49 | the counter table has one entry of four counters per cell, each the slots' count |
| Puzzle.Futoshiki.CountersHeld | Futoshiki/Futoshiki.cs:37-49 | a valid object's counter array is the table of its slots, every counter below the size |
| Layouts.SolutionWithinCounters | Futoshiki/Futoshiki.cs:88-91 | in any solution a cell's value exceeds its "greater" counters and is at most size minus its "less" counters |
| Puzzle.Futoshiki.SetValue | Futoshiki/Futoshiki.cs:52-60 | fails, changing nothing, exactly when n is already forbidden; otherwise only n remains allowed at (v, h), no other cell changes, and it reports true exactly when some bit flipped |
| Puzzle.Futoshiki.GetValue | Futoshiki/Futoshiki.cs:62-70 | returns the value of the cell's single remaining candidate, 0 when none or several remain, and changes nothing |
| Candidates.ValueMeaning | Futoshiki/Futoshiki.cs:62-70 | the value read back is n > 0 exactly when n is the only allowed value |
| Candidates.ValueAllowed | Futoshiki/Futoshiki.cs:62-70 | a determined cell still allows its value |
| Puzzle.Futoshiki.PruneAt | Futoshiki/Futoshiki.cs:88-91 | stage 1 gives the grid the pruned value and reports true exactly when it changed it |
| Puzzle.Futoshiki.PruneBy | Futoshiki/Futoshiki.cs:89-91 | counter c forbids its count of smallest (c even) or largest (c odd) values at (v, h), every index in range, and nothing else; reports whether a bit flipped |
| Propagation.PruneBits | Futoshiki/Futoshiki.cs:88-91 | pruning forbids at (v, h) exactly the values some counter hits and touches no other cell |
| Propagation.PrunedByHit | Futoshiki/Futoshiki.cs:88-89 | a value is pruned exactly when one of the four counters hits it |
| Propagation.PruneSpares | Futoshiki/Futoshiki.cs:88-91 | no counter of a cell hits the value any solution puts there |
| Propagation.PruneSound | Futoshiki/Futoshiki.cs:88-91 | pruning keeps every solution the grid admitted |
| Propagation.PruneGrows | Futoshiki/Futoshiki.cs:88-91 | pruning never clears a bit |
| Puzzle.Futoshiki.EliminateAround | Futoshiki/Futoshiki.cs:94-98 | stage 2 gives the grid the eliminated value and reports true exactly when it changed it |
| Puzzle.Futoshiki.EliminateRound | Futoshiki/Futoshiki.cs:95-97 | round i forbids its own value in the determined column peer (i, h) and row peer (v, i); changed exactly when one of them is determined |
| Puzzle.Futoshiki.DropValue | Futoshiki/Futoshiki.cs:96-97 | a determined cell loses its value at its own position; the flag says whether it was determined |
| Puzzle.Futoshiki.Forbid | Futoshiki/Futoshiki.cs:96-97 | setting one bit changes the grid at that bit only |
| Propagation.EliminateRoundBits | Futoshiki/Futoshiki.cs:95-97 | one round sets exactly the bits of its two peers' own values |
| Propagation.EliminateRoundsBits | Futoshiki/Futoshiki.cs:94-98 | after i rounds, exactly the peers of the finished rounds have lost their own value |
| Propagation.EliminateRoundsReads | Futoshiki/Futoshiki.cs:95 | the cells a round reads are unchanged by the earlier rounds, so reading the entry grid is exact |
| Propagation.EliminateBits | Futoshiki/Futoshiki.cs:94-98 | elimination forbids in every determined peer its own value and nothing else |
| Propagation.EliminateEmptiesPeer | Futoshiki/Futoshiki.cs:96-97 | as written, a determined peer ends with no candidate at all |
| Propagation.EliminateForbidsPeer | Futoshiki/Futoshiki.cs:96-97 | a determined peer makes elimination change the grid |
| Propagation.EliminateKeeps | Futoshiki/Futoshiki.cs:94-98 | with no determined peer, elimination changes nothing |
| Propagation.EliminateChanges | Futoshiki/Futoshiki.cs:94-98 | elimination changes the grid exactly when some peer is determined |
| Propagation.PeersDeterminedWitness | Futoshiki/Futoshiki.cs:94-98 | the change flag after i rounds is true exactly when some peer of the first i rounds is determined |
| Propagation.EliminateGrows | Futoshiki/Futoshiki.cs:94-98 | elimination never clears a bit |
| Puzzle.Futoshiki.HiddenSingleAt | Futoshiki/Futoshiki.cs:101-106 | stage 3 gives the grid the hidden-single value and reports true exactly when it changed it |
| Puzzle.Futoshiki.HiddenRound | Futoshiki/Futoshiki.cs:102-105 | value n is skipped when forbidden; when it is allowed nowhere else in the row or in the column, the cell is fixed to it, the SetValue call never failing |
| Propagation.HiddenSingleFixes | Futoshiki/Futoshiki.cs:101-106 | the cell is fixed to the smallest hidden single and determined to it; no other cell changes; with no hidden single the grid is unchanged |
| Propagation.HiddenIsSolved | Futoshiki/Futoshiki.cs:103-105 | a hidden single is the value every admitted Latin square puts in that cell |
| Propagation.FixSolved | Futoshiki/Futoshiki.cs:105 | fixing a cell to a solution's value keeps that solution admitted |
| Propagation.HiddenSingleSound | Futoshiki/Futoshiki.cs:101-106 | hidden singles keep every solution the grid admitted |
| Propagation.HiddenSingleGrows | Futoshiki/Futoshiki.cs:101-106 | hidden singles never clear a bit |
| Puzzle.Futoshiki.SolveAt | Futoshiki/Futoshiki.cs:83-110 | on a determined cell it returns false and changes nothing; otherwise it runs the three stages in order; it returns true exactly when the grid changed |
| Propagation.CellStepGrows | Futoshiki/Futoshiki.cs:83-110 | a step never clears a forbidden bit |
| Puzzle.Futoshiki.Solve | Futoshiki/Futoshiki.cs:72-81 | the grid becomes the run of at most 100 passes that stops after the first pass changing nothing |
| Puzzle.Futoshiki.SolvePass | Futoshiki/Futoshiki.cs:75-78 | a pass steps every cell in row-major order and reports true exactly when the grid changed |
| Puzzle.Futoshiki.SolveRow | Futoshiki/Futoshiki.cs:77-78 | a row steps its cells left to right and reports whether one of the steps changed the grid |
| Puzzle.Futoshiki.SweepStep | Futoshiki/Futoshiki.cs:78 | the step on (v, h) moves the row one cell further and reports whether it changed the grid |
| Propagation.RowSweepNext | Futoshiki/Futoshiki.cs:77-78 | a row over h + 1 cells is the row over h cells followed by the step on cell h |
| Propagation.SweepStepGrows | Futoshiki/Futoshiki.cs:78 | each step of a row only forbids |
| Propagation.RowSweepGrows | Futoshiki/Futoshiki.cs:77-78 | a row of steps only forbids |
| Propagation.RowChangedIff | Futoshiki/Futoshiki.cs:77-78 | some step of a row changed the grid exactly when the row as a whole did |
| Propagation.PassPrefixGrows | Futoshiki/Futoshiki.cs:76-78 | the rows of a pass only forbid |
| Propagation.PassChangedIff | Futoshiki/Futoshiki.cs:75-79 | the accumulated flag of a pass is true exactly when the pass changed the grid |
| Propagation.RunStep | Futoshiki/Futoshiki.cs:73-79 | a run with passes left does a pass, stops if it changed nothing, and otherwise goes on with one pass fewer |
| Propagation.RunStops | Futoshiki/Futoshiki.cs:72-81 | a run ends on a grid that one more pass would not change, or else after its whole budget of passes (100 in Solve), each of which changed the grid |
| Propagation.RunGrows | Futoshiki/Futoshiki.cs:72-81 | the forbidden bits only grow across a whole run |
| Puzzle.Futoshiki.Print | Futoshiki/Futoshiki.cs:112-135 | returns true exactly when every cell is determined |

## Left out

- Console output: the pass banner at Futoshiki/Futoshiki.cs:74 and everything `Print` writes. Only `Print`'s return value is modelled.
- `Futoshiki/Program.cs` and `FutoshikiTests/Tests.cs`. They call members this class does not have (search, uniqueness, generation), so they are not part of this model.
- Puzzle.Futoshiki.Parse: a line's length and positions are counted in Unicode characters, whereas the source counts UTF-16 code units (`ss[v].Length`, `ss[v][h]`). On text holding a character outside the Basic Multilingual Plane, the two can report different errors: NotSquare in one and BadCell in the other. Every admitted character is ASCII, so which texts are accepted, and what they parse to, is the same.
- `char.IsDigit` also accepts non-ASCII decimal digits. The model accepts only '0'..'9'.
- `ArgumentException`s become values: `ParseError` for the constructor, and the `Conflict` result of `SetValue`. The exception messages are not modelled.
- The C# constructor is split into three parts:
  - the static `Parse`, which reads the text (lines 8-36);
  - the allocating `constructor(size)`;
  - `BuildCounters` (lines 37-49).
  - The source allocates the counter table only after the text is read; the model allocates it up front, filled with zeros.
- `constraints` is a `char` table in the source and a `nat` table here. No counter exceeds 2 (`Layouts.CounterBound`), so nothing wraps.
- Several loops are split into helper methods, one per round or line, with `ghost` parameters naming the grid the loop began with. This changes no observable behaviour.
- Puzzle.Futoshiki.EliminateRound: each round is specified against the grid at the start of stage 2, not the current array. `Propagation.EliminateRoundsReads` proves the two agree on every cell the round reads.
- Puzzle.Futoshiki.Solve: it is stated for the counter table its slots determine (`Valid()`), the only state the parser can produce.
- Search, uniqueness checking and puzzle generation do not exist in this file, so they are not modelled.
- Uniqueness of values along rows and columns is not proved for the propagated grid. As written, elimination empties every determined peer (`Propagation.EliminateEmptiesPeer`), so it does not keep solutions: soundness is proved for pruning and hidden singles only.
