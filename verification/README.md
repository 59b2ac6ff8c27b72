# aoc_rb_helpers core, modelled in Dafny

This project models the core of the Ruby gem `aoc_rb_helpers`, a set of
helpers for Advent of Code puzzles, and proves properties of that model:

- **`Grid`** (`lib/aoc_rb_helpers/grid.rb`) is a two-dimensional table that is
  updated in place. It covers cell access, equality, duplication, quarter turns,
  the four rotations, matching under rotation, and the sliding subgrid windows.
  Modules `Matrix` (the pure `transpose` / `reverse` algebra), `Grids` and
  `GridExamples`.
- **`Grid::Region`** (`lib/aoc_rb_helpers/grid/region.rb`) is a set of
  coordinates. It covers the area, the perimeter (a loop over a literal
  direction list), the edge count (grouping boundary edges into straight
  sides), the edge neighbours, equality and hashing. Module `Regions`.
- **`Map`** (`lib/aoc_rb_helpers/map.rb`) holds Dijkstra's search for one
  shortest path and for every equally short path, stopping at one target or at
  the first of several. Module `Maps`.
- **`AocInput`** (`lib/aoc_rb_helpers/aoc_input.rb`) is a chainable parser whose
  steps replace the parsed data and switch each other on and off: lines,
  columns of numbers, transpose, sort. It also covers `String#lines`, `String#split`
  and `String#to_i` as the parser uses them. Modules `AocInputs` and `Text`.
- **`DotMatrix`** (`lib/aoc_rb_helpers/dot_matrix.rb`) decodes dot-matrix
  printouts: it crops to the printed columns, cuts the printout into 5-column
  blocks, translates the on/off characters and looks each block up in a table of
  letters. Module `DotMatrices`.

Each class whose methods update fields in place is a Dafny `class`:
`Grid`, `Map`, `AocInput` and `DotMatrix`. Each method is proved
against a specification function. `Region` is a value (a datatype); its
`perimeter` and `edge_count` loops are methods on it. Exceptions are modelled
as `Result`/`Outcome` values. Where the source raises a message of its own, the
value carries that message; where a Ruby core method raises, the value carries
a text of the model's own (see "Left out").

The main results are these:

- Four quarter turns restore a grid, and the two turn directions are inverse to each other.
- `matches_with_rotations?` holds exactly when some rotation is equal.
- An R x C grid has `(R-r+1)(C-c+1)` subgrids of size r x c, each the right window.
- `perimeter` counts the boundary edges, even with its direction list that checks north twice.
- `edge_count` is the number of straight sides. That number is the count of
  boundary edges with no boundary edge just before them on their line.
- Both Dijkstra searches return walks from `from` to a target. With
  non-negative costs, their length is the least cost to any target. They fail
  with "route blocked" exactly when no target is reachable.
- Decoding a printout of one or more table letters gives back those letters,
  upper-cased, for any on/off pair of two different characters whose "on"
  character is not a space (the default `X`/space among them).

## Model

| member | source | states |
|---|---|---|
| Text.LinesUnlines | lib/aoc_rb_helpers/grid.rb:9 | `lines(chomp: true)` returns exactly the lines a newline-terminated text was built from |
| Text.LinesHaveNoNewline | lib/aoc_rb_helpers/aoc_input.rb:33 | no line returned by `lines(chomp: true)` contains a line break |
| Matrix.TransposeCells | lib/aoc_rb_helpers/grid.rb:93 | row j of `transpose` is column j of the table |
| Matrix.RotateCWCells | lib/aoc_rb_helpers/grid.rb:93 | `transpose.map(&:reverse)` turns an R x C table into a C x R one with `new[i][j] == old[R-1-j][i]`; a table with empty rows becomes `[]` |
| Matrix.RotateACWCells | lib/aoc_rb_helpers/grid.rb:93 | `map(&:reverse).transpose` turns an R x C table into a C x R one with `new[i][j] == old[j][C-1-i]` |
| Matrix.RotateInverse | lib/aoc_rb_helpers/grid.rb:92-95 | an anticlockwise turn undoes a clockwise one and vice versa |
| Matrix.HalfTurn | lib/aoc_rb_helpers/grid.rb:92-95 | two clockwise turns send cell (i, j) to (R-1-i, C-1-j) |
| Matrix.FourTurns | lib/aoc_rb_helpers/grid.rb:71-74 | four clockwise turns restore the table |
| Matrix.RotateNAdd | lib/aoc_rb_helpers/grid.rb:71-74 | turning j times and then k times is turning j+k times |
| Matrix.RotateKeepsValues | lib/aoc_rb_helpers/grid.rb:93 | a quarter turn keeps the set of values held by the cells |
| Matrix.RotateNKeepsValues | lib/aoc_rb_helpers/grid.rb:71-74 | any number of turns keeps the set of values held by the cells |
| Matrix.Window | lib/aoc_rb_helpers/grid.rb:109 | the window `rows.map { \|row\| row[left, columns] }` has cell (a, b) equal to the table's cell (top+a, left+b) |
| Grids.Grid.constructor | lib/aoc_rb_helpers/grid.rb:15-17 | a new Grid holds the given rectangular table |
| Grids.FromInput | lib/aoc_rb_helpers/grid.rb:8-10 | `from_input` builds a Grid with one row per line and one cell per character |
| Grids.Grid.Cell | lib/aoc_rb_helpers/grid.rb:25-27 | the value at an in-range coordinate, one of the values the grid holds; `SetCell` states that it reads back what was written |
| Grids.Grid.SetCell | lib/aoc_rb_helpers/grid.rb:34-36 | writes one in-range cell and returns the value; every other cell and the shape are unchanged |
| Grids.Grid.Equals | lib/aoc_rb_helpers/grid.rb:47-50 | true exactly when the other object is a Grid whose table is equal |
| Grids.NestedEquality | lib/aoc_rb_helpers/grid.rb:49 | two tables are equal exactly when they have the same shape and the same cells |
| Grids.Grid.Dup | lib/aoc_rb_helpers/grid.rb:81-83 | `dup` is a new Grid holding the same table |
| Grids.Grid.Rotate | lib/aoc_rb_helpers/grid.rb:92-95 | the table becomes its clockwise turn for `:clockwise` and its anticlockwise turn for any other direction |
| Grids.Grid.AllRotations | lib/aoc_rb_helpers/grid.rb:67-77 | four new Grids; the k-th holds the table turned k times clockwise |
| Grids.Grid.MatchesWithRotations | lib/aoc_rb_helpers/grid.rb:61-63 | true exactly when some rotation of `other` equals this Grid |
| Grids.AllRotationsMatch | spec/lib/aoc_rb_helpers/grid_spec.rb:70-73 | every rotation of a table matches the table under rotation |
| Grids.DifferentValuesNeverMatch | spec/lib/aoc_rb_helpers/grid_spec.rb:75-80 | tables holding different sets of values never match under rotation |
| Grids.Grid.EachSubgrid | lib/aoc_rb_helpers/grid.rb:105-114 | yields exactly the windows of the specification `SubgridsOf`, in order: row band first, then column offset |
| Grids.Grid.Subgrids | lib/aoc_rb_helpers/grid.rb:118-120 | `subgrids` returns new Grids holding those windows in order, and fails exactly when `each_subgrid` does |
| Grids.SubgridsCount | lib/aoc_rb_helpers/grid.rb:107-110 | for 1 <= r <= R and 1 <= c <= C there are `(R-r+1)(C-c+1)` windows |
| Grids.SubgridsWindow | lib/aoc_rb_helpers/grid.rb:107-110 | the window at position `top*(C-c+1)+left` has its top-left cell at (top, left) |
| Grids.WindowsAreRectangular | lib/aoc_rb_helpers/grid.rb:109 | every window is a rectangular table |
| Grids.SubgridsFullSize | spec/lib/aoc_rb_helpers/grid_spec.rb:122-135 | a window as large as the table is the only one and equals the table |
| Grids.SubgridsZeroSize | spec/lib/aoc_rb_helpers/grid_spec.rb:110-114 | a size of 0 fails (`each_cons(0)` raises) |
| Grids.SubgridsOversize | lib/aoc_rb_helpers/grid.rb:107-108 | a size beyond the table yields no window and raises nothing |
| GridExamples.LettersTurnOnce | spec/lib/aoc_rb_helpers/grid_spec.rb:7-8 | `abcd/efgh/ijkl/mnop` turned once clockwise is `miea/njfb/okgc/plhd` |
| GridExamples.SquareTurns | spec/lib/aoc_rb_helpers/grid_spec.rb:159-171 | `[[0,1],[2,3]]` turns clockwise into `[[2,0],[3,1]]`, which turns anticlockwise back |
| GridExamples.ChangedLettersNeverMatch | spec/lib/aoc_rb_helpers/grid_spec.rb:75-80 | after one cell is changed, no rotation of the changed grid matches the original |
| Regions.NewRegion | lib/aoc_rb_helpers/grid/region.rb:5-13 | a Set becomes the region's cells; any other value becomes its single cell |
| Regions.HashMatchesEquality | lib/aoc_rb_helpers/grid/region.rb:15-23 | the sorted cells that `hash` is computed from agree exactly when `==` holds |
| Regions.SortedCells | lib/aoc_rb_helpers/grid/region.rb:22 | `@cells.sort` lists every cell once, in strictly increasing order |
| Regions.Region.Perimeter | lib/aoc_rb_helpers/grid/region.rb:33-46 | the literal loop (north twice, never south) counts exactly the boundary edges, `4*area - 2*adjacent pairs` |
| Regions.LiteralContribution | lib/aoc_rb_helpers/grid/region.rb:37-41 | one cell adds 4, less 2 for a northern neighbour and 1 each for an eastern and a western one |
| Regions.LiteralPerimeterIsBoundary | lib/aoc_rb_helpers/grid/region.rb:34 | the count with north twice equals the number of boundary edges, because each north link is a south link from the other cell |
| Regions.BoundaryCard | lib/aoc_rb_helpers/grid/region.rb:33-46 | the region has `4*area - (links in all four directions)` boundary edges |
| Regions.Region.Area | lib/aoc_rb_helpers/grid/region.rb:29-31 | the number of cells, equal to the length of the sorted cell list `hash` is computed from |
| Regions.PerimeterBounds | lib/aoc_rb_helpers/grid/region.rb:33-46 | the perimeter lies between 0 and 4 times the area |
| Regions.Region.EdgeCount | lib/aoc_rb_helpers/grid/region.rb:48-87 | the number of groups is the number of boundary edges with no boundary edge just before them on their line, i.e. the straight sides |
| Regions.CollectCellEdges | lib/aoc_rb_helpers/grid/region.rb:53-61 | `cell_edges` holds an edge toward each of the four directions whose neighbour is outside, in order |
| Regions.CellEdgesOfCell | lib/aoc_rb_helpers/grid/region.rb:53-61 | a cell's edges are distinct, and together they are exactly its boundary edges |
| Regions.EdgeNeighbours | lib/aoc_rb_helpers/grid/region.rb:91-119 | the edge one step back and the one step forward along its line, each kept only when it straddles the border |
| Regions.ShiftedBoundary | lib/aoc_rb_helpers/grid/region.rb:118 | next to a boundary edge, an edge straddles the border exactly when it is a boundary edge |
| Regions.FindGroup | lib/aoc_rb_helpers/grid/region.rb:66-67 | `edges.find` returns a group holding the edge, or nil when none does |
| Regions.NeighbourGroups | lib/aoc_rb_helpers/grid/region.rb:64-67 | the two lookups find the groups of the processed edges just before and just after the edge |
| Regions.AddEdge | lib/aoc_rb_helpers/grid/region.rb:69-82 | each of the four branches keeps the group invariant: groups are disjoint straight runs covering the processed edges, one per run start |
| Regions.OpenGroup | lib/aoc_rb_helpers/grid/region.rb:69-72 | an edge with no processed neighbour opens a group of its own |
| Regions.ExtendGroup | lib/aoc_rb_helpers/grid/region.rb:73-76 | an edge with one processed neighbour joins that neighbour's group |
| Regions.MergeGroups | lib/aoc_rb_helpers/grid/region.rb:77-82 | an edge between two processed edges merges their two groups into one |
| Regions.Join | lib/aoc_rb_helpers/grid/region.rb:69-82 | the two groups an edge touches are different, and joining them through it keeps every invariant |
| Regions.StartsAdd | lib/aoc_rb_helpers/grid/region.rb:86 | adding an edge makes it a side start unless its predecessor is present, and stops its successor being one |
| Regions.SidesAtMostPerimeter | lib/aoc_rb_helpers/grid/region.rb:48-87 | there are never more sides than boundary edges |
| Regions.SingleCell | lib/aoc_rb_helpers/grid/region.rb:33-87 | one cell has perimeter 4 and edge count 4 |
| Regions.RectangleSides | lib/aoc_rb_helpers/grid/region.rb:48-87 | a filled h x w rectangle has edge count 4 |
| Maps.Map.constructor | lib/aoc_rb_helpers/map.rb:6-9 | a new Map holds the table and no neighbour procedure |
| Maps.Map.SetNeighboursOfProc | lib/aoc_rb_helpers/map.rb:25-29 | stores the procedure and the two flags; the table is untouched |
| Maps.Map.NeighboursOf | lib/aoc_rb_helpers/map.rb:103-109 | the procedure's result when one is set; otherwise the open (non-`#`) adjacent cells at cost 1 |
| Maps.DefaultNonNegative | lib/aoc_rb_helpers/map.rb:107 | the default rule has no negative step, so searches under it are exact |
| Maps.DefaultClosed | lib/aoc_rb_helpers/map.rb:107 | the default rule never leaves the open cells of the table |
| Maps.Map.ShortestPath | lib/aoc_rb_helpers/map.rb:11-16 | nil for any algorithm but `:dijkstra`; otherwise the result of `shortest_path_dijkstra` with every clause proved of it, including which target the path ends at |
| Maps.Map.ShortestPaths | lib/aoc_rb_helpers/map.rb:18-23 | nil for any algorithm but `:dijkstra`; otherwise the result of `shortest_paths_dijkstra` with every clause proved of it: walks to targets, all shortest for one target, at least one shortest to any target, "route blocked" exactly when no target is reachable |
| Maps.Search | lib/aoc_rb_helpers/map.rb:41-60 | the `until` loop stops in the first round that visits a target, with the queue, distances and stored walks kept consistent; it stops blocked only when no target is reachable |
| Maps.ShortestPathDijkstra | lib/aoc_rb_helpers/map.rb:32-67 | returns a walk from `from` ending at the first listed target among those visited when the search stopped, which is the first round that visited a target; with non-negative costs its cost is the least to any target; fails with "route blocked" exactly when no target is reachable |
| Maps.ShortestPathsDijkstra | lib/aoc_rb_helpers/map.rb:69-101 | every returned path is a walk from `from` to a target; for one target all are shortest; with several, some is shortest to any target; "route blocked" exactly when none is reachable |
| Maps.Start | lib/aoc_rb_helpers/map.rb:33-40 | the search starts with `from` waiting at distance 0 with path `[from]`, and nothing visited |
| Maps.PickMin | lib/aoc_rb_helpers/map.rb:44 | `unvisited.key(unvisited.values.min)` is the first key, in insertion order, holding the least distance |
| Maps.RejectVisited | lib/aoc_rb_helpers/map.rb:45 | keeps exactly the neighbours that are not visited |
| Maps.LowerPath | lib/aoc_rb_helpers/map.rb:48-54 | a cheaper route through `current` lowers the neighbour's distance, queues it at that distance (a new key last in insertion order) and sets its path to the path of `current` followed by the neighbour; otherwise the distances, the queue, its order and the paths are unchanged |
| Maps.RelaxPath | lib/aoc_rb_helpers/map.rb:47-55 | afterwards every candidate waits no further than one step from `current`, and no distance has grown |
| Maps.Step | lib/aoc_rb_helpers/map.rb:42-60 | one round visits the nearest unvisited coordinate; with non-negative costs its distance is the least cost of any walk to it |
| Maps.Nearest | lib/aoc_rb_helpers/map.rb:44 | the picked coordinate is no further than any walk to a coordinate not yet visited |
| Maps.Blocked | lib/aoc_rb_helpers/map.rb:43 | once nothing waits, everything reachable from `from` has been visited |
| Maps.FirstVisited | lib/aoc_rb_helpers/map.rb:63 | `to.select { visited }.first` is the first listed target that is visited, if any |
| Maps.Answer | lib/aoc_rb_helpers/map.rb:62-66 | the returned path is exactly the one stored for `to`, or for the first listed target that is visited; it ends at that target and is shortest to any target |
| Maps.LowerPaths | lib/aoc_rb_helpers/map.rb:84-92 | a cheaper route replaces the neighbour's path set by the paths of `current` each extended by the neighbour; an equally cheap one appends those extended paths to the set; a dearer one changes no path; the queue and its insertion order change as in `LowerPath` |
| Maps.RelaxPaths | lib/aoc_rb_helpers/map.rb:83-93 | the path-set relaxation keeps every stored path a walk of the stored cost |
| Maps.StepAll | lib/aoc_rb_helpers/map.rb:78-98 | one round of `shortest_paths` visits the nearest coordinate at its least distance |
| Maps.FlatPaths | lib/aoc_rb_helpers/map.rb:100 | `to.flat_map { paths[dest] }` holds only stored paths of listed targets |
| Maps.FlatWalks | lib/aoc_rb_helpers/map.rb:100 | every gathered path is a walk from `from` to a listed target |
| Maps.AnswerAll | lib/aoc_rb_helpers/map.rb:100 | the returned paths are walks to targets: all shortest for one target, and at least one shortest to any target for several |
| AocInputs.AocInput.constructor | lib/aoc_rb_helpers/aoc_input.rb:11-14 | the data is the raw input and only `multiple_lines` is allowed |
| AocInputs.AocInput.Allow | lib/aoc_rb_helpers/aoc_input.rb:106-108 | sets one flag to true and changes nothing else |
| AocInputs.AocInput.Revoke | lib/aoc_rb_helpers/aoc_input.rb:110-112 | sets one flag to false and changes nothing else |
| AocInputs.AocInput.CanCall | lib/aoc_rb_helpers/aoc_input.rb:114-116 | passes exactly when the flag is set, and otherwise fails with the given message |
| AocInputs.AocInput.MultipleLinesStep | lib/aoc_rb_helpers/aoc_input.rb:32-37 | the text becomes its lines, `columns_of_numbers` is allowed and `multiple_lines` revoked; the data is already lines on a second call, so `lines` is undefined on it |
| AocInputs.AocInput.ColumnsOfNumbersStep | lib/aoc_rb_helpers/aoc_input.rb:48-55 | fails with "call .multiple_lines first" unless allowed; otherwise every line becomes the integers of its pieces, and `sort_arrays` and `transpose` are switched on |
| AocInputs.AocInput.TransposeStep | lib/aoc_rb_helpers/aoc_input.rb:64-68 | fails with "call .columns_of_numbers first" unless allowed, with "element size differs" on ragged rows, and otherwise transposes |
| AocInputs.AocInput.SortArraysStep | lib/aoc_rb_helpers/aoc_input.rb:77-81 | fails with "call .columns_of_numbers first" unless allowed; otherwise sorts every row ascending, keeping its elements |
| AocInputs.AocInput.ToGrid | lib/aoc_rb_helpers/aoc_input.rb:85-87 | a Grid of the raw input's characters, whatever the data holds |
| AocInputs.AocInput.Sections | lib/aoc_rb_helpers/aoc_input.rb:92-94 | one fresh AocInput per piece of the raw input split on the delimiter, each in the state `AocInput.new` gives it: that piece as raw data and only `multiple_lines` allowed |
| AocInputs.WordsAreWords | lib/aoc_rb_helpers/aoc_input.rb:50 | `split` with no delimiter yields non-empty pieces without white space |
| AocInputs.WordsUnwords | lib/aoc_rb_helpers/aoc_input.rb:50 | splitting on white space undoes joining words with spaces |
| AocInputs.Find | lib/aoc_rb_helpers/aoc_input.rb:93 | the index of the first occurrence of the delimiter, or the length when there is none |
| AocInputs.JoinSplitAll | lib/aoc_rb_helpers/aoc_input.rb:93 | joining the pieces between the delimiters gives the text back |
| AocInputs.DropTrailingEmpty | lib/aoc_rb_helpers/aoc_input.rb:93 | `split` drops the empty pieces at the end and nothing else |
| AocInputs.ToIShow | lib/aoc_rb_helpers/aoc_input.rb:50 | `to_i` reads back what `Integer#to_s` writes |
| AocInputs.DecimalPrefix | lib/aoc_rb_helpers/aoc_input.rb:50 | `to_i` skips the base-10 prefix after the sign: `"0d12".to_i == 12` and `"-0D7".to_i == -7` |
| AocInputs.LeadingZero | spec/lib/aoc_rb_helpers/aoc_input_spec.rb:41-43 | leading zeros do not count: `"012".to_i == 12` |
| AocInputs.ColumnsOf | lib/aoc_rb_helpers/aoc_input.rb:50 | one row per line, holding `to_i` of each piece of that line, in order |
| AocInputs.ColumnsExample | spec/lib/aoc_rb_helpers/aoc_input_spec.rb:41-43 | the example lines read as `[[123, 456], [789, 12], [345, 678]]` |
| AocInputs.NumbersExample | spec/lib/aoc_rb_helpers/aoc_input_spec.rb:14-20 | the example text splits into its three lines |
| AocInputs.Sort | lib/aoc_rb_helpers/aoc_input.rb:79 | `ary.sort` is ascending and has the same elements |
| AocInputs.SortUnique | lib/aoc_rb_helpers/aoc_input.rb:79 | two ascending arrangements of the same elements are equal, so the sort is determined by its input |
| AocInputs.SortEach | lib/aoc_rb_helpers/aoc_input.rb:79 | every row is sorted and the row order is kept |
| AocInputs.TransposeRows | lib/aoc_rb_helpers/aoc_input.rb:66 | `Array#transpose` succeeds exactly on rectangular rows, and then swaps rows and columns |
| AocInputs.SameLengths | lib/aoc_rb_helpers/aoc_input.rb:66 | the length test `transpose` makes is exactly rectangularity |
| AocInputs.TransposeExample | spec/lib/aoc_rb_helpers/aoc_input_spec.rb:58-60 | the example transposes to `[[123, 789, 345], [456, 12, 678]]` |
| AocInputs.SortExample | spec/lib/aoc_rb_helpers/aoc_input_spec.rb:68-69 | the example with each row sorted is `[[123, 456], [12, 789], [345, 678]]` |
| AocInputs.TransposeThenSort | spec/lib/aoc_rb_helpers/aoc_input_spec.rb:70 | transposing and then sorting gives `[[123, 345, 789], [12, 456, 678]]` |
| AocInputs.SortThenTranspose | spec/lib/aoc_rb_helpers/aoc_input_spec.rb:76 | sorting and then transposing gives `[[123, 12, 345], [456, 789, 678]]` |
| AocInputs.OrderMatters | spec/lib/aoc_rb_helpers/aoc_input_spec.rb:74-77 | the two orders of `transpose` and `sort_arrays` give different data |
| DotMatrices.TableShape | lib/aoc_rb_helpers/dot_matrix.rb:5-142 | the table has seventeen glyphs of six rows of five cells, with distinct keys and distinct glyphs |
| DotMatrices.DictionaryDrawn | lib/aoc_rb_helpers/dot_matrix.rb:5-142 | every glyph has a dot in its first column, one in its fourth or fifth column, and one in every row |
| DotMatrices.FindFrom | lib/aoc_rb_helpers/dot_matrix.rb:199 | `DICTIONARY.find` returns the first entry whose glyph is the block |
| DotMatrices.Lookup | lib/aoc_rb_helpers/dot_matrix.rb:199 | the block's letter, and nil exactly when no glyph is drawn that way |
| DotMatrices.LookupGlyph | lib/aoc_rb_helpers/dot_matrix.rb:199 | with distinct glyphs, each glyph reads as its own letter |
| DotMatrices.FirstDot | lib/aoc_rb_helpers/dot_matrix.rb:224 | `row.index` finds the first non-space cell |
| DotMatrices.LastDot | lib/aoc_rb_helpers/dot_matrix.rb:228 | `row.rindex` finds the last non-space cell |
| DotMatrices.FirstPosition | lib/aoc_rb_helpers/dot_matrix.rb:223-225 | the least first-dot column over all rows; none when there are no rows or a row is blank |
| DotMatrices.LastDotColumn | lib/aoc_rb_helpers/dot_matrix.rb:227-229 | the greatest last-dot column over all rows; none in the same cases |
| DotMatrices.BothPositions | lib/aoc_rb_helpers/dot_matrix.rb:223-229 | the two positions exist together |
| DotMatrices.PrintableContent | lib/aoc_rb_helpers/dot_matrix.rb:215-221 | every row cut from the first position to the last position inclusive; none where Ruby raises |
| DotMatrices.CropDropsOnlySpaces | lib/aoc_rb_helpers/dot_matrix.rb:215-221 | cropping drops only blank columns |
| DotMatrices.MaxChars | lib/aoc_rb_helpers/dot_matrix.rb:231-233 | the number of whole 5-column letters the first cropped row holds: `5n <= length < 5(n+1)` |
| DotMatrices.Block | lib/aoc_rb_helpers/dot_matrix.rb:183-185 | block k is columns `[5k, 5k+5)` of every row, fewer where a row ends sooner |
| DotMatrices.Normalise | lib/aoc_rb_helpers/dot_matrix.rb:187-197 | each cell becomes `X` when it is the "on" character and a space otherwise; nothing changes under the defaults |
| DotMatrices.DotMatrix.NewMap | lib/aoc_rb_helpers/dot_matrix.rb:188-196 | the nested `push` loops build the translated block |
| DotMatrices.DotMatrix.ReadBlock | lib/aoc_rb_helpers/dot_matrix.rb:183-199 | one pass of the `map`: the block, translated unless the defaults are in use, looked up in the table |
| DotMatrices.DecodeFrom | lib/aoc_rb_helpers/dot_matrix.rb:181-207 | the letters of the blocks in order; an error exactly when some block is not a table letter |
| DotMatrices.DotMatrix.constructor | lib/aoc_rb_helpers/dot_matrix.rb:156-160 | stores the input and the on/off characters |
| DotMatrices.DotMatrix.ToS | lib/aoc_rb_helpers/dot_matrix.rb:180-208 | the decoding of the input: crop, cut into `max_chars` blocks, read each; the first unreadable block ends with an error |
| DotMatrices.Decode | lib/aoc_rb_helpers/dot_matrix.rb:149-151 | `decode` is a new decoder's `to_s` |
| DotMatrices.CropIsWhole | lib/aoc_rb_helpers/dot_matrix.rb:215-221 | a printout of table letters is its own printable content |
| DotMatrices.BlockOfRender | lib/aoc_rb_helpers/dot_matrix.rb:183-199 | block k of a printout reads as the k-th printed letter |
| DotMatrices.ReadBack | lib/aoc_rb_helpers/dot_matrix.rb:180-233 | for any table drawn edge to edge with distinct glyphs, a printout crops to itself, has one block per letter and decodes to its letters |
| DotMatrices.RoundTrip | lib/aoc_rb_helpers/dot_matrix.rb:149-151 | decoding a printout of one or more table letters gives those letters, upper-cased, for any on/off pair with `on != off` and `on` not a space |
| DotMatrices.Hello | spec/lib/aoc_rb_helpers/dot_matrix_spec.rb:60-70 | the printouts of "HELLO" in `X`/space and in `#`/`.` decode to "HELLO" |

## Left out

- Output is not modelled: `DotMatrix#print`, `print_decoded` and the `puts` in the rescue path of `to_s` are I/O.
- Errors carry the source's own messages where it raises one ("route blocked", "call .multiple_lines first"). Where a Ruby core method raises, the model carries a fixed text instead of Ruby's exact message and exception class:
  - `AocInputs.TransposeRows`: "element size differs", where `Array#transpose` also gives the two sizes ("element size differs (3 should be 2)").
  - `DotMatrices.NoDots` covers three failures. An empty input makes `max_chars` call `length` on `nil`. An input whose rows are all blank makes `last_position` add 1 to `nil` (`dot_matrix.rb:228`). An input with a blank row among dotted ones makes `min` in `first_position` compare `nil` with an Integer, an `ArgumentError` (`dot_matrix.rb:224`).
  - `DotMatrices.Missing`: after the `break`, `map` returns `nil` and `join` fails with a `NoMethodError`.
- `DICTIONARY` has no glyphs for D, I, T and several other letters. The model follows the table, so a printout holding those letters decodes to `Missing`; the alphabet test in `dot_matrix_spec.rb` (line 53) expects them.
- `Grids.SubgridsOversize`: the code yields no window for a size larger than the grid. The model follows the code; the grid tests (lines 116-120) expect an `ArgumentError`.
- The grid tests of `includes_coords?` and `beyond_grid?` (lines 173-203) cover methods that are not in `grid.rb`. `Grid#neighbours`, which `Map#neighbours_of` calls, is not in `grid.rb` either and is not part of this model: `Map` takes the cells adjacent to a coordinate as a parameter (`adjacent`) of its default rule instead.
- `Maps.ShortestPathDijkstra`, `Maps.ShortestPathsDijkstra`: termination is proved over a finite set `u` of coordinates closed under the neighbour rule, a ghost parameter the caller supplies. Ruby's search has no such bound and may run forever on an infinite map.
- `Maps.ShortestPathsDijkstra`: proves that every path returned is a walk to a target and that the ones for a single target are all shortest. It does not prove that *every* shortest path is returned.
- `Maps.ShortestPathsDijkstra`: with several targets, `flat_map` also gathers the paths stored for targets that were not yet visited; the model keeps them, and only states that they are walks.
- Costs are integers (`int`) throughout `Maps`. Ruby adds whatever the neighbour procedure returns, so Float costs, with their rounding, are not modelled.
- `Float::INFINITY` defaults of `unvisited` and `distances` are modelled as absent keys. Negative costs are allowed as in Ruby; the optimality results are stated for non-negative ones.
- The `cardinal:` and `ordinal:` flags of `set_neighbours_of_proc` are stored but, as in the source, not used.
- Grids are rectangular tables: `Grid.new`, `from_input` and `to_grid` require rectangular rows. Ragged tables, on which Ruby's `transpose` raises inside `rotate!`, are not modelled for `Grid`; `transpose` on ragged rows is modelled for `AocInput`.
- Ruby object identity is not modelled. `dup` shares the row arrays (a later `set_cell` on the copy would show in the original), and a Set mutated after it was put in another Set keeps a stale hash. The model uses values for both.
- `Regions.HashMatchesEquality`: compares a Region with a Region only. `==` against an object of another class is not modelled.
- `each_cell` returns the `cells` field and has no member of its own. Enumerators returned without a block by `each_subgrid` are modelled as the sequence they would yield.
- `String#to_i` is modelled in base 10, the only base the source uses: leading white space, an optional sign, an optional `0d`/`0D` prefix, digits with single underscores between them. `String#split` is modelled for string delimiters and `nil`, the only ones the source passes.
- `DotMatrices.DotMatrix.ToS`: the `on` and `off` arguments are strings; a cell matches `on` only when `on` is that single character, as in Ruby's comparison of a one-character string.
- `Regions.RectangleSides`: proves the edge count of a filled rectangle; its perimeter `2(h+w)` is not stated.
