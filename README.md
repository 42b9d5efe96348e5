# Game of Life with afterglow, in Dafny

A model of the simulation engine of gigalasr/game-of-life and of its
command-line parser.

The world is a torus of `width * height` cells, stored row by row in a vector
of bytes. 255 means alive. Any other value is the afterglow level of a dead
cell: a dead cell fades by one level per generation and stops at 0.

The engine keeps two equally long vectors, `cells` and `cells_buffer`. An
update computes the next generation from `cells` into `cells_buffer` with
Conway's rule: a cell is born with three live neighbours and survives with two
or three. The update then exchanges the two vectors. Rendering turns every cell
into one RGBA pixel.

The project has five modules:

- `Rules` (rules.dfy) holds the pure specification shared by both engines:
  - the wrapped neighbour index and the neighbour count, also written as an explicit sum over the eight surrounding cells;
  - the rule `Next` and one generation `Step`, with the iterate `Iterate`;
  - the pixel of a cell;
  - the lemmas about all of these.
- `Conway` (conway.dfy) is `World` of src/lib.rs. It is a class with the two vectors as arrays, and its methods are proved against `Rules.Step` and `Rules.Pixel`.
- `Prototype` (prototype.dfy) is the earlier `World` of src/main.rs. Its size is fixed at 320 x 240. Its update leaves the buffer entry of a dark cell that is not born unwritten, so its generation `StepEarly` also depends on what the buffer held.
- `Cli` (cli.dfy) is `Config::build` and `Config::parse_next` of src/config.rs. It includes Rust's `str::parse::<u32>`: an optional `+`, then at least one decimal digit, with a value no larger than 4294967295.
- `ConwayFixtures` (fixtures.dfy) states the one-step fixtures of tests/conway_test.rs on `Rules.Step`. Each fixture compares the resulting world with the expected one by its set of live cells only.

The randomness of the initializers is a parameter: the seed outcome of each
cell. Integers are unbounded. The arguments are a sequence of strings.

## Model

| member | source | states |
|---|---|---|
| Rules.Wrap | src/lib.rs:26-27 | its own contract states only that the wrapped coordinate is below the size; `WrapIsMod` ties it to the source's `%` expression |
| Rules.WrapIsMod | src/lib.rs:26-27 | the shifted coordinate `(c + size + d) % size` is never negative in the dividend, lies in 0..size and equals the wrapping successor/predecessor |
| Rules.NeighbourIndex | src/lib.rs:26-28 | the index `nx + ny * width` of every wrapped neighbour is inside the grid |
| Rules.NeighbourCount | src/lib.rs:17-34 | its own contract states only the bound of eight; its meaning (the number of directions reaching 255) is carried by `CountAliveIsAliveDirections`, `SurroundingIsNeighbourCount` and the other count lemmas |
| Rules.CountAlive | src/lib.rs:18-33 | after the first k directions the running count is at most k |
| Rules.CountAliveIsAliveDirections | src/lib.rs:25-33 | the loop's running count equals the number of visited directions whose cell is 255; after eight it is the neighbour count |
| Rules.NeighbourCountBound | src/lib.rs:17-34 | the neighbour count is at most 8 |
| Rules.CountIgnoresAfterglow | src/lib.rs:28 | only cells equal to 255 are counted: grids with the same live cells give the same count |
| Rules.CountSeesDirection | src/lib.rs:19-30 | a live cell in any one of the eight directions makes the count at least 1 |
| Rules.CornerSeesOppositeCorner | src/lib.rs:26-27 | wrap-around: cell (0, 0) counts a live cell at (width - 1, height - 1) |
| Rules.NoAliveNoCount | src/lib.rs:28-33 | with no live cell on the grid every count is 0 |
| Rules.AllAliveNeighbourCount | src/lib.rs:17-34 | on a grid that is all alive every count is 8 |
| Rules.LoneCellOnUnitTorus | src/lib.rs:26-27 | on a 1 x 1 torus a live cell counts itself eight times |
| Rules.NarrowTorusSidesCoincide | src/lib.rs:26 | on a torus two cells wide the left and right neighbours are the same cell, so it is counted twice |
| Rules.SurroundingIsNeighbourCount | src/lib.rs:19-33 | the direction-by-direction count equals the explicit sum over the eight surrounding cells (an independent reference definition) |
| Rules.Decay | src/lib.rs:56 | `saturating_sub(1)`: one level lower, clamped at 0; the result is 0 exactly for 0 and 1 |
| Rules.Next | src/lib.rs:48-57 | the new value is 255 exactly when (alive and 2 or 3 neighbours) or 3 neighbours; otherwise it is never brighter, a dying live cell becomes 254, 0 stays 0 and other levels drop by one |
| Rules.Step | src/lib.rs:44-60 | its own contract states only that the generation has as many cells as the grid; `StepAt`, `StepOnlyFades`, `StepAllDark` and the fixtures carry its meaning |
| Rules.StepAt | src/lib.rs:47-57 | cell (x, y) of the next generation is the rule applied to its old value and its old neighbour count, at an index inside the grid |
| Rules.StepOnlyFades | src/lib.rs:53-57 | a cell that is not alive in the next generation is at most as bright as before |
| Rules.StepAllDark | src/lib.rs:51-56 | an all-zero world stays all-zero for one generation |
| Rules.IterateAllDark | src/lib.rs:44-62 | an all-zero world stays all-zero for any number of generations |
| Rules.NoLifeDecays | src/lib.rs:51-57 | with no live cell nothing is born: every cell decays by one level, stopping at 0 |
| Rules.NoLifeStaysLifeless | src/lib.rs:51-57 | a world without live cells has none in the next generation |
| Rules.FadedCellStaysDark | src/lib.rs:53-57 | in a lifeless world a cell at level 1 is 0 after one generation and still 0 after two |
| Rules.Pixel | src/lib.rs:66-70 | alpha is 255; the pixel is opaque white exactly for a live cell, else `[0, c, c, 255]`; the cell value reads back from its pixel |
| Rules.CopyPixel | src/lib.rs:72 | the four bytes of pixel i are replaced by the group and the rest of the frame is unchanged |
| Rules.SplicedPixel | src/lib.rs:72 | after writing pixel i, pixel i is the written group and every other pixel is as before |
| Conway.World.FromSeed | src/lib.rs:79-100 | both vectors have width * height cells and are distinct; each cell is 255 or 0 by its seed; the buffer is all 0 |
| Conway.World.ToIndex | src/lib.rs:36-38 | the row-major index is inside the grid and gives x and y back by `%` and `/` |
| Conway.World.Cell | src/lib.rs:40-42 | the cell at (x, y) is entry `x + y * width` of the vector, which is inside it |
| Conway.World.CellOfIndex | src/lib.rs:40-42 | every entry i of the vector is the cell at (i % width, i / width) |
| Conway.World.CountNeighbours | src/lib.rs:17-34 | the loop returns the neighbour count, at most 8, reading only indices inside the grid |
| Conway.World.Update | src/lib.rs:44-62 | `cells` becomes `Step` of the old `cells` (read only from the old generation); the vectors are exchanged, so the buffer holds the previous generation; lengths are kept |
| Conway.World.Render | src/lib.rs:64-74 | pixel i of the frame is `Pixel(cells[i])` for every whole pixel; the trailing bytes are untouched |
| ConwayFixtures.AgreeFromSound | src/lib.rs:47-57 | a cell-by-cell check with the explicit neighbour sum carries over to `Step` |
| ConwayFixtures.EmptyWorld | tests/conway_test.rs:25 | the 3 x 1 empty world stays empty |
| ConwayFixtures.Rule1 | tests/conway_test.rs:27-37 | a lone live cell dies |
| ConwayFixtures.Rule1TwoCells | tests/conway_test.rs:39-49 | two adjacent live cells both die |
| ConwayFixtures.Rule2 | tests/conway_test.rs:51-61 | of the diagonal of three only the middle cell (2, 1) stays alive |
| ConwayFixtures.Rule2Stable | tests/conway_test.rs:63-73 | the 2 x 2 block is a still life |
| ConwayFixtures.Rule3 | tests/conway_test.rs:75-85 | the plus shape becomes the ring of eight |
| ConwayFixtures.Rule4 | tests/conway_test.rs:87-97 | the dead cell with exactly three live neighbours is born |
| ConwayFixtures.Shape | tests/conway_test.rs:100-112 | the five-cell shape on the 5 x 5 torus gives exactly the six expected live cells |
| Prototype.NextEarly | src/main.rs:55-61 | the buffer entry is 255 when born or surviving, the level minus one when glowing, and the stale entry when dark and not born; where the cell is not dark or is born it agrees with `Rules.Next` |
| Prototype.StepEarly | src/main.rs:49-63 | its own contract states only the length of the generation; `StepEarlyAt`, `StepEarlyCleanBuffer` and `FlickerAsWritten` carry its meaning |
| Prototype.StepEarlyAt | src/main.rs:49-63 | cell i of the early generation is `Step`'s, except that a dark cell that is not born takes the scratch buffer's entry |
| Prototype.StepEarlyCleanBuffer | src/main.rs:57-61 | with an all-zero buffer the early update computes exactly `Step` |
| Prototype.FlickerAsWritten | src/main.rs:57-65 | with no live cells, a cell at level 1 goes to 0 and then back to 1, where `Step` keeps it at 0 |
| Prototype.World.Default | src/main.rs:82-96 | both vectors have 320 * 240 cells; every cell is 255 or 0 by its random draw; the buffer is all 0 |
| Prototype.World.CountNeighbours | src/main.rs:30-47 | the loop over the fixed 320 x 240 torus returns the neighbour count, at most 8, reading only indices inside the grid |
| Prototype.World.Update | src/main.rs:49-66 | `cells` becomes `StepEarly` of the old cells and the old buffer; the vectors are exchanged, not copied |
| Prototype.World.Render | src/main.rs:68-78 | pixel i of the frame is `Pixel(cells[i])` for every whole pixel; the trailing bytes are untouched |
| Cli.Accumulate | src/config.rs:47 | the digit loop of `str::parse::<u32>`; its own contract states only that a success is at least the accumulator; `AccumulateValue` carries its meaning (the positional value, failing on a non-digit or past 4294967295) |
| Cli.ParseU32 | src/config.rs:47-48 | a string parses exactly when it is an optional `+` followed by at least one digit with value at most 4294967295, and then to that value |
| Cli.ParseDisplayedU32 | src/config.rs:47 | every u32 written in decimal parses back to itself |
| Cli.OverflowIsUnparsable | src/config.rs:47-48 | a number above 4294967295, written in decimal, does not parse |
| Cli.DashIsNotU32 | src/config.rs:47-48 | a string starting with `-`, such as a flag, never parses |
| Cli.PlusSignAccepted | src/config.rs:47 | one leading `+` is accepted and changes nothing |
| Cli.NextValue | src/config.rs:44-49 | `Ok` exactly when a next argument exists and parses, and then of its value; otherwise "Missing value for flag" when there is none and "Could not parse value" when it does not parse |
| Cli.SetValue | src/config.rs:23-31 | the flag's field is set to the value and every other field is kept |
| Cli.ParseArgs | src/config.rs:21-39 | every error returned is the missing-value message, the unparsable message or "unknown option " followed by one of the arguments |
| Cli.Parse | src/config.rs:11-42 | `build` as a function: with at most the program name it gives the defaults; on success a field whose flag does not occur after the program name keeps its default, and frames are saved exactly when `--save-frames` occurs |
| Cli.ParseNext | src/config.rs:44-49 | returns `NextValue` of the unread arguments and advances past the argument it read, if any |
| Cli.Build | src/config.rs:11-42 | the loop over the arguments returns `Parse(args)` |
| Cli.OnlyProgramName | src/config.rs:12-17 | with only the program name the result is width 200, height 100, scale 4, no saved frames |
| Cli.ProgramNameSkipped | src/config.rs:19-20 | the first argument is never read as an option, whatever it holds |
| Cli.ParseArgsAppend | src/config.rs:21-39 | options are applied in order: after a successful prefix, the rest is parsed from the configuration the prefix produced |
| Cli.UnknownOptionStops | src/config.rs:35-37 | an unknown option stops the walk with "unknown option <arg>", whatever follows |
| Cli.MissingValueAtEnd | src/config.rs:44-46 | a value flag as the last argument gives "Missing value for flag" |
| Cli.UnparsableValue | src/config.rs:47-48 | a value flag followed by any argument that is not a `u32` numeral stops the walk with "Could not parse value", whatever follows |
| Cli.FlagTakenAsValue | src/config.rs:47-48 | a value flag followed by a flag takes the flag as its value and gives "Could not parse value" |
| Cli.LaterFlagOverrides | src/config.rs:23-31 | of two occurrences of a value flag the later value wins |
| Cli.UnmentionedFieldsKept | src/config.rs:21-39 | after a successful walk a field whose flag does not occur keeps its value, and frames are saved exactly when they already were or `--save-frames` occurs |
| Cli.ValueFlagStep | src/config.rs:23-31 | a value flag with a value that parses sets its field and moves past both arguments |
| Cli.SaveFramesStep | src/config.rs:32-34 | `--save-frames` takes no value and sets `save_frames` |
| Cli.ParseSimple | tests/config_test.rs:9-16 | `--width 600 --height 800 --save-frames` gives width 600, height 800, scale 4 and saved frames |
| Cli.ParseSimpleWithMaxIterations | tests/config_test.rs:11-12 | with `--max-iterations 10` appended, the build fails with "unknown option --max-iterations" |
| Cli.ParseFailures | tests/config_test.rs:31-50 | `--foo` is an unknown option; `--width --height 100` and `--height foobar` give "Could not parse value" |

## Left out

- Windowing, the event loop and the pixel surface (`main`, `App` and its handler in src/main.rs) are I/O and are not modelled.
- The Perlin-noise seeding of `World::new` and the random draw of `Default` rely on floating point and random number generators. Their per-cell outcome is a parameter of `Conway.World.FromSeed` and `Prototype.World.Default`.
- The `println!` calls of `World::new` are output only.
- `Conway.World.FromSeed`: does not model the noise threshold `level >= 0.5` itself, only its outcome per cell.
- `World::from`, `CellState` and the equality of worlds used by tests/conway_test.rs are not part of the shown src/lib.rs. The fixtures state the comparison as "the same cells are alive" (`ConwayFixtures.StepGives`), and the tests `compare_cell_states` and `compare_worlds` are not modelled.
- `max_iterations` and `--max-iterations` do not exist in the shown src/config.rs. Under the shown code `parse_simple` and `parse_default` of tests/config_test.rs do not compile against `Config`; `Cli.ParseSimpleWithMaxIterations` states what the shown `build` does with that option.
- The kind of a `u32` parse error (empty, invalid digit, overflow) is not distinguished, because `parse_next` maps all of them to the same message.
- `Rules.WrapIsMod`: the `isize` and `usize` casts are not modelled. For sizes that fit a machine word the arithmetic never overflows, and grid dimensions are unbounded `nat`s here.
- `Conway.World.CountNeighbours`: the `u8` counter cannot overflow because at most eight directions are counted, so it is modelled as a `nat` bounded by 8.
- `Conway.World.Render`, `Prototype.World.Render`: require that the frame has no more whole pixels than there are cells; with more, src/lib.rs:66 and src/main.rs:70 index past the end of `cells` and panic, and that panic is not modelled.
- Aliasing between the frame and the cell vectors cannot happen in Rust and is excluded by a precondition of the `Render` methods.

## Findings

| source | as written | input that shows it | evidently intended | confidence | as-written member | corrected member |
|---|---|---|---|---|---|---|
| src/main.rs:57-61 | a cell that is 0 and not born leaves its buffer entry unwritten, so after the swap it takes its value from two generations earlier | a world with no live cell in which one cell is at level 1: it goes to 0, then back to 1, and keeps flickering | a dark cell that is not born stays at 0, as src/lib.rs:53-57 does by always writing the buffer | not executed | Prototype.FlickerAsWritten | Rules.FadedCellStaysDark |
