# BrainfuckConverter in Dafny

A model of `BrainfuckConverter#convert` (`lib/brainfuck_converter.rb`), which turns a
byte string into a program of the eight-symbol tape language that prints those bytes.
The conversion has three stages:

1. **Auxiliary numbers (anchors).** `step = 127 / (cells_num + 1)`. Working cell `i` is
   meant to hold `(i + 1) * step`.
2. **Setup code.** One multiplication loop builds every anchor. Physical cell 0 counts
   the loop. Working cell `k` is physical cell `k + 1`.
3. **Per-byte code.** For each byte the converter:
   - picks the cell whose current value is nearest (the first one on a tie);
   - moves the pointer there;
   - counts the cell up or down to the byte;
   - emits an output command.

Files:

- `commands.dfy`: the seven instruction roles (`Cmd`) and the symbol table
  (`CommandSet`, `DefaultCommands`). `Render` writes a command sequence as program
  text, and `Parse` reads default-symbol text back.
- `machine.dfy`: a small interpreter of the seven commands. It exists only to state
  what the generated program does. Cells are strict bytes: incrementing 255 or
  decrementing 0 is an error. So a successful run never took a cell outside 0..255.
  Each loop may repeat at most `fuel` times.
- `encoding.dfy`: what `convert` emits, as pure functions. This covers the anchor
  table, the setup code, the nearest-cell search (`map`/`min`/`index`), the chunk
  written per byte, and the `each_byte` loop as a left fold (`EmitAll`). The lemmas
  state the anchor bounds, the tie-break, append-only growth, input order and the
  output count.
- `roundtrip.dfy`: running the generated program. The setup code leaves the anchors on
  the tape. Each chunk prints its byte. The whole program prints exactly the input.
- `converter.dfy`: the class `BrainfuckConverter`. Its fields `code`, `cellValues` and
  `pointer` are updated in place by `Convert` and the protected helpers
  `MovePointer`, `ChangeValue` and `OutputCell`. Each method's `ensures` ties the new
  fields to the functions in `encoding.dfy`.

Where the code and its documentation disagree, the model follows the code:

- The nearest cell is chosen from the **current** cell values. Line 85 reads
  `@cell_values`, and `change_value` overwrites it at line 110. It is not chosen from
  the original anchors.
- The comment on `cells_num` (lines 28-29) says every value from 0 can be used. The
  code returns `false` for any value below 1 (lines 49-51).
- When `cells_num >= 127` the step is 0. Every anchor is then 0 and the setup loop
  body never runs. The model allows this case, and every lemma covers it.

## Model

| member | source | states |
|---|---|---|
| `Commands.Rep` | lib/brainfuck_converter.rb:67 | `symbol * k` yields exactly `k` copies of that one command |
| `Commands.RenderAppend` | lib/brainfuck_converter.rb:67-76 | appending commands appends their symbols, so building `@code` with `+=` on strings is the same as appending commands and rendering once |
| `Commands.ParseRender` | lib/brainfuck_converter.rb:4-12 | with `DEFAULT_COMMANDS` every command is one character, and the text reads back as the same command sequence |
| `Encoding.StepBound` | lib/brainfuck_converter.rb:57 | the spacing times `cells_num + 1` is at most 127, and the spacing is 0 once `cells_num >= 127` |
| `Encoding.AnchorTable` | lib/brainfuck_converter.rb:57-62 | the table has `cells_num` entries with entry `i` equal to `(i + 1) * (127 / (cells_num + 1))`; it is non-decreasing, strictly increasing when the spacing is positive, and every entry is in 0..126 |
| `Encoding.AnchorsNext` | lib/brainfuck_converter.rb:60-62 | the loop's step (next value = previous value + spacing) extends the anchor table by its next entry |
| `Encoding.LoopBodyLength` | lib/brainfuck_converter.rb:69-72 | the setup loop body for `m` cells is `m + m(m+1)/2` commands long |
| `Encoding.SetupShape` | lib/brainfuck_converter.rb:67-76 | the setup code holds no output command, and no bracket inside its loop |
| `Encoding.SetupLength` | lib/brainfuck_converter.rb:67-76 | the setup code is `step + n(n+3)/2 + n + 4` commands long |
| `Encoding.Min` | lib/brainfuck_converter.rb:88 | `diffs.min` is an element of `diffs` and no element is smaller |
| `Encoding.IndexOf` | lib/brainfuck_converter.rb:88 | `diffs.index(x)` is a position holding `x`, and no earlier position holds it |
| `Encoding.Nearest` | lib/brainfuck_converter.rb:85-88 | the chosen cell is a working cell whose current value is at minimal distance from the byte, and every earlier cell is strictly farther (ties go to the lowest index) |
| `Encoding.NearestUnique` | lib/brainfuck_converter.rb:85-88 | exactly one index meets those two conditions |
| `Encoding.TieBreakExample` | lib/brainfuck_converter.rb:85-88 | with two cells the anchors are 42 and 84; byte 63 is 21 away from both and goes to the first cell |
| `Encoding.EmitAllWellFormed` | lib/brainfuck_converter.rb:83-111 | throughout the byte loop the pointer stays in `[0, cells_num)` and every cell value stays in 0..255 |
| `Encoding.EmitAllAppends` | lib/brainfuck_converter.rb:83-115 | the byte loop only appends to `@code`; what it appends and the final cell values and pointer do not depend on the code written before |
| `Encoding.EmitAllSplit` | lib/brainfuck_converter.rb:83-96 | bytes are handled in input order: converting `t + u` handles `u` after `t` |
| `Encoding.EmitAllShape` | lib/brainfuck_converter.rb:83-96 | the bytes' code has no bracket and holds exactly one output command per byte |
| `Encoding.ChunkShape` | lib/brainfuck_converter.rb:93-95 | one byte's code is moves, then value changes, then exactly one output command |
| `Encoding.OutputCount` | lib/brainfuck_converter.rb:67-96 | the program starts with the setup code and holds exactly as many output commands as the text has bytes; empty text gives the setup code alone |
| `Encoding.ExampleOneCell` | lib/brainfuck_converter.rb:42-96 | for `"A"` with one cell: 63 increments, the one-cell loop, one right move, then two increments and an output; the cell ends at 65 |
| `RoundTrip.LoopBodyRun` | lib/brainfuck_converter.rb:69-72 | one pass of the setup loop body adds `i` to the cell `i` places right of the counter and ends `cells_num` cells to the right |
| `RoundTrip.LoopRun` | lib/brainfuck_converter.rb:67-75 | started with `c` in the counter and `(step - c) * i` in physical cell `i`, the setup loop ends with the counter at 0 and physical cell `i` holding `i * step` (working cell `k` holds `(k + 1) * step`), and no cell overflows on the way |
| `RoundTrip.SetupRun` | lib/brainfuck_converter.rb:67-81 | executing the setup code leaves physical cell 0 at 0 and physical cell `k + 1` equal to anchor `k`; the tape pointer rests on physical cell 1, which is `@pointer == 0`; nothing is printed |
| `RoundTrip.MoveRun` | lib/brainfuck_converter.rb:101-105 | the emitted moves shift the tape pointer by `target - cur` |
| `RoundTrip.ChangeRun` | lib/brainfuck_converter.rb:107-111 | the emitted changes turn a cell holding its recorded value into one holding the byte, without leaving 0..255; no other cell changes |
| `RoundTrip.ChunkRun` | lib/brainfuck_converter.rb:83-96 | one byte's code prints that byte and leaves the tape matching the updated cell values and pointer |
| `RoundTrip.ChunksRun` | lib/brainfuck_converter.rb:83-96 | the bytes' code prints the bytes in order, and the tape keeps matching the converter's bookkeeping |
| `RoundTrip.RoundTrip` | lib/brainfuck_converter.rb:25-47 | running the generated program prints exactly the input bytes for any fuel of at least `step`, no cell leaves 0..255, and the final tape matches the converter's final cell values and pointer |
| `RoundTrip.Converted` | lib/brainfuck_converter.rb:42-97 | after a conversion the program prints the text, the pointer is on a working cell and every cell value is a byte |
| `Converter.BrainfuckConverter.constructor` | lib/brainfuck_converter.rb:21-23 | the symbol table is the one given, `DEFAULT_COMMANDS` when none is given |
| `Converter.BrainfuckConverter.Convert` | lib/brainfuck_converter.rb:42-97 | below one cell: returns `false` (`None`) and leaves `code`, `cellValues` and `pointer` unchanged; otherwise returns the text, `code`, `cellValues` and `pointer` are exactly the encoding of the text, the program prints the text, and the pointer is on one of `cells_num` working cells |
| `Converter.BrainfuckConverter.CalculateCellValues` | lib/brainfuck_converter.rb:57-62 | the loop leaves `cellValues` equal to the anchor table |
| `Converter.BrainfuckConverter.EmitSetupCode` | lib/brainfuck_converter.rb:67-76 | `code` gains exactly the setup code, which is the prefix listed in `SetupCode` |
| `Converter.BrainfuckConverter.MovePointer` | lib/brainfuck_converter.rb:101-105 | `code` gains `\|target - cur\|` copies of `<` when the target is left of `cur`, of `>` otherwise; `pointer` becomes the target |
| `Converter.BrainfuckConverter.ChangeValue` | lib/brainfuck_converter.rb:107-111 | `code` gains `\|target - value\|` copies of `-` or `+` for the current cell; only that cell value changes, and it becomes the target |
| `Converter.BrainfuckConverter.OutputCell` | lib/brainfuck_converter.rb:113-115 | `code` gains exactly one output command |

## Left out

- `attr_reader :code` and `attr_accessor :cmds` (lines 14-15): the symbol table is a constant field. A conversion never changes it, so changing it between calls is not modelled. `CodeText` gives the text of `code`.
- Ruby strings: the input is a sequence of bytes (`Byte`, 0..255) rather than a `String` read with `each_byte`. The generated code is a sequence of commands, and rendering it to text is a separate function. Other symbol tables change the text only, never the command sequence.
- A `cells_num` that is not an integer (Ruby would accept a float in the comparisons and ranges). The model takes an `int`.
- Before the first `convert`, Ruby's `@code`, `@cell_values` and `@pointer` are `nil`. The model starts them empty and at 0.
- The local `diff` at line 89 is computed and never used, so it has no counterpart.
- Lines 57-62 and 67-76 of `convert` are the helper methods `CalculateCellValues` and `EmitSetupCode` in the model. They keep the same loops and appends. The split only keeps each proof small.
- The repository has no interpreter of the generated language. The one in `machine.dfy` bounds each loop by `fuel`; a run with too little fuel is reported as a failure and not studied further. Input (`,`) is never emitted and is not modelled.
