# dffont, modelled in Dafny

dffont turns a TrueType font into a signed-distance-field atlas. Each printable ASCII
character from '!' to '~' goes through the same steps:

1. It is rasterised at `ppem * scale` into a working mask.
2. The mask becomes an exact Euclidean distance field (`calc_df`). This is done with two
   separable passes over the lower envelope of parabolas.
3. The field is downsampled by `scale`.
4. It is copied into a fixed-size output canvas by a row ("shelf") packer.
5. The character's placement and metrics are written as one line of a text info file.

The command line (`parse_args`) supplies:

- the font path;
- the glyph size (ppem);
- the canvas size;
- the options `--spread`, `--scale`, `--padding`, `--out-image` and `--out-font`.

This project models those parts and proves what they guarantee.

| file | module | what it models |
|---|---|---|
| `wrappers.dfy` | `Wrappers` | `Option` and `Result` |
| `cstring.dfy` | `CString` | C strings, base-10 `strtol` (white space, sign, digits, `ERANGE` clamping to a 64-bit `long`), the `(int)` cast as 32-bit wrap-around, and `%d` formatting |
| `args.dfy` | `CommandLine` | `str_starts_with`, `strtol_is_valid`, `parse_int` and `parse_comma_separated_ints` |
| `options.dfy` | `ArgParser` | `get_option_value` and `parse_args`: a pure outcome function, plus the imperative parser proved equal to it |
| `envelope.dfy` | `Envelope` | the one-dimensional theory: parabolas, their crossings, the exact line minimum `LineMin`, and the stack invariants `calc_df_pass` keeps |
| `distance_field.dfy` | `DistanceField` | the `DF` struct as a class over arrays, `march_parabolas`, `calc_df_pass`, the seeding loops of `calc_df`, and the proof that the row pass then the column pass is the exact two-dimensional transform |
| `atlas.dfy` | `Atlas` | `main`: working sizes, the carve of the single allocation, the shelf packer, the blit, the info file, and the whole per-glyph loop |

Modelling conventions:

- `float` distances are `real`, and `FLT_MAX` is the constructor `Inf` of `Dist`.
- `exit(0)` after the help text becomes an `Outcome`: `Help`.
- `exit(1)` after an error message also becomes an `Outcome`: `Failed(e)`, where `e` carries the text the message quotes.

The pop test of `calc_df_pass` is strict (`src/df.c:55`). The usual statement of the
algorithm pops while the new crossing is *less than or equal to* the last one, and calls the
crossings strictly increasing. The code pops only while the new crossing is strictly less.
The model follows the code: its crossings are non-decreasing (`Envelope.Stacks`), and equal
crossings are kept. The transform it computes is exact either way.

## Model

| member | source | states |
|---|---|---|
| Envelope.Intersection | src/df.c:24-27 | `calc_x_intersection`: where the parabolas of two vertices in different columns meet (its meaning is stated by the two lemmas below) |
| Envelope.CrossingMeets | src/df.c:24-27 | at the x-intersection `calc_x_intersection` returns, the two vertices' parabolas take the same value |
| Envelope.LowerLeftOfCrossing | src/df.c:24-27 | for p left of q, p's parabola is at most q's exactly up to their crossing, and strictly below exactly before it |
| Envelope.PoppedIsCovered | src/df.c:50-59 | a top vertex b that the pop test removes (crossing with the new vertex left of b's own crossing) is never strictly lowest: at every t the vertex below it or the new vertex is at least as low |
| Envelope.LineMinIsMin | src/df.c:6-22 | the reference transform of a line is `Inf` exactly when every cell is `FLT_MAX`; otherwise it is attained by some column and is at most every column's candidate `(x-j)^2 + f[j]` |
| Envelope.LineMinNotAbove | src/df.c:16-20 | the transform never raises a cell that holds a distance |
| Envelope.SkipColumn | src/df.c:41-45 | skipping a `FLT_MAX` column keeps the stacks an envelope of every column read so far |
| Envelope.PushFirst | src/df.c:65-66 | the first column with a distance alone is such an envelope |
| Envelope.PopStep | src/df.c:55-59 | one pop keeps the remaining stack plus the new vertex dominating every parabola read |
| Envelope.EndPops | src/df.c:61-66 | once the pops stop, pushing the crossing and the vertex gives an envelope of the columns up to and including this one |
| Envelope.PickIsLowest | src/df.c:10-13 | the vertex the sweep stops at (all crossings before it left of t, the next one not) has the lowest parabola of the stack at t |
| Envelope.MarchExact | src/df.c:9-21 | with the whole line read, the picked parabola's value at x is exactly the line minimum at x, and no more than the cell's own value |
| Envelope.EnvelopeMarchable | src/df.c:69-73 | the stacks built from a whole line give the sweep its exact value: lowering each cell to the picked parabola yields the line minimum |
| DistanceField.Index | src/df.c:14-15 | the cell index of either pass (`x + y*w`, or `y + x*w` transposed) lies in `[0, w*h)`: the asserts of lines 15 and 39 hold |
| DistanceField.IndexInjective | src/df.c:38-39 | distinct (line, cell) pairs of a pass have distinct indices |
| DistanceField.PassNotAbove | src/df.c:29-75 | a pass never raises a cell, and it leaves a cell at `FLT_MAX` exactly when the cell's whole line is at `FLT_MAX` |
| DistanceField.RowPassCell | src/df.c:92 | after the row pass, cell (r, c) is the minimum along row r of the buffer before it |
| DistanceField.ColumnPassCell | src/df.c:93 | after the column pass, cell (r, c) is the minimum along column c of the buffer before it |
| DistanceField.TwoPassExact | src/df.c:92-93 | the row pass then the column pass gives the exact 2-D minimum of squared Euclidean distance plus seed, over every cell of the grid |
| DistanceField.Seed | src/df.c:89 | a cell is seeded 0 exactly when it is a target cell (background when ink is far, ink otherwise), and `FLT_MAX` exactly otherwise |
| DistanceField.SeededIsNearest | src/df.c:113-118 | on a seeded buffer, the 2-D minimum is the squared distance to the nearest target cell, or `FLT_MAX` when there is none |
| DistanceField.DF.constructor | src/main.c:72-75 | a DF over the carved buffers, with empty stacks and room on each stack for a line of either pass |
| DistanceField.DF.BuildEnvelope | src/df.c:33-67 | after reading line y, the counters satisfy `n_verts == n_xinters + 1` or both are 0 (the assert of line 71), and the stacks are an envelope of the whole line |
| DistanceField.DF.PushVertex | src/df.c:47-66 | admitting a column keeps the counters within the columns read (the asserts of lines 61 and 65) and the stacks an envelope including it |
| DistanceField.DF.PopHidden | src/df.c:48-59 | the pop loop ends with a non-empty stack whose last crossing is not right of the new crossing, and that crossing is the one with the new top |
| DistanceField.DF.PopTop | src/df.c:55-58 | one pop removes one vertex and one crossing, and recomputes the crossing with the new top |
| DistanceField.DF.PassCrossings | src/df.c:10-13 | the sweep index moves past exactly the crossings left of x |
| DistanceField.DF.MarchParabolas | src/df.c:6-22 | every cell of line y becomes that line's exact transform; every other line is unchanged |
| DistanceField.DF.CalcDfPass | src/df.c:29-75 | the buffer after the pass is the line-by-line exact transform of the buffer before it |
| DistanceField.DF.SeedDists | src/df.c:88-90 | every cell of `dists` holds its pixel's seed |
| DistanceField.DF.SquaredDistances | src/df.c:113-118 | after seeding and both passes, each cell holds the squared distance to the nearest target pixel (`FLT_MAX` if none) |
| Atlas.WorkingSizes | src/main.c:46-55 | `down_w == df.w / scale` and `down_h == df.h / scale`, and `dim` is the larger of `df.w` and `df.h` |
| Atlas.SpreadOnEachSide | src/main.c:46-51 | `df.spread == scale * spread`, and the working buffer is the largest glyph with `df.spread` on each side |
| Atlas.StacksHoldEveryLine | src/main.c:61 | `dim` is the maximum of `df.w` and `df.h`, so both stacks hold a line of either pass |
| Atlas.GlyphFitsDown | src/main.c:117-118 | a glyph no larger than the font's largest has `glyph_w <= down_w` and `glyph_h <= down_h` |
| Atlas.CarveBlock | src/main.c:59-78 | the six buffers follow one another from offset 0, each of the size asked for, and end at the calloc size |
| Atlas.TilesPartition | src/main.c:68-77 | every byte of the allocation belongs to exactly one buffer |
| Atlas.Advance | src/main.c:137-147 | the cursor stays on its row, moves right past the glyph, and `largest_h` becomes the larger of itself and the glyph's height |
| Atlas.Wrap | src/main.c:125-129 | a glyph that fits the rest of the row leaves the cursor as it is; otherwise the cursor starts a new row at the left padding, below the tallest glyph of the row, with `largest_h` reset |
| Atlas.StepAsWritten | src/main.c:120-129 | the source's step: only the height test before the wrap decides whether a glyph is placed, and a placed rectangle has the glyph's size at or below the cursor's row |
| Atlas.PlanAsWritten | src/main.c:116-147 | the source's packing of the glyphs in order: at most one rectangle per glyph, each the size of its glyph |
| Atlas.Step | src/main.c:120-129 | a glyph is placed only where its whole rectangle lies inside the canvas |
| Atlas.PlanPrefix | src/main.c:84-149 | the packer places a prefix of the glyphs, in order, each rectangle the size of its glyph |
| Atlas.PlanStops | src/main.c:120-123 | once a glyph is dropped, every later one is dropped too |
| Atlas.PlanInside | src/main.c:120-129 | with the corrected step, every placed rectangle lies inside the canvas |
| Atlas.PlanAfter | src/main.c:125-147 | everything placed from a cursor lies right of it on its row, or below the tallest glyph of its row |
| Atlas.PlanDisjoint | src/main.c:116-147 | no two placed rectangles overlap |
| Atlas.PlanPrefixOfAsWritten | src/main.c:120-129 | the corrected packer's placements are a prefix of the source's; the first one the source adds beyond them leaves the canvas |
| Atlas.OverflowWitness | src/main.c:120-135 | the source's order of tests places a 6x6 glyph at y = 5 on a 10x10 canvas, past its last row |
| Atlas.Painter | src/main.c:131-135 | the last rectangle drawn over a pixel contains it; when there is none, no rectangle contains it |
| Atlas.PainterUnique | src/main.c:131-135 | with pairwise disjoint rectangles, a pixel's painter is the one rectangle holding it |
| Atlas.CopyRow | src/main.c:132-134 | one `memcpy` copies `glyph_w` bytes into row y at column x and changes no other byte |
| Atlas.Blit | src/main.c:131-135 | every canvas pixel inside the rectangle takes the field's pixel at the same offset, and every other pixel is unchanged |
| Atlas.CDiv | src/main.c:144-145 | C's `/` truncates toward zero: the remainder lies in `[0, b)` for a non-negative dividend and in `(-b, 0]` for a negative one |
| Atlas.RecordOf | src/main.c:142-145 | a record holds the character code `FIRST_CHAR + k` and the placed rectangle, and each metric is its glyph's metric divided by `scale` with truncation: off by less than `scale` either way |
| Atlas.Format | src/main.c:142 | a `label=%d` line: just the newline when there are no labels, and otherwise starting with the first label |
| Atlas.Read | src/main.c:142 | the reader of such lines (the inverse the round trips use): a successful read gives one value per label |
| Atlas.HeaderText | src/main.c:42-44 | the three header lines `num_chars=94`, `ppem=` and `line_gap=` (their line count is stated by `Atlas.HeaderLines`) |
| Atlas.InfoText | src/main.c:42-44 | the whole info file: the header, then one record line per placed glyph as written at line 142 (its line count is stated by `Atlas.InfoLines`) |
| Atlas.ReadFormat | src/main.c:142-145 | a line of `label=%d` fields with separating labels reads back as the values printed |
| Atlas.RecordRoundTrip | src/main.c:142-145 | a glyph's info line reads back as its nine fields, in order |
| Atlas.HeaderLines | src/main.c:42-44 | the header is exactly three lines |
| Atlas.RecordOneLine | src/main.c:142 | each record is exactly one line |
| Atlas.InfoLines | src/main.c:42-44 | the info file holds three header lines plus one line per placed glyph |
| Atlas.ClearMask | src/main.c:114 | the mask is all zero |
| Atlas.RenderGlyph | src/main.c:94-114 | on an all-zero mask, the rasteriser's drawing is exactly the glyph's coverage, and the mask is all zero again afterwards |
| Atlas.PlaceGlyph | src/main.c:116-135 | the rectangle and cursor are those of the corrected step; the canvas shows the field inside that rectangle and is unchanged elsewhere |
| Atlas.PackGlyph | src/main.c:116-147 | after glyph k, the canvas shows every placed field over the original canvas, and the records are those of the placed rectangles |
| Atlas.GlyphsFit | src/main.c:117-118 | every glyph of the font fits `down_pixels`, and its coverage fills the working mask |
| Atlas.Generate | src/main.c:80-149 | the canvas shows each glyph's field at its `Layout` rectangle over the zeroed canvas; the records are those of the placements, in order; each glyph is rendered into a clean mask |
| CString.Strtol | src/args.c:48 | with no digits, the value is 0 and the end does not move; otherwise the end is just past the digits, and out-of-range values clamp to `LONG_MAX`/`LONG_MIN` with `ERANGE` |
| CString.ToInt32 | src/args.c:48 | the `(int)` cast lies in the range of `int`, is congruent modulo 2^32 to its argument, and is the identity on that range |
| CString.IntToDecimal | src/main.c:142 | what `%d` writes is non-empty, starts with a minus sign or a digit, and holds no NUL |
| CString.StrtolSuffix | src/args.c:58-62 | `strtol` at the advanced pointer `input = next + 1` reads what it reads at the start of the remaining text |
| CString.StrtolOfDecimal | src/main.c:142-145 | within the range of `long`, `strtol` reads back what `%d` printed, without `ERANGE` |
| CommandLine.StartsWithIsPrefix | src/args.c:38-40 | for C strings, `str_starts_with` holds exactly when `prefix` is a prefix of `str` |
| CommandLine.OverflowIsInvalid | src/args.c:42-44 | an `ERANGE` result is never valid: `(int)LONG_MAX` is -1 and `(int)LONG_MIN` is 0 with errno set |
| CommandLine.ParseInt | src/args.c:46-53 | the result is -1, or a non-negative `int` that is positive when `nonzero` |
| CommandLine.ParseIntOfDecimal | src/args.c:46-53 | every acceptable value printed with `%d` is read back |
| CommandLine.ParseIntRejectsTrailing | src/args.c:49 | text after the number makes the parse fail |
| CommandLine.ParseIntRejectsNegative | src/args.c:43 | negative numbers within the range of `int` are refused |
| CommandLine.ParseIntEmpty | src/args.c:46-53 | the empty string reads as 0: refused when `nonzero`, accepted otherwise |
| CommandLine.ParseIntWraps | src/args.c:48 | numbers above `INT_MAX` within `long` are truncated to 32 bits, and accepted when the truncation is non-negative |
| CommandLine.ParseIntWrapsNegative | src/args.c:46-53 | numbers below `INT_MIN` within `long` are truncated to 32 bits too, and accepted when the truncation is an acceptable value |
| CommandLine.NegativeAccepted | src/args.c:46-53 | so `-4294967295` reads as 1, even where zero is refused |
| CommandLine.SplitFromJoin | src/args.c:55-65 | splitting at the commas loses nothing, and no piece holds a comma |
| CommandLine.ListOkSplit | src/args.c:57-63 | reading m integers in place from a position succeeds exactly when the text splits into m pieces, each read completely with an acceptable value, and the values are the pieces' values |
| CommandLine.ListOkIsCommaInts | src/args.c:55-65 | the same, for the whole input |
| CommandLine.ParseCommaSeparatedInts | src/args.c:55-65 | success exactly when the input is n comma-separated acceptable integers; the first n slots then hold their values, and later slots are untouched |
| ArgParser.OptionName | src/args.c:149-154 | the name is the longest prefix of the option without `=`, followed in the option by `=` when shorter |
| ArgParser.OptionValue | src/args.c:67-74 | a value exists exactly when the option holds `=`; the option is then name, `=`, value; otherwise the error quotes the whole option |
| ArgParser.CutAtEquals | src/args.c:149-154 | the buffer's first `=` before its NUL becomes NUL, nothing else changes, and the C string left is the option's name |
| ArgParser.DefaultSpread | src/args.c:108 | `ceilf(ppem / 14.0f)` taken exactly: the least integer at least `ppem / 14`, which is the source's value for ppem below 2^24 (see Left out) |
| ArgParser.CommaValuesBounds | src/args.c:95-103 | an accepted list has n values, each one `parse_int` could return |
| ArgParser.Classify | src/args.c:115-157 | the first-match dispatch on the option's prefix (its meaning is stated by `ClassifyPrefixed` and `UnknownOptionFails`) |
| ArgParser.ApplyValue | src/args.c:119-147 | only `--spread`, `--scale` and `--padding` can fail, and an option changes no field but its own |
| ArgParser.ApplyOption | src/args.c:113-157 | an option applies only when it is recognised, is not `--help`, and holds `=` |
| ArgParser.ApplyAll | src/args.c:112-158 | the option loop succeeds only when every option is recognised, is not `--help`, and holds `=` |
| ArgParser.ArgsOutcome | src/args.c:76-159 | a successful parse has at least four arguments, valid fields, the font path, the glyph size `parse_int` read and the image size the list parser read |
| ArgParser.ApplyOptionKeeps | src/args.c:112-157 | an option keeps the arguments valid and never changes the path, glyph size or image size |
| ArgParser.ApplyAllKeeps | src/args.c:112-158 | the same for the whole option loop |
| ArgParser.LaterOption | src/args.c:112-158 | the options apply in order: one more option is applied to the result of the ones before it |
| ArgParser.FailureIsFinal | src/args.c:76-159 | the first error decides the outcome, whatever follows it |
| ArgParser.NoOptions | src/args.c:105-110 | without options the defaults stand: no output paths, zero padding, scale 5, spread `ceil(ppem / 14)` |
| ArgParser.HelpCases | src/args.c:77-85 | help is printed exactly for the program name alone or followed by exactly `--help`; otherwise fewer than four arguments is an error |
| ArgParser.HelpOptionFails | src/args.c:115-118 | an option fails with the `--help` error exactly when it starts with `--help`, and the `--help=` test adds nothing |
| ArgParser.ClassifyPrefixed | src/args.c:115-147 | options are recognised by prefix alone, first match first |
| ArgParser.OptionWithValue | src/args.c:119-147 | an option name with any suffix, then `=value`, applies that value |
| ArgParser.OptionWithoutValue | src/args.c:67-72 | a recognised option without `=` fails, quoting the whole option |
| ArgParser.ZeroSpread | src/args.c:119-126 | `--spread=0` is accepted |
| ArgParser.ZeroScale | src/args.c:127-134 | `--scale=0` is refused |
| ArgParser.UnknownOptionFails | src/args.c:115-156 | an option is unknown exactly when it starts with none of the option names, and an unknown option fails, quoting its text before the first `=` |
| ArgParser.UnknownOptions | src/args.c:148-156 | examples: `-o=x` and `--out=x` fail, quoting `-o` and `--out` |
| ArgParser.ReadPadding | src/args.c:135-141 | reading `--padding` into the array in place gives the pure outcome, and on success the array holds the new padding |
| ArgParser.UnknownName | src/args.c:148-155 | the name cut from a NUL-terminated copy of the option is `OptionName` |
| ArgParser.ParseOption | src/args.c:112-157 | one iteration of the option loop equals the pure `ApplyOption`, and the padding array tracks the arguments' padding |
| ArgParser.ParseArgs | src/args.c:76-159 | the imperative parser gives exactly `ArgsOutcome(argv)` |

## Left out

- `sqrtf`, the `maxdist` normalisation and the byte quantisation of `calc_df` (`src/df.c:95-108`, `120-128`) are left out: they are floating-point steps. The model ends at the exact squared distances. Two behaviours of that tail are also outside it:
  - `linear_map` divides by `spread - 1`, which is zero when `df.spread == 1` (`src/df.c:78`, `124`).
  - An ink pixel quantised to 0 at line 106 is treated as background by the seeding at line 114.
- The TrueType loading and rasteriser, `stbir_resize_uint8` and `stbi_write_png` are foreign code. A glyph arrives as a `Glyph` value carrying its coverage and its downsampled field.
- `Atlas.DrawGlyph` is an assumption, not a model: the rasteriser is taken to keep, per cell, the larger of the coverage and what the mask held. `Atlas.RenderGlyph` relies on this only with an all-zero mask.
- File I/O, `fprintf`/`printf` and `exit` are left out. The help text itself is not modelled, and neither are the info file's path or its writes. The info file's contents are modelled as text (`InfoText`).
- The allocation failure and the font-error exits are not modelled.
- `ArgParser.DefaultSpread` is the exact ceiling of `ppem / 14`. It equals the source's `ceilf(ppem / 14.0f)` only for ppem below 2^24, where the conversion to `float` is exact. Above that the conversion rounds: for ppem = 16777237, which `parse_int` accepts, the source computes 1198374 and the model 1198375. Single-precision rounding is not modelled.
- `DistanceField.Index` and the pass indices, `WorkingSizes`, `CarveBlock` and the packer use unbounded integers. They do not model 32-bit `int` or `TTY_U32` wrap-around of `idx` and `df->w * df->h` (`src/df.c:14`, `38`), the sizes, the buffer offsets or the cursor.
- The header's `num_chars` is always 94, even when packing stops early. The model writes it as the source does and proves nothing about the mismatch.
- `CommandLine.StrtolIsValid` reads errno as "this `strtol` call overflowed". This is what errno holds at that point in `parse_args`, because errno starts at 0 and nothing before that point sets it.
- `ArgParser.UnknownName` cuts a copy of the option rather than `argv`'s own string. The write into `argv` is not visible to the model.
- `Atlas.Generate` takes `down_w x down_h` as parameters. `Atlas.GlyphsFit` states that the sizes computed by `Atlas.WorkingSizes` meet its requirements.
- `Atlas.Generate` uses the corrected packing step (see Findings). The source's own order is modelled by `Atlas.PlanAsWritten`.
- The example client (OpenGL rendering of the atlas) is not part of this model.

## Findings

| source | as written | input that shows it | evidently intended | confidence | as-written member | corrected member |
|---|---|---|---|---|---|---|
| src/main.c:120-129 | The height test runs before the row wrap and is not repeated after it. A wrapped glyph can extend past the last row of `out_pixels`, and a glyph wider than the canvas is never tested, so the `memcpy` writes out of bounds. | 10x10 canvas, no padding, glyphs 5x5 then 6x6. The second glyph passes the height test at y = 0, then wraps to y = 5 and is copied to rows 5-10. | Test that the glyph fits after the wrap; otherwise stop packing, as for the first test. Every placed rectangle then lies in the canvas and no two overlap. | not executed | Atlas.OverflowWitness | Atlas.PlanInside |
