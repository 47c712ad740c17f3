# SVG glyph converter: path-geometry model

This project models the core of `src/main.rs`, a small program that reads an
SVG font and writes one SVG image per character. The model covers four parts:

- **Traversal.** `for_each_command` walks a path's commands. For each
  point-bearing command (M, L, Q, T, C, S) it decodes the flat parameter
  list into (x, y) pairs and hands them to a callback together with the
  command's point-group size. Z, H, V and A are left alone.
- **Bounding box.** `get_rect` passes over one glyph and samples the last
  point of every complete group (a trailing incomplete group is skipped).
  Each sample is resolved against a cursor: an absolute point sets the
  cursor, and a relative point moves it by its delta. The `Rect` accumulator grows around each resolved point. A
  relative point seen before any absolute one panics. Only the glyphs of
  'A'..'Z' are measured, so only an upper-case glyph can cause that panic.
  A relative first point in any other glyph stops nothing: when the pairing
  rule selects such a glyph, it is rewritten and written out.
- **Rewrite.** `flip_and_align_path` rewrites every point in place. The
  glyph is centred horizontally in the reference box and its y axis is
  flipped. Absolute and relative points follow different rules.
- **Selection rules of `main`, `process_glyph` and `save`.**
  - Which characters are kept.
  - Which glyph gives the reference box: the last upper-case letter, in
    'A'..'Z' order, that has a glyph.
  - Which files are written, each upper-case image paired with its
    lower-case one, and under which names.

The modules follow the source:

- `Geometry` (rect.dfy): the `Rect` class and its point/box values.
- `Commands` (commands.dfy): commands, group sizes and parameter decoding.
- `BoundingBox` (get_rect.dfy): `get_rect`.
- `Transform` (flip.dfy): `flip_and_align_path`.
- `Pipeline` (main.dfy): `main`, `process_glyph` and `save`.
- `Wrappers` (wrappers.dfy): `Option`, `Result` and the panic conditions.

How the model is built:

- **Imperative parts stay imperative.** `Rect` is a class whose `Extend`
  updates its fields. `GetRect` and `FlipAndAlignPath` work over an
  `array<Command>`, and the rewrite stores each new command back into the
  array. The decoding, sampling, rewriting and collecting loops are `while`
  and `for` loops.
- **Loops are proved against functions.** Each loop is specified by a
  function: `Pairs`, `Sampled`, `Run`, `FlipPath`, `Letters`, `Table` and
  `Outputs`. The properties are proved as lemmas about those functions.
- **The two callbacks are methods.** The source passes its two closures to
  `for_each_command`. Here each pass runs the traversal's loop itself and
  calls its callback body: `ExtendWithGroups` for `get_rect`, and
  `FlippedCommand` with `FlippedParams` for the rewrite. Both passes share
  the traversal's own pieces: `HasPoints`, `PointPairSize` and
  `DecodePoints`.
- **Panics become errors.** A panic of the source becomes an `Err` of
  `Wrappers.Failure`:
  - `RelativeBeforeAbsolute` for the `panic!()` in `get_rect`;
  - `NoUppercaseGlyph` for `rect.unwrap()` in `main`;
  - `EmptyReference`: see "Left out".
- **Cursor and skipped commands.** As in the source, Z, H, V and A do not
  touch the cursor. So a relative point after a `z` resolves from the cursor,
  the last resolved point, not from the start of the subpath as SVG 1.1 (section
  8.3.3) would. `SkippedCommandInvisible` states this. Likewise an `m` that
  opens a path, which SVG 1.1 (section 8.3.2) treats as absolute, is a
  relative point with no cursor and panics (`LeadingRelativeMovePanics`).
- **The pipeline's inputs and outputs.** `Pipeline.Export` takes the glyph
  records already decoded. It returns the list of files that would be
  written, each with its name, view box, background flag and rewritten
  path.

## Model

| member | source | states |
|---|---|---|
| Geometry.Rect.constructor | src/main.rs:170-175 | A new Rect has taken in no point (the infinite sentinel corners are the `empty` state) |
| Geometry.Rect.Extend | src/main.rs:177-191 | After extending, the box is exactly the bounds of every point extended so far, in order; it contains the new point; its corners only move outwards; a point already inside leaves it unchanged |
| Geometry.Rect.Bounds | src/main.rs:164-167 | The corners of a non-empty Rect enclose every point it took in |
| Geometry.Rect.Width | src/main.rs:193-195 | The width is non-negative, at least the x distance between any two points taken in, and equal to the distance between some two of them |
| Geometry.Rect.Height | src/main.rs:197-199 | The same for the y distance |
| Geometry.BoundsOf | src/main.rs:177-191 | The box that extending a fresh Rect with the points, in order, leaves; stated by `BoundsOfTight` and `BoundsOfSmallest` |
| Geometry.BoundsOfTight | src/main.rs:177-191 | The box the extend steps build contains all the points, and each of its four sides is touched by one of them |
| Geometry.BoundsOfSmallest | src/main.rs:177-191 | Any box that contains all the points contains that box: it is the smallest one |
| Commands.HasPoints | src/main.rs:135-158 | The commands the traversal hands to its callback: M, L, Q, T, C and S; used by `FlipKeepsShape` and `SkippedCommandInvisible` |
| Commands.PointPairSize | src/main.rs:129-134 | Group size 3 exactly for C, 2 exactly for Q and S, 1 for everything else |
| Commands.Pairs | src/main.rs:146-152 | Decoding yields floor(n / 2) points, point i being parameters 2i and 2i + 1 |
| Commands.PairsIgnoresOddTrailing | src/main.rs:148-151 | An odd trailing value without a partner is dropped and changes nothing |
| Commands.Flatten | src/main.rs:96-109 | A point list written out x before y, as the callback pushes it; stated by `FlattenOfPairs` and `PairsOfFlatten` |
| Commands.PairsOfFlatten | src/main.rs:97-110 | Decoding a parameter list written point by point gives those points back |
| Commands.FlattenOfPairs | src/main.rs:146-152 | Writing out the decoded points gives the parameters back without the odd trailing value |
| Commands.DecodePoints | src/main.rs:146-152 | The decoding loop produces exactly `Pairs(params)` |
| Commands.WithParams | src/main.rs:153 | Storing new parameters back keeps the command's kind and addressing mode and replaces only the parameters |
| Commands.Truncated | src/main.rs:146-152 | The reference for a command with its odd trailing value dropped: same kind and mode, parameters equal to the decoded points written out, and Z/H/V/A unchanged |
| BoundingBox.Sampled | src/main.rs:70-71 | The points the stepped loop `skip(size - 1).step_by(size)` visits; its meaning is stated by `SampledGroupEnds` |
| BoundingBox.SampledGroupEnds | src/main.rs:70-71 | The stepped loop samples floor(n / size) points: sample m is point m * size + size - 1, the end of the m-th complete group |
| BoundingBox.CommandSamples | src/main.rs:135-158 | What one command contributes: the group ends of its decoded points for M, L, Q, T, C and S, nothing for Z, H, V and A; stated by `SkippedCommandInvisible` and `SampledGroupEnds` |
| BoundingBox.Samples | src/main.rs:128-160 | Every sample of a path, command after command; stated by `SamplesAppend` and `SkippedCommandInvisible` |
| BoundingBox.SkippedCommandInvisible | src/main.rs:155-158 | Inserting a Z, H, V or A command anywhere in a path changes nothing the pass samples, so it neither moves nor resets the cursor |
| BoundingBox.Step | src/main.rs:72-87 | One sample of the cursor pass: absolute sets the cursor, relative moves it by its delta or panics without a cursor; its behaviour is stated by `RunResolves`, `RunShape` and `PanicsIffRelativeFirst` |
| BoundingBox.Run | src/main.rs:69-89 | The pass over a list of samples; stated by `RunAppend`, `RunPanicked`, `RunResolves` and `PanicsIffRelativeFirst` |
| BoundingBox.SamplesAppend | src/main.rs:128 | The samples of a path are those of its commands, in command order |
| BoundingBox.RunAppend | src/main.rs:67-89 | The cursor pass over two runs of samples is the pass over the first followed by the pass over the second |
| BoundingBox.RunPanicked | src/main.rs:83 | A panic is final |
| BoundingBox.RunShape | src/main.rs:72-87 | Each sample resolves to one point, and afterwards the cursor is the last resolved point |
| BoundingBox.PanicsIffRelativeFirst | src/main.rs:72-87 | A glyph's pass panics if and only if its first sampled point is relative |
| BoundingBox.RunResolves | src/main.rs:72-87 | An absolute sample resolves to itself; a relative one resolves to the previously resolved point (or the starting cursor) plus its delta |
| BoundingBox.AllAbsoluteResolvesToSampled | src/main.rs:72-76 | For an all-absolute glyph, no panic, and the resolved points are exactly the sampled points |
| BoundingBox.ExtendWithGroups | src/main.rs:69-89 | The callback extends the Rect with exactly the resolved points of its command's samples and returns the new cursor; it fails with `RelativeBeforeAbsolute` exactly when the pass panics |
| BoundingBox.GetRect | src/main.rs:65-91 | `get_rect` fails exactly when the pass over the whole glyph panics; otherwise it returns a fresh Rect whose points are the resolved samples, so its box is their bounds; the commands are not modified |
| BoundingBox.PanicSpreads | src/main.rs:83 | A panic within the first commands is a panic of the whole glyph |
| BoundingBox.RelativeResolutionExample | src/main.rs:65-91 | The path `M 0 0 l 5 5 l 5 -5`, decoded, sampled and resolved, visits (0, 0), (5, 5) and (10, 0) with the cursor ending at (10, 0) |
| BoundingBox.LeadingRelativeMovePanics | src/main.rs:77-84 | A path whose first command is a relative `m` with a point panics, whatever follows |
| BoundingBox.ExampleBounds | src/main.rs:177-191 | The box around those three points runs from (0, 0) to (10, 5) |
| Transform.Offset | src/main.rs:94 | The shift (W - w) / 2 + min.x that centres the glyph; its effect is stated by `FlipPoint`'s ensures and by `FlipFitsViewBox` |
| Transform.FlipPoint | src/main.rs:97-107 | Absolute (x, y) becomes (x + (W - w) / 2, max.y - y); relative (dx, dy) becomes (dx, -dy) |
| Transform.FlipCommand | src/main.rs:95-110 | Rewriting a command keeps its kind and, for point-bearing commands, its addressing mode |
| Transform.FlippedParams | src/main.rs:96-108 | The callback's loop builds exactly the rewritten points written out pair by pair |
| Transform.FlippedCommand | src/main.rs:146-153 | Decoding, rewriting and storing back gives exactly the rewritten command |
| Transform.FlipAndAlignPath | src/main.rs:93-111 | The in-place rewrite leaves each command of the array rewritten by `FlipCommand` with offset (W - w) / 2 + min.x |
| Transform.FlipPath | src/main.rs:95-110 | The whole path after the rewrite, command by command; stated by `FlipAndAlignPath`, `FlipCommandPoints` and `FlipKeepsShape` |
| Transform.FlipCommandPoints | src/main.rs:97-107 | Decoded point by point, a rewritten command holds the same number of points, each moved by the absolute or the relative rule |
| Transform.PairsOfFlip | src/main.rs:97-109 | The decoded points of a rewritten command are its rewritten points |
| Transform.FlipKeepsShape | src/main.rs:135-158 | The rewrite keeps kind and mode, leaves two numbers per decoded point, and leaves Z, H, V and A untouched |
| Transform.FlipPointTwice | src/main.rs:97-107 | Rewriting one point twice restores its y; it restores the point when it is relative or when w = W |
| Transform.FlipTwiceRestoresY | src/main.rs:93-111 | Rewriting a command twice restores every y; it restores every point when the command is relative or when w = W |
| Transform.FlipInvolution | src/main.rs:93-111 | When the glyph is as wide as the box, rewriting twice gives the command back, less its odd trailing value |
| Transform.FlipFitsViewBox | src/main.rs:93-111 | A point inside the reference box lands at a height in [0, H]; the glyph's advance [0, w] lands centred in [0, W] |
| Pipeline.CaseMapping | src/main.rs:18-21 | ASCII case mapping: lowering leaves no upper-case letter, and raising is one-to-one on the characters kept |
| Pipeline.Letters | src/main.rs:18-21 | The character list built by the reading loop; stated by `LettersSpec` |
| Pipeline.Table | src/main.rs:18-23 | The glyph table built by the reading loop; stated by `TableSpec` |
| Pipeline.IsAscii | src/main.rs:18 | `char::is_ascii`: code below 128; used by `LettersSpec`, `TableSpec` and `CaseMapping` |
| Pipeline.ToAsciiLower | src/main.rs:19-20 | `to_ascii_lowercase`: only 'A'..'Z' move, by 32; stated by `CaseMapping` |
| Pipeline.ToAsciiUpper | src/main.rs:37 | `to_ascii_uppercase`: only 'a'..'z' move, by 32; stated by `CaseMapping` |
| Pipeline.LettersSpec | src/main.rs:18-21 | The character list holds each lower-cased ASCII character of the input exactly once, and nothing else |
| Pipeline.TableSpec | src/main.rs:18-23 | The table holds exactly the ASCII characters of the input, each with the glyph of its last record |
| Pipeline.CollectGlyphs | src/main.rs:10-25 | The reading loop builds exactly that character list and that table |
| Pipeline.LastUpperBefore | src/main.rs:28-33 | A found letter is an upper-case letter below the bound that has a glyph |
| Pipeline.LastUpperStep | src/main.rs:28-33 | One step of the 'A'..'Z' loop: a letter with a glyph replaces the previous choice |
| Pipeline.LastUpperIsLast | src/main.rs:28-33 | The chosen letter is the last with a glyph; nothing is chosen only when no letter has one |
| Pipeline.MeasureGlyph | src/main.rs:30-31 | Measuring a glyph's commands fails exactly when its pass panics, and otherwise gives its resolved points |
| Pipeline.ReferencePoints | src/main.rs:27-34 | What the reference loop yields: the resolved points of the last upper-case glyph, or the failure; stated by `LastUpperIsLast`, `LastUppercaseWins`, `UpperPanicIsFatal` and `NonUpperGlyphIgnored` |
| Pipeline.NonUpperGlyphIgnored | src/main.rs:28-33 | Adding or replacing a glyph that is not an upper-case letter, even one whose first point is relative, leaves the reference points and failures unchanged |
| Pipeline.ReferenceRect | src/main.rs:27-34 | The reference loop gives the points of the last upper-case glyph; it fails when any upper-case glyph panics, or when none exists |
| Pipeline.UpperPanicIsFatal | src/main.rs:28-33 | A panicking upper-case glyph stops the program, whichever letter it is |
| Pipeline.NoPanicAtAll | src/main.rs:28-33 | When no letter of the loop panicked, no upper-case glyph panics |
| Pipeline.LastUppercaseWins | src/main.rs:27-34 | The reference box comes from the last upper-case letter with a glyph alone, not a union over all letters |
| Pipeline.RelativeFirstIsFatal | src/main.rs:27-34 | An upper-case glyph whose first sample is relative stops the whole program |
| Pipeline.FileName | src/main.rs:120-123 | '/' is written to `./out/slash.svg`, any other character c to `./out/c.svg`; stated by `FileNameInjective` |
| Pipeline.Save | src/main.rs:113-119 | The file for one image: its name, a view box the size of the reference box, and a background rectangle of that size when asked for; used by `PairingRule` |
| Pipeline.FileNameInjective | src/main.rs:120-123 | Different characters get different file names, '/' included |
| Pipeline.ProcessGlyph | src/main.rs:52-63 | `process_glyph` writes the rewritten upper-case glyph with a background, then, when given, the rewritten lower-case glyph without one, each with its own advance |
| Pipeline.ExportGlyphs | src/main.rs:36-49 | The character loop writes exactly `Outputs` over the character list |
| Pipeline.ExpectedExport | src/main.rs:6-50 | Everything `main` produces after reading the font: the files, or the failure that stops it; stated by `ExportedFiles` and `RelativeFirstIsFatal` |
| Pipeline.Export | src/main.rs:6-50 | `main` after reading the font: the files of `Outputs`, or the failure that stops the program |
| Pipeline.GlyphOutputs | src/main.rs:36-47 | The images written for one entry of the character list; stated by `PairingRule` |
| Pipeline.Outputs | src/main.rs:36-49 | The images written for the whole list, in order; stated by `OutputsDistinct`, `OutputsCover` and `ExportedFiles` |
| Pipeline.PairingRule | src/main.rs:36-47 | A character writes nothing unless its upper-case form has a glyph; then the upper-case image with a background; then, only for a lower-case letter with its own glyph, the lower-case image without one |
| Pipeline.WrittenForDiffer | src/main.rs:120-123 | Images written for two different list entries go to different files |
| Pipeline.OutputsDistinct | src/main.rs:36-49 | Over the whole list, no file is written twice, and every image belongs to an entry of the list |
| Pipeline.OutputsAppend | src/main.rs:36-49 | The images written for a list are those written for its parts, in order |
| Pipeline.OutputsCover | src/main.rs:36-49 | Every entry of the character list contributes exactly its pairing-rule images, after those of the entries before it and before those after it |
| Pipeline.ExportedFiles | src/main.rs:6-50 | Every file the program writes has its own name, and that name is the name of an ASCII character |

## Left out

- Each glyph record's character is the first character of its decoded `unicode` attribute, as the source keeps it. A ligature record such as `unicode="ff"` is filed under 'f' and replaces an earlier 'f' glyph. Decoding the attribute itself is not modelled.
- Reading the font (`svg::open`, the `Event::Tag` scan), decoding the `unicode` attribute (`html_escape`), parsing `horiz-adv-x`, and the `unwrap`s on those steps are not modelled: glyph records arrive already decoded.
- Path parsing and writing (`Data::parse`, `Data::from`) are not modelled: commands arrive parsed, and outputs carry them as values.
- Building and saving the document (`Document`, `Rectangle`, `svg::save`) is not modelled: an `Output` records the file name, view box size, background flag and path instead.
- Coordinates are exact reals. `f32` rounding, NaN and overflow to infinity are not modelled.
- `HashMap` is a `map`; its hashing and capacity are not modelled.
- The generic `FnMut` callback of `for_each_command` is not modelled as a higher-order value. Each pass runs the traversal's loop with its own callback body.
- Geometry.Rect.Width: requires a non-empty Rect. On a Rect that took in no point the source computes -inf - +inf; the model has no infinities.
- Geometry.Rect.Height: requires a non-empty Rect, for the same reason.
- Transform.FlipAndAlignPath: requires a non-empty reference Rect, because on the ±infinity Rect the source computes a NaN offset and the model has no infinities.
- Pipeline.ProcessGlyph: requires a non-empty reference Rect. The source calls `process_glyph` with the ±infinity Rect when the reference glyph samples no point; the model stops earlier with `EmptyReference`.
- Pipeline.ExportGlyphs: requires a non-empty reference Rect, for the same reason.
- Pipeline.ExpectedExport: gives `Err(EmptyReference)` when the reference glyph has no sampled point. The source does not stop there: it goes on with the ±infinity Rect and writes NaN coordinates and an infinite view box, which the model, having no infinities, cannot state.
- Pipeline.Export: stops with `EmptyReference` when the reference glyph has no sampled point. The source would go on and write NaN coordinates and an infinite view box.
