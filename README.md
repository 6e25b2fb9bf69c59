# NuSTAR instrument-map core, modelled in Dafny

This project models the core of `instrmap.py` from nuskybgd, the NuSTAR
background tool. That core builds the focal-plane pixel map of one module
(FPMA or FPMB) and removes bad pixels from the instrument map:

- **Pixel-position resolver** (`get_caldb_pixpos`).
  - For every raw pixel of every detector table in the PIXPOS calibration file, the usable rows add their grade-weighted 7 x 7 probability patches into a scratch grid.
  - The scratch grid is merged into a running maximum over the 360 x 360 focal-plane grid, by strict comparison.
  - Each cell records the raw-pixel id (`rawx + 32 rawy`) and the detector index of the raw pixel that last raised its maximum.
  - Both grids are then aligned by (-1, -1) with wrap-around.
- **Bad-pixel collector** (`get_badpix_exts`). It sorts the tables of bad-pixel files into the lists of module A and module B, by the TELESCOP and INSTRUME keywords of each file and the XTENSION, EXTNAME and DETNAM keywords of each table.
- **Bad-pixel applicator** (`apply_badpix`).
  - Starting from a copy of the instrument map, every record of every BADPIX table zeroes the cells resolved to its raw pixel and detector, if it disqualifies: its interval exceeds 80% of the observation, or it is flagged.
  - After each record, every positive cell gains its detector index.
- **Constant tables**: `DETNAM` (detector names to indices) and `GRADE_WT` (event-grade weights).

Modules:

| file | module | contents |
|---|---|---|
| `fits.dfy` | `Fits` | header cards, header-data units, and Python's `in`, `replace` and `int` on card text |
| `tables.dfy` | `Tables` | `DETNAM`, `GRADE_WT`, Python list indexing into `GRADE_WT`, the raw-pixel id |
| `alignment.dfy` | `Alignment` | `shift_image` for an integer offset, as a cyclic roll |
| `pixpos.dfy` | `PixPos` | the resolver, on `array2` grids, specified cell by cell |
| `applicator.dfy` | `Applicator` | the applicator, on `array2` grids, specified cell by cell |
| `collector.dfy` | `Collector` | the collector, on sequences of header-data units |

Both grid algorithms are specified one cell at a time. In the resolver, `Candidates` lists, in loop order, the scratch mass each raw pixel offers one cell, and `Run` folds the strict-maximum merge over that list. In the applicator, `ApplyTables` folds every record of every processed table over one cell.

Preconditions stand for the cases where the source raises an exception:

- a contributing row whose grade or anchor cannot be indexed or sliced;
- a numeric EXTNAME in a unit the source reads: any unit of a PIXPOS or BADPIX file given to the resolver or the applicator, and a BINTABLE unit of a NuSTAR FPMA or FPMB file given to the collector (the units of other files are never read);
- a selected PIXPOS table whose DETNAM is not `DET` followed by digits;
- non-numeric TSTART or TSTOP;
- a bad-pixel file with no primary unit.

## Model

| member | source | states |
|---|---|---|
| `Tables.GradeWeight` | instrmap.py:14-19 | the weight of grade g follows Python indexing (negative grades from the end) and lies in (0, 1] |
| `Tables.RawIdDecodes` | instrmap.py:96 | `ix + 32 iy` lies in [0, 1023] and gives back ix (mod 32) and iy (div 32) |
| `Tables.RawIdInjective` | instrmap.py:96 | two raw pixels of a detector never share an id |
| `Tables.RawId` | instrmap.py:96 | the id of raw pixel (x, y) is x + 32 y |
| `PixPos.DetIndexMatchesTable` | instrmap.py:72 | `int(name.replace('DET', ''))` of every name in `DETNAM` (line 11) is that name's index in the table, so the resolver's detector indices agree with the ones `apply_badpix` compares against |
| `PixPos.DetIndexOfKnownName` | instrmap.py:72 | a selected PIXPOS table whose DETNAM is DET0..DET3 parses, and resolves to the `DETNAM` index of that name |
| `PixPos.PixposSelected` | instrmap.py:68-70 | a unit is resolved when it has an EXTNAME containing 'PIXPOS' and a DETNAM |
| `PixPos.DetIndex` | instrmap.py:72 | the detector index is the decimal number left after deleting 'DET' from DETNAM |
| `PixPos.Contributes` | instrmap.py:77-85 | a row contributes to raw pixel (ix, iy) when its anchor is not -1, its RAWX and RAWY are ix and iy, its grade is at most 26 and its PDF has no NaN |
| `PixPos.Contribution` | instrmap.py:89-91 | a contributing row adds `pdf[r - ref_y][c - ref_x] * GRADE_WT[grade]` to the cells of its 7 x 7 block and nothing elsewhere |
| `PixPos.Step` | instrmap.py:93-97 | a scratch mass strictly larger than the cell's maximum replaces it, together with the raw-pixel id and detector; otherwise the cell is kept |
| `PixPos.Mass` | instrmap.py:82-91 | the scratch cell (r, c) of raw pixel (ix, iy) starts at 0 and gains the contribution of every row that passes the filter, in table order |
| `PixPos.Run` | instrmap.py:74-97 | a cell after a sequence of merges: each offer, in order, takes the cell when its mass is strictly larger than the cell's current maximum |
| `PixPos.Resolved` | instrmap.py:63-97 | the final state of a cell: the merges of every selected table's offers, in unit order, from mass 0 and the -1 markers |
| `PixPos.AddPatch` | instrmap.py:89-91 | each scratch cell gains exactly its contribution: `pdf[r - ref_y][c - ref_x] * GRADE_WT[grade]` inside the 7 x 7 block, 0 elsewhere |
| `PixPos.ScratchGrid` | instrmap.py:77-91 | the scratch grid of (ix, iy) is, in every cell, the sum over the contributing rows, in table order |
| `PixPos.MassAppend` | instrmap.py:84-91 | contributions of overlapping rows add up over any split of the table |
| `PixPos.MassIgnoresRow` | instrmap.py:77-85 | a row that fails the filter (anchor -1, other raw pixel, grade above 26, NaN in the PDF) changes no scratch cell, wherever it stands |
| `PixPos.MassOutsideBlocks` | instrmap.py:87-91 | a cell outside the 7 x 7 block of every contributing row stays 0 |
| `PixPos.Merge` | instrmap.py:93-97 | each cell takes the scratch mass, the raw-pixel id and the detector index where the scratch mass is strictly larger, and is left as it was elsewhere |
| `PixPos.RunAppend` | instrmap.py:67-97 | merging table after table is merging the concatenation of their offers |
| `PixPos.RunMaximum` | instrmap.py:93-95 | the merged mass is at least the start and every offer, and equals the start or one of the offers |
| `PixPos.RunUnchanged` | instrmap.py:93-97 | a cell keeps its state if and only if no offer is strictly larger (ties never overwrite) |
| `PixPos.RunFirstReach` | instrmap.py:93-97 | a changed cell holds the id and detector of the first raw pixel offering its final mass; every earlier offer is strictly smaller |
| `PixPos.ColumnCandidates` | instrmap.py:75-97 | the inner loop offers, in order, the ids `ix + 32 iy` for iy = 0..n-1 with the table's detector |
| `PixPos.ExtCandidates` | instrmap.py:74-97 | one table offers 32 x 32 masses, each with an id in [0, 1023] and the table's detector index |
| `PixPos.Candidates` | instrmap.py:67-97 | every offer to a cell carries an id in [0, 1023] and the detector index of a selected table |
| `PixPos.ResolvedSentinel` | instrmap.py:63-97 | a cell stays at -1 in both grids exactly when no raw pixel offers it a positive mass; otherwise it holds an id in [0, 1023] and a selected detector index |
| `PixPos.ResolveExtension` | instrmap.py:74-97 | the nested raw-pixel loops leave every cell equal to the merge of its old state with the table's offers |
| `PixPos.ResolveAll` | instrmap.py:63-97 | from the -1, -1, 0 start, every cell ends as the merge over every selected table |
| `PixPos.GetPixelPositions` | instrmap.py:63-102 | returned cell (r, c) holds the id and detector resolved for cell (r + 1, c + 1); the wrap from the last row and column to the first is a property of the cyclic roll that models `shift_image` (see Left out) |
| `Alignment.Shift` | instrmap.py:22-24 | the cell at (i, j) moves to (i + dy, j + dx) modulo the grid's size |
| `Alignment.ShiftRoundTrip` | instrmap.py:22-24 | shifting by (dy, dx) and then by (-dy, -dx) gives back the grid; a property of the cyclic roll that models `shift_image`, not of scipy's edge handling (see Left out) |
| `Alignment.ShiftImage` | instrmap.py:22-24 | the new array is the rolled grid of the input |
| `Collector.ModuleOf` | instrmap.py:111-130 | a file has a module if and only if TELESCOP is NuSTAR and INSTRUME is FPMA or FPMB; FPMA gives A and FPMB gives B |
| `Collector.TableAccepted` | instrmap.py:135-143 | a unit is collected when it is a BINTABLE, its EXTNAME contains 'BADPIX' exactly when `marked` holds (the source tests with `marked` false), and its DETNAM is a key of `DETNAM` |
| `Collector.Accepted` | instrmap.py:132-143 | the units of a list that pass the table test, in their order |
| `Collector.Collected` | instrmap.py:107-146 | a module's list: for each file of that module in file order, its later units that pass the table test |
| `Collector.AppendAccepted` | instrmap.py:132-146 | the loop over a file's later units appends exactly the accepted ones, in order |
| `Collector.GetBadpixExts` | instrmap.py:105-148 | the result always has keys A and B, each holding the accepted units of its module's files, in file and unit order |
| `Collector.AcceptedSound` | instrmap.py:135-143 | every unit accepted from one file passes the table test |
| `Collector.CollectedSound` | instrmap.py:132-143 | every collected unit is a BINTABLE whose EXTNAME lacks 'BADPIX' and whose DETNAM is known |
| `Collector.AcceptedComplete` | instrmap.py:132-143 | every unit of a file that passes the table test is accepted |
| `Collector.CollectedComplete` | instrmap.py:105-148 | every later unit of a file of module A or B that passes the test is in that module's list |
| `Collector.AsWrittenNeverApplied` | instrmap.py:135-136 | as written, no collected unit is a table that `apply_badpix` processes |
| `Collector.AsWrittenSkipsBadpixTable` | instrmap.py:135-137 | a NuSTAR FPMA file with one BADPIX table for DET0 contributes nothing as written, but that table under the intended test |
| `Collector.SkippedFileNotRead` | instrmap.py:111-130 | a file of another telescope is skipped before its units are read, so even a BINTABLE with a numeric EXTNAME is admitted and contributes nothing |
| `Collector.IntendedFeedsApplicator` | instrmap.py:135-136 | under the intended test, every collected unit is a table that `apply_badpix` processes |
| `Applicator.Duration` | instrmap.py:156-159 | the observation length is known if and only if the primary header has both TSTART and TSTOP |
| `Applicator.Disqualifies` | instrmap.py:179-180 | a record disqualifies when the observation length is known and its interval exceeds 80% of it, or when it is flagged |
| `Applicator.BadpixTable` | instrmap.py:162-165 | a unit is processed when its EXTNAME contains 'BADPIX' and its DETNAM is a key of `DETNAM` |
| `Applicator.Hits` | instrmap.py:179-182 | a record hits a cell when it disqualifies, the cell's resolved id is the record's `x + 32 y`, and the cell's detector is the table's |
| `Applicator.ApplyRecords` | instrmap.py:178-186 | a cell after the records of one table, one `RecordStep` per record, in table order |
| `Applicator.ApplyTables` | instrmap.py:161-186 | a cell after every processed table of the file, in unit order; units that are not BADPIX tables of a known detector change nothing |
| `Applicator.RecordStep` | instrmap.py:179-186 | one record zeroes a cell it hits, then a positive cell gains its detector index |
| `Applicator.RawIdAsWritten` | instrmap.py:181 | the id `x + 32 y` with uint8 wrap-around of the product and the sum, as NumPy 2 computes it |
| `Applicator.DisqualifyBoundary` | instrmap.py:179-180 | an unflagged interval of exactly 80% does not disqualify; a flagged record always does |
| `Applicator.AsWrittenAliasesRows` | instrmap.py:181 | with byte-wide RAWX and RAWY the computed id of (x, y) is that of (x, y mod 8), so for y >= 8 it names the wrong pixel |
| `Applicator.RecordsZeroed` | instrmap.py:178-186 | a cell that any record of a table hits ends that table at 0 |
| `Applicator.ZeroStaysZero` | instrmap.py:183-186 | a zero cell stays 0 through any records |
| `Applicator.RecordsUntouched` | instrmap.py:178-186 | a cell no record hits: a non-positive cell is unchanged, and a positive cell with a non-negative detector index gains that index once per record |
| `Applicator.RecordsUnresolved` | instrmap.py:178-186 | a cell no record hits whose detector index is at most 0 (an unresolved cell holds -1): it never grows, a positive value stays above the index, and a value above abs(det) times the number of records loses exactly that much |
| `Applicator.TablesZeroed` | instrmap.py:161-186 | a cell hit by any record of any processed table ends at 0 |
| `Applicator.TablesUntouched` | instrmap.py:161-186 | a positive cell with a non-negative detector index that no record hits ends at its base value plus its detector index times the number of records |
| `Applicator.TablesNonPositive` | instrmap.py:161-186 | a non-positive cell that no record of any processed table hits ends as it started |
| `Applicator.TablesUnresolved` | instrmap.py:161-186 | a cell with a detector index of at most 0 that no record hits never grows, and a value above abs(det) times the number of records ends lowered by exactly that much |
| `Applicator.ApplyRecord` | instrmap.py:179-186 | one record zeroes exactly the hit cells when it disqualifies, then adds `detnum` to every positive cell |
| `Applicator.ApplyBadpix` | instrmap.py:151-188 | a fresh grid of the map's shape, each cell being the base value after every record of every processed table |

## Left out

- FITS I/O (`pf.open`, header access, `writeto`): files are given as sequences of header-data units, and headers as maps from keyword to card.
- Locating calibration files through `CALDB` and the environment, `get_caldb_instrmap`, and the wall-clock timestamp: these are path construction and I/O around the core.
- The `__main__` driver block and `nuskybgd/conf.py` are not part of this model; they are environment checks and command sequencing.
- Diagnostic `print` calls are left out; they do not affect any result.
- NaN detection: a patch's PDF validity is the boolean `valid`. NaN values in the instrument map are not modelled.
- Floating point: weights, masses, times and map values are `real`. Float64 rounding, float32 storage and infinities are not modelled.
- Alignment.ShiftImage: `scipy.ndimage.shift` with mode 'wrap' and order 1 is modelled for integer offsets only, as an exact cyclic roll. Since scipy 1.6, mode 'wrap' extends the input as `d b c d | a b c d | b c a b` (its exact periodic mode is 'grid-wrap'), so at the last row and column `shift_image` takes input index 1, not 0. The wrap-around cells of `GetPixelPositions` and the round trip of `ShiftRoundTrip` hold of the roll, not of that edge handling.
- Applicator.Disqualifies: the flag test `flags[i][-2] is True` is an identity test on a numpy value; it is modelled as the record's boolean `severe`, without deciding what the identity test returns.
- PixPos.Merge: the guard `len(ii) > 0` is dropped, because `np.where` on a 2-D array always returns two index arrays.
- PixPos.RowOk: anchors outside 0..353 and grades outside -27..26 in a contributing row are excluded by precondition. NumPy raises for most of them, and slice truncation at the grid's edge is not modelled.
- PixPos.DetIndex: the index is an unbounded natural number, while `pixmap` and `detnum` are int32 arrays (lines 63-64). A DETNAM whose number is 2147483648 or more is stored as written in the model; the source raises OverflowError at line 96 under NumPy 2 and wraps the value to 32 bits under NumPy 1.x. The int32 width of the grids is not modelled.
- PixPos.DetIndex: `int()` is modelled only for names of the form `DET` followed by decimal digits. Other forms `int()` accepts (signs, surrounding spaces, underscores) are excluded by precondition.
- Applicator.ApplyBadpix: the pixel ids are compared with the corrected `RawId`, which is also what NumPy 1.x computes at line 181. The byte wrap-around that NumPy 2 gives is modelled separately, as `RawIdAsWritten` (see Findings).
- Collector.GetBadpixExts: the EXTNAME test is modelled as written. The intended test is stated through `Collected(..., true)` (see Findings).

## Findings

| source | as written | input that shows it | evidently intended | confidence | as-written member | corrected member |
|---|---|---|---|---|---|---|
| instrmap.py:181 | `x[i] + y[i] * 32`, where RAWX and RAWY are unsigned-byte columns of the BADPIX table; under NumPy 2 promotion (NEP 50) a uint8 scalar times a Python int stays uint8, so the id is computed modulo 256 (NumPy 1.x promotes to int64 and computes the right id) | a record for RAWX 0, RAWY 8: the id is 0, which is raw pixel (0, 0), not 256 | the raw-pixel id `x + 32 y` in [0, 1023], as the resolver computes it | medium: holds only under NumPy 2 or later and only if the columns are uint8 in the files; not executed | `Applicator.AsWrittenAliasesRows` | `Tables.RawIdDecodes` |
| instrmap.py:135-136 | `not (XTENSION == 'BINTABLE' and 'BADPIX' not in EXTNAME)` skips every table whose EXTNAME contains 'BADPIX' | a NuSTAR FPMA file whose only table is a BINTABLE named BADPIX for DET0: nothing is collected | collect the BADPIX tables, the ones `apply_badpix` processes | high; not executed | `Collector.AsWrittenSkipsBadpixTable` | `Collector.IntendedFeedsApplicator` |
