# Esri ASCII grid reader: random-access engine

A Dafny model of the random-access core of `EsriASCIIReader` in
`src/ascii_file.rs`, together with its consuming iterator.

An Esri ASCII grid file has a short header and then a data section. The data
section has `nrows` lines of `ncols` whitespace-separated values, and the first
line is the northernmost row. The reader answers `get_index(row, col)` with
bottom-up raster rows, so row 0 is the southernmost row, stored on the last
physical line. Raster row `row` lives on physical line `nrows - 1 - row`.

The reader keeps two optional accelerators:

* the **row cache** (`line_cache`), a map from raster row to that row's parsed
  values, filled on first access and never evicted;
* the **index** (`line_start_cache`), built by `build_index`, holding the byte
  offset of every row's line. `build_index` scans the lines top-down and then
  reverses the list, so the index is addressed by raster row.

The model treats the data section as a sequence of `Line`s. Each `Line` holds
its parsed values and the byte width of its text. Line `i` starts at
`dataStart` plus the widths of the earlier lines, each plus one for its newline.
Every operation is a pure function from the file and the reader state to an
`Outcome`. An outcome is `Ok`, an `io::Error` kind, or `Panic` where the Rust
code unwraps `None`, indexes out of range or underflows a `usize`. Values are a
type parameter, because the engine does no arithmetic on them.

Files:

* `outcomes.dfy`: `Outcome`, `Option`, `Min`.
* `data_section.dfy`: line offsets, seeking, the `build_index` scan, `Reverse`.
* `ascii_reader.dfy`: the reader state, its agreement predicate `Valid`,
  `BuildIndex`, `GetIndex`, `Get` and the integer part of `GetInterpolate`.
* `reader_lemmas.dfy`: lookups read the right line on every path, the index
  and cache are pure optimisations, and the documented 4x4 example.
* `raster_iterator.dfy`: `into_iter` and `next`, and the order and values
  they produce.

The central theorem is `ReaderLemmas.GetIndexReadsPhysicalLine`. On any reader
that agrees with the file, `get_index(row, col)` returns
`lines[nrows-1-row].values[col]`, whether a cache hit, an indexed seek or a
linear scan serves it. The reader stays in agreement afterwards. The iterator
yields the same values (`RasterIterator.IterateAgreesWithGetIndex`).

## Model

| member | source | states |
|---|---|---|
| DataSection.SeekLinesAtLineStart | src/ascii_file.rs:107-110 | Seeking to the recorded start offset of physical line `i` resumes reading exactly at line `i`. |
| DataSection.ScanStarts | src/ascii_file.rs:59-66 | The scan loop succeeds exactly when at least `n` lines remain. It then returns `n` offsets, and offset `i` is the start of line `i`. Otherwise it fails with `UnexpectedEof`. |
| DataSection.Reverse | src/ascii_file.rs:67 | Reversal keeps the length, and element `i` is element `len-1-i` of the input. |
| AsciiReader.PhysicalLine | src/ascii_file.rs:106 | The top-down/bottom-up flip maps `[0, nrows)` onto itself and undoes itself. |
| AsciiReader.FromFileValid | src/ascii_file.rs:36-47 | A newly opened reader has empty caches and agrees with any data section. |
| AsciiReader.BuildIndex | src/ascii_file.rs:54-71 | As written: if the row cache is non-empty, it returns `Ok` and changes nothing. Otherwise it succeeds exactly when the file has at least `nrows` lines, and then `line_start_cache[row]` is the start of physical line `nrows-1-row`. It never panics, only fails with `UnexpectedEof`, and changes nothing but the index. |
| AsciiReader.BuildIndexIntended | src/ascii_file.rs:54-71 | The corrected guard: it is a no-op once an index exists. Every successful call leaves an index of exactly `nrows` correct offsets. |
| AsciiReader.Scan | src/ascii_file.rs:56-68 | The scan-and-reverse body: it succeeds exactly when there are `nrows` lines, and then the index is addressed by raster row. Otherwise it fails with `UnexpectedEof` and leaves the state unchanged. |
| AsciiReader.GetIndex | src/ascii_file.rs:92-118 | It returns an error exactly when `row >= nrows` or `col >= ncols`, and that error is `InvalidInput`. On success only the cache changes. It gains an entry for `row` with at least `col+1` values, and every other entry is kept. A cache hit returns the reader untouched. |
| AsciiReader.Get | src/ascii_file.rs:141-145 | It returns `None` exactly when the header maps the point outside the raster. Otherwise it delegates to `get_index` with `(row, col)`: it succeeds exactly when that call does, and then returns its value and state. It never returns an error. |
| AsciiReader.ReadCells | src/ascii_file.rs:183-186 | The chain of unwrapped `get_index` calls never yields an error. It completes only when every requested cell is in bounds, and then it returns one value per cell and keeps the header. |
| AsciiReader.GetInterpolate | src/ascii_file.rs:169-187 | It returns `None` exactly when the point fails the bounds test, and then leaves the reader unchanged. Inside the raster it panics when `index_pos` finds no position for the clamped cell. Corners come back only for grids of at least 2x2 where `index_pos` succeeded. |
| ReaderLemmas.FetchLineReadsPhysicalLine | src/ascii_file.rs:103-111 | On a cache miss, both the scan path and the indexed path read physical line `nrows-1-row`. They read nothing only when the file is too short. |
| ReaderLemmas.GetIndexReadsPhysicalLine | src/ascii_file.rs:92-118 | On a consistent reader, it fails exactly out of bounds. It succeeds exactly when the row's line exists, returns `lines[nrows-1-row][col]`, and keeps the reader consistent. |
| ReaderLemmas.IndexIsPureOptimisation | src/ascii_file.rs:99-111 | Any two consistent readers with the same header give the same `get_index` result. Cache and index contents never change an answer. |
| ReaderLemmas.BuildIndexKeepsValid | src/ascii_file.rs:54-71 | `build_index` as written leaves a consistent reader consistent. |
| ReaderLemmas.BuildIndexIntendedKeepsValid | src/ascii_file.rs:54-71 | The corrected `build_index` leaves a consistent reader consistent. |
| ReaderLemmas.BuildIndexPreservesLookups | src/ascii_file.rs:54-71 | After `build_index` as written, every `get_index` returns what it returned before. |
| ReaderLemmas.BuildIndexIntendedPreservesLookups | src/ascii_file.rs:54-71 | After the corrected `build_index`, every `get_index` returns what it returned before. |
| ReaderLemmas.BuildIndexIdempotent | src/ascii_file.rs:55-70 | Calling `build_index` as written twice yields the same state as calling it once. |
| ReaderLemmas.BuildIndexIntendedIdempotent | src/ascii_file.rs:55-70 | Calling the corrected `build_index` twice yields the same state as calling it once. |
| ReaderLemmas.BuildIndexSkippedAfterLookup | src/ascii_file.rs:55 | Take a file of one column and two rows and look up row 0. `build_index` as written then returns `Ok` but builds no index, and row 1 is still uncached, so its lookup goes through the linear scan and returns the first line's value. The corrected version builds both offsets. |
| ReaderLemmas.GetReturnsCell | src/ascii_file.rs:141-145 | For an in-range cell, `get` returns exactly that cell's stored value, not an interpolated one. |
| ReaderLemmas.ReadCellsStoredValues | src/ascii_file.rs:183-186 | On a consistent reader, a chain of in-bounds reads succeeds. Each read returns the stored value of its cell, and the final reader is consistent. |
| ReaderLemmas.GetInterpolateReadsCorners | src/ascii_file.rs:177-187 | With the lower-left cell clamped to `ncols-2`, `nrows-2`, all four `get_index` calls on a grid of at least 2x2 are in bounds and succeed. The call succeeds exactly when the `index_pos` unwrap does, and then it returns the four stored corner values. |
| ReaderLemmas.DocumentedGrid | src/ascii_file.rs:81-84 | On the documented 4x4 grid, cell (0,0) is 141.2700042724609375 from the last line and cell (3,3) is 135.44000244140625 from the first line. |
| ReaderLemmas.DocumentedGridIndexed | src/ascii_file.rs:81-84 | The same two cells, read after `build_index`, give the same values. |
| RasterIterator.IntoIter | src/ascii_file.rs:234-254 | It starts at column 0 of physical line 0 with the rest of the file pending. It panics exactly when the data section is empty. |
| RasterIterator.Next | src/ascii_file.rs:266-286 | Each item reports bottom-up row `nrows-1-line`, stays in range and strictly advances the position. It ends only past the last column of the last line. Calling it again after the end panics, so the iterator is not fused. |
| RasterIterator.Drain | src/ascii_file.rs:266-286 | Calling `next` until `None` terminates, and every reported row is below `nrows`. |
| RasterIterator.NextWithinLine | src/ascii_file.rs:279-285 | Before the last column of a line, `next` yields the value under the cursor with its bottom-up row and moves one column right. |
| RasterIterator.NextAcrossLine | src/ascii_file.rs:268-278 | Past the last column of a line that is not the last one, `next` behaves exactly like `next` from column 0 of the following line. |
| RasterIterator.LinesFromFaithful | src/ascii_file.rs:204-207 | Every item of the line-by-line order names an in-range cell and carries `lines[nrows-1-row][col]`. |
| RasterIterator.LinesFromLength | src/ascii_file.rs:266-275 | The line-by-line order from line `p` holds `ncols` items for each of the `nrows-p` remaining lines. |
| RasterIterator.LinesFromAt | src/ascii_file.rs:204-207 | In the order that starts at line `p`, cell `c` of physical line `q` comes after the `ncols` cells of each line from `p` to `q-1`. It carries raster row `nrows-1-q` and value `lines[q][c]`. |
| RasterIterator.DrainFrom | src/ascii_file.rs:266-285 | From column `c` of physical line `p`, the iterator yields the rest of that line, then every later line, then ends. |
| RasterIterator.DrainWithinLine | src/ascii_file.rs:279-285 | From a column before the end of physical line `p`, draining yields the rest of that line and then every later line in order, and ends. |
| RasterIterator.DrainAcrossLine | src/ascii_file.rs:268-278 | At the end of a line that is not the last one, draining yields every later line in order. |
| RasterIterator.IterateYieldsRasterOrder | src/ascii_file.rs:204-207 | The full iteration is exactly the line-by-line order, with `nrows*ncols` items. |
| RasterIterator.IterateCellAt | src/ascii_file.rs:204-207 | Item `q*ncols + c` reports raster row `nrows-1-q` and column `c`, with value `lines[q][c]`. Reported rows fall from `nrows-1` to 0, and columns rise from 0 within a row. |
| RasterIterator.IterateAgreesWithGetIndex | src/ascii_file.rs:241-251 | Every `(row, col, value)` the iterator yields is what `get_index(row, col)` returns on any consistent reader. |

## Findings

| source | as written | input that shows it | evidently intended | confidence | as-written member | corrected member |
|---|---|---|---|---|---|---|
| src/ascii_file.rs:55 | `build_index` scans only when `line_cache` (the row cache) is empty | Open a file of one column and two rows and call `get_index(0, 0)`, then `build_index()`: it returns `Ok` and `line_start_cache` stays empty, so `get_index(1, 0)` reads its row through the linear scan | Guard on `line_start_cache.is_empty()`, so a successful `build_index` always leaves an index and a second call is a no-op | medium; not executed | AsciiReader.BuildIndex (shown by ReaderLemmas.BuildIndexSkippedAfterLookup) | AsciiReader.BuildIndexIntended |

The discrepancy affects only speed. Lookup results are the same with either
guard (`BuildIndexPreservesLookups`, `BuildIndexIntendedPreservesLookups`).

## Left out

- The header (`EsriASCIIRasterHeader`, `from_reader`, `index_of`, `index_pos`, the bounds functions) is not part of this model. `Get` takes the result of `index_of` as a parameter. `GetInterpolate` takes the outcome of the bounds test, the floored cell offsets and whether `index_pos` found the clamped cell as parameters.
- AsciiReader.GetInterpolate: whether `index_pos(ll_row, ll_col).unwrap()` succeeds is a parameter (`posFound`), because the header is not modelled. `GetInterpolateReadsCorners` therefore promises success only when it does. The source passes `(ll_row, ll_col)` where the iterator's doc example calls `index_pos(col, row)`. If `index_pos` takes the column first, a 2-column grid with `ll_row >= 2` would panic there. This is an observation from reading the code and was not executed.
- The bilinear blend and its weights in `get_interpolate` are f64 arithmetic and are not modelled. `GetInterpolate` returns the four corner values it would blend.
- Tokenising a line and parsing floats (`split_whitespace`, `parse().unwrap()`) are not modelled. A `Line` carries its parsed values. The lemmas assume `WellFormed`, meaning each of the first `nrows` lines holds exactly `ncols` values. Only the resulting out-of-range index is modelled, as `Panic`.
- I/O errors from `seek`, `stream_position` and line reads, such as invalid UTF-8, are not modelled. `BufReader` and stream positions become byte offsets into the sequence of lines.
- Line terminators are one byte (`\n`). With `\r\n`, each line would take one more byte; only that constant would change.
- `SeekLines` returns `None` for an offset that is not a line start; there the model panics. The Rust code would read a partial line instead. A consistent reader never seeks to such an offset (`FetchLineReadsPhysicalLine`).
- `usize` and `u64` are unbounded naturals. A `usize` subtraction below zero panics, as in a debug build: `ncols - 2` and `nrows - 2` in `get_interpolate` on a grid under 2x2, and `nrows - 1 - current_row` in `next` once the row passes the last line. In `get_index`, `nrows - 1 - row` cannot underflow, because out-of-range rows are rejected first. Release-build wrap-around is not modelled.
- `into_iter` taking ownership, and its `rewind`, are not modelled. The iterator is a separate state built from the reader's header and the data lines.
- RasterIterator.IterateYieldsRasterOrder: assumes the header invariant `ncols > 0` and `nrows > 0`, which the header parser is expected to enforce. With `ncols == 0` the iterator as written would panic on the second line.
