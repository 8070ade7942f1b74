# Observation-block grouping of the RubinTV guide scraper

This project models in Dafny the core of the block scraper behind the RubinTV
observation guide. The scraper loads the LSSTCam exposure records in exposure
order. It fills a `delay` column with the gap between each exposure and the
one before it. Then it cuts the exposure table into *observation blocks*. A
block is a contiguous run of exposures that share a `science_program`, where
each gap is below `max_gap` (15 minutes by default). For each block the
scraper emits a tuple `(program, seq0, seq1, begin, end)`. It also writes the
block's number into the table's `block` column.

Everything is in `scrape_blocks.dfy`, module `ScrapeBlocks`:

- `Exposure` is one table row: `program`, `seqNum`, `begin`, `end`, `delay`.
  Times and gaps are integers in milliseconds.
- The table is an `array<Exposure>`. The `block` column is an `array<int>`
  of the same length.
- `ComputeDelays` and `GroupIntoBlocks` update those arrays in place, as the
  source does. Each method is proved against a specification function on the
  rows. `WithDelays` specifies the delay column. `Spans`, `Blocks` and `Labels`
  specify the blocks' row ranges, the emitted tuples and the `block` column.
- `Scan` states the loop's state after a prefix of the rows. The lemmas
  prove the properties the scraper relies on: the blocks tile the table, the
  exact rule for where a block starts, and how the label column agrees with
  the tuples.

The model keeps these behaviours of the source as they are:

- the last row always closes the final block and belongs to it, whatever its
  program or gap;
- a tuple takes `program`, `seq1` and `end` from its block's last row, so a
  final block that absorbed a row of another program reports that program;
- a table of one row yields no block, and its label stays -999;
- an empty table fails when the first row is read, so the grouping requires
  at least one row.

## Model

| member | source | states |
|---|---|---|
| `ScrapeBlocks.DelayRule` | scrape_blocks.py:157-158 | Proof step that unfolds `WithDelays` for one row: the first row's delay is 0, and row i's delay (i ≥ 1) is its begin minus the previous row's end. No other column changes. |
| `ScrapeBlocks.DelaysIdempotent` | scrape_blocks.py:158 | The delay column depends only on begin and end, so computing it twice gives the same table as computing it once. |
| `ScrapeBlocks.DelaysNonNegativeIffNoOverlap` | scrape_blocks.py:158 | Every delay is non-negative exactly when no exposure begins before the previous one ended. |
| `ScrapeBlocks.ComputeDelays` | scrape_blocks.py:157-158 | Sets the delay column to 0, then overwrites rows 1.. with begin minus the previous end, in place. The new table equals `WithDelays` of the old one. |
| `ScrapeBlocks.JoinsPrevious` | scrape_blocks.py:89-90 | A row that joins the open block has the previous row's program. Once its delay is filled, it joins exactly when its program equals the previous row's and its begin minus the previous row's end is below `maxGap`. |
| `ScrapeBlocks.Scan` | scrape_blocks.py:82-114 | After the loop has seen rows 1..i-1, the closed blocks tile exactly the rows before the open block's first row, and that row comes before i. |
| `ScrapeBlocks.Spans` | scrape_blocks.py:80-116 | For a table of n ≥ 2 rows, the blocks tile rows 0..n-1 in order. The first starts at row 0, each later one right after the previous one's last row, and the last ends at row n-1. A table of one row has no block. |
| `ScrapeBlocks.ScanStarts` | scrape_blocks.py:89-94 | Among the rows seen so far, a block starts at row j ≥ 1 exactly when row j does not join the row before it. |
| `ScrapeBlocks.StartRule` | scrape_blocks.py:89-94 | For 1 ≤ i ≤ n-2, a block starts at row i if and only if its program differs from row i-1's or its delay is at least `maxGap`. |
| `ScrapeBlocks.LastRowAbsorbed` | scrape_blocks.py:91-97 | The last row never starts a block. It is the last row of the final block, and that block also holds an earlier row. |
| `ScrapeBlocks.LabelsMatchBlocks` | scrape_blocks.py:107-110 | Every row of the k-th emitted block is labelled k. |
| `ScrapeBlocks.LabelsRange` | scrape_blocks.py:77-78 | With n ≥ 2 rows, row 0 is labelled 0, the last row gets the last block's number, and every label is a block number in [0, number of blocks). With one row there is no block and the label stays -999. |
| `ScrapeBlocks.LabelStep` | scrape_blocks.py:110-114 | Row i's label is row i-1's label plus one when row i is not the last row and its program differs or its delay is at least `maxGap`. Otherwise it equals row i-1's label. So labels never decrease and never skip a number. |
| `ScrapeBlocks.RowsInsideBlockJoin` | scrape_blocks.py:89-94 | Inside a block, every row after the first has the previous row's program and a gap below `maxGap`. The table's last row is the exception. |
| `ScrapeBlocks.BlockProgramUniform` | scrape_blocks.py:100-106 | Every row of a block other than the final one has the program its tuple reports. |
| `ScrapeBlocks.BlockOf` | scrape_blocks.py:100-106 | A block's tuple takes `program`, `seq1` and `end` from the block's last row, and `seq0` and `begin` from its first row. |
| `ScrapeBlocks.BlockEndpoints` | scrape_blocks.py:97-106 | Every tuple takes `program`, `seq1` and `end` from its block's last row, and `seq0` and `begin` from its block's first row. The first tuple starts at row 0, the last tuple ends at the last row, and each later tuple's `seq0` is that of the row after the previous block's last row. |
| `ScrapeBlocks.FinalBlockTakesLastProgram` | scrape_blocks.py:97-101 | Two rows of programs "A" and "B" form one block that reports program "B". |
| `ScrapeBlocks.MarkRows` | scrape_blocks.py:110 | Slice assignment: writes the block number over rows first..last and changes no other entry of the column. |
| `ScrapeBlocks.GroupIntoBlocks` | scrape_blocks.py:60-116 | Sets every label to -999, then walks the rows once. It returns exactly `Blocks` of the table and leaves the block column equal to `Labels`. Only the block column changes. |
| `ScrapeBlocks.DelaysThenBlocks` | scrape_blocks.py:156-161 | Fills the delays, then groups with the default 15-minute `max_gap`. The result is `Blocks` and `Labels` of the table with its delays filled. |

## Left out

- `query_exposures` (the Butler query, the `QTable` build and the `day_obs` filter) is database I/O. The model starts from the loaded rows.
- `export_blocks_to_json` and the prints in `main` are file output and an astropy time formatter. They are not modelled.
- `cdb.py` is an HTTP client with caching and a randomised retry delay. It is network plumbing and is not part of this model.
- Astropy `Time` and `Quantity` arithmetic is floating point in minutes. The model uses exact integers in milliseconds, and `max_gap` defaults to 900000 ms. Rounding in the floating-point gap is not modelled.
- GroupIntoBlocks: the source creates the `block` column itself. The model takes a column array of the table's length and first sets every entry to -999, which is the same result.
- GroupIntoBlocks: an empty table raises `IndexError` at `table[0]` in the source. The model requires at least one row instead of modelling the exception.
- The web guide's JavaScript (timeline, day segmentation, description lookup, fuzzy search) is a separate component of the guide and is outside this model.
