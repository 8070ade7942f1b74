/** The exposure-to-block grouping pass of the block scraper.

    An exposure table is a sequence of rows in exposure order. The scraper
    first fills a `delay` column with the gap between each exposure and the
    one before it, then walks the table once and cuts it into contiguous
    observation blocks: a block goes on while consecutive rows share a
    science program and the gap stays below `maxGap`. For each block it emits
    a tuple (program, seq0, seq1, begin, end) and writes the block's number
    into the table's `block` column.

    Times and gaps are integers (milliseconds).
 */
module ScrapeBlocks {

  /** One row of the exposure table: the columns the grouping pass reads. */
  datatype Exposure = Exposure(program: string, seqNum: int, begin: int, end: int, delay: int)

  /** One emitted observation block, the tuple (program, seq0, seq1, begin, end). */
  datatype Block = Block(program: string, seq0: int, seq1: int, begin: int, end: int)

  /** The rows `first..last` (both included) of one block. */
  datatype Span = Span(first: nat, last: nat)

  /** The loop's state: the blocks closed so far and the first row of the open block. */
  datatype ScanState = ScanState(closed: seq<Span>, open: nat)

  /** The value the `block` column holds before a row is assigned to a block. */
  const Unlabelled: int := -999

  /** The default `max_gap`, 15 minutes, in milliseconds. */
  const DefaultMaxGap: int := 15 * 60 * 1000

  // ---------------------------------------------------------------------------
  // The delay column

  /** The gap between exposure `i` and the one before it; 0 for the first row. */
  function GapBefore(rows: seq<Exposure>, i: nat): (gap: int)
    requires i < |rows|
  {
    if i == 0 then 0 else rows[i].begin - rows[i - 1].end
  }

  /** The table with its `delay` column filled in. */
  function WithDelays(rows: seq<Exposure>): (out: seq<Exposure>)
    ensures |out| == |rows|
  {
    seq(|rows|, i requires 0 <= i < |rows| => rows[i].(delay := GapBefore(rows, i)))
  }

  /** The delay column follows a fixed rule, and nothing else in the table changes. */
  lemma DelayRule(rows: seq<Exposure>)
    ensures |WithDelays(rows)| == |rows|
    ensures forall i :: 0 <= i < |rows| ==>
      WithDelays(rows)[i].program == rows[i].program &&
      WithDelays(rows)[i].seqNum == rows[i].seqNum &&
      WithDelays(rows)[i].begin == rows[i].begin &&
      WithDelays(rows)[i].end == rows[i].end
    ensures |rows| > 0 ==> WithDelays(rows)[0].delay == 0
    ensures forall i :: 1 <= i < |rows| ==> WithDelays(rows)[i].delay == rows[i].begin - rows[i - 1].end
  {
  }

  /** The delay column depends only on the begin and end columns, so filling it twice
      gives what filling it once gave. */
  lemma DelaysIdempotent(rows: seq<Exposure>)
    ensures WithDelays(WithDelays(rows)) == WithDelays(rows)
  {
    var once := WithDelays(rows);
    var twice := WithDelays(once);
    forall i | 0 <= i < |rows|
      ensures twice[i] == once[i]
    {
      if i > 0 {
        assert once[i - 1].end == rows[i - 1].end;
      }
    }
  }

  /** Every delay is non-negative exactly when no exposure begins before the previous one ended. */
  lemma DelaysNonNegativeIffNoOverlap(rows: seq<Exposure>)
    ensures (forall i :: 0 <= i < |rows| ==> WithDelays(rows)[i].delay >= 0) <==>
            (forall i :: 1 <= i < |rows| ==> rows[i - 1].end <= rows[i].begin)
  {
    if forall i :: 0 <= i < |rows| ==> WithDelays(rows)[i].delay >= 0 {
      forall i | 1 <= i < |rows|
        ensures rows[i - 1].end <= rows[i].begin
      {
        assert WithDelays(rows)[i].delay >= 0;
      }
    }
  }

  /** Fills the `delay` column in place: first 0 everywhere, then, from the second row on,
      the row's begin minus the previous row's end. */
  method ComputeDelays(table: array<Exposure>)
    modifies table
    ensures table[..] == WithDelays(old(table[..]))
  {
    ghost var before := table[..];
    for i := 0 to table.Length
      invariant forall j :: 0 <= j < i ==> table[j] == before[j].(delay := 0)
      invariant forall j :: i <= j < table.Length ==> table[j] == before[j]
    {
      table[i] := table[i].(delay := 0);
    }
    if table.Length > 0 {
      for i := 1 to table.Length
        invariant forall j :: 0 <= j < i ==> table[j] == WithDelays(before)[j]
        invariant forall j :: i <= j < table.Length ==> table[j] == before[j].(delay := 0)
      {
        table[i] := table[i].(delay := table[i].begin - table[i - 1].end);
      }
    }
    assert table[..] == WithDelays(before);
  }

  // ---------------------------------------------------------------------------
  // Grouping: the specification

  /** Row `i` continues the open block: same science program as the row before it,
      and a gap below `maxGap`. */
  predicate JoinsPrevious(rows: seq<Exposure>, maxGap: int, i: nat): (joins: bool)
    requires 0 < i < |rows|
    ensures joins ==> rows[i].program == rows[i - 1].program
    ensures rows[i].delay == GapBefore(rows, i) ==>
      (joins <==> rows[i].program == rows[i - 1].program && rows[i].begin - rows[i - 1].end < maxGap)
  {
    rows[i].program == rows[i - 1].program && rows[i].delay < maxGap
  }

  /** Later spans start after earlier spans end. */
  predicate Sorted(sp: seq<Span>)
  {
    forall j, k :: 0 <= j < k < |sp| ==> sp[j].last < sp[k].first
  }

  /** The spans cut rows `0..n-1` into contiguous, non-empty runs, in order, with no gap
      and no overlap. */
  predicate Tiling(sp: seq<Span>, n: nat)
  {
    (sp == [] <==> n == 0) &&
    (sp != [] ==> sp[0].first == 0 && sp[|sp| - 1].last == n - 1) &&
    (forall k :: 0 <= k < |sp| ==> sp[k].first <= sp[k].last < n) &&
    (forall j, k :: 0 <= j < |sp| && k == j + 1 < |sp| ==> sp[k].first == sp[j].last + 1)
  }

  /** In a tiling, span `j` ends before any later span `k` starts. */
  lemma {:induction false} SpanOrder(sp: seq<Span>, n: nat, j: nat, k: nat)
    requires Tiling(sp, n)
    requires j < k < |sp|
    ensures sp[j].last < sp[k].first
    decreases k - j
  {
    if j + 1 < k {
      SpanOrder(sp, n, j, k - 1);
    }
  }

  /** The spans of a tiling are sorted. */
  lemma TilingSorted(sp: seq<Span>, n: nat)
    requires Tiling(sp, n)
    ensures Sorted(sp)
  {
    forall j, k | 0 <= j < k < |sp|
      ensures sp[j].last < sp[k].first
    {
      SpanOrder(sp, n, j, k);
    }
  }

  /** Some span starts at row `i`. */
  predicate StartsAt(sp: seq<Span>, i: int)
  {
    exists k :: 0 <= k < |sp| && sp[k].first == i
  }

  /** The loop's state once it has looked at rows `1..i-1`, all of them before the last
      row: the closed blocks tile the rows before the open block. */
  function Scan(rows: seq<Exposure>, maxGap: int, i: nat): (s: ScanState)
    requires 1 <= i < |rows|
    ensures s.open < i
    ensures Tiling(s.closed, s.open)
    decreases i
  {
    if i == 1 then ScanState([], 0)
    else
      var prev := Scan(rows, maxGap, i - 1);
      if JoinsPrevious(rows, maxGap, i - 1) then prev
      else ScanState(prev.closed + [Span(prev.open, i - 2)], i - 1)
  }

  /** The blocks of the whole table. The last row always closes the final block and
      belongs to it; a table of one row has no block. */
  function Spans(rows: seq<Exposure>, maxGap: int): (sp: seq<Span>)
    requires |rows| >= 1
    ensures |rows| == 1 ==> sp == []
    ensures |rows| >= 2 ==> Tiling(sp, |rows|)
  {
    if |rows| == 1 then []
    else
      var s := Scan(rows, maxGap, |rows| - 1);
      s.closed + [Span(s.open, |rows| - 1)]
  }

  /** The tuple emitted for the rows of `s`: program, `seq1` and `end` from its last row,
      `seq0` and `begin` from its first row. */
  function BlockOf(rows: seq<Exposure>, s: Span): (b: Block)
    requires s.first <= s.last < |rows|
    ensures b.program == rows[s.last].program && b.seq1 == rows[s.last].seqNum && b.end == rows[s.last].end
    ensures b.seq0 == rows[s.first].seqNum && b.begin == rows[s.first].begin
  {
    Block(rows[s.last].program, rows[s.first].seqNum, rows[s.last].seqNum,
          rows[s.first].begin, rows[s.last].end)
  }

  /** The tuples of the spans `sp`, in order. */
  function BlocksOf(rows: seq<Exposure>, sp: seq<Span>): (blocks: seq<Block>)
    requires forall k :: 0 <= k < |sp| ==> sp[k].first <= sp[k].last < |rows|
    ensures |blocks| == |sp|
  {
    seq(|sp|, k requires 0 <= k < |sp| => BlockOf(rows, sp[k]))
  }

  /** The list of tuples the grouping pass returns. */
  function Blocks(rows: seq<Exposure>, maxGap: int): (blocks: seq<Block>)
    requires |rows| >= 1
    ensures |blocks| == |Spans(rows, maxGap)|
  {
    BlocksOf(rows, Spans(rows, maxGap))
  }

  /** The number of the last span holding row `r`, or `Unlabelled` if none does. */
  function LabelIn(sp: seq<Span>, r: int): (id: int)
    ensures id == Unlabelled || 0 <= id < |sp|
    decreases |sp|
  {
    if sp == [] then Unlabelled
    else if sp[|sp| - 1].first <= r <= sp[|sp| - 1].last then |sp| - 1
    else LabelIn(sp[..|sp| - 1], r)
  }

  /** The `block` column after the grouping pass. */
  function Labels(rows: seq<Exposure>, maxGap: int): (labels: seq<int>)
    requires |rows| >= 1
    ensures |labels| == |rows|
  {
    LabelsOf(Spans(rows, maxGap), |rows|)
  }

  // ---------------------------------------------------------------------------
  // Grouping: properties

  /** A span appended to a list starts where it starts; the others keep their starts. */
  lemma StartsAtAppend(sp: seq<Span>, s: Span, j: int)
    ensures StartsAt(sp + [s], j) <==> StartsAt(sp, j) || s.first == j
  {
    if StartsAt(sp, j) {
      var k :| 0 <= k < |sp| && sp[k].first == j;
      assert (sp + [s])[k].first == j;
    }
    if s.first == j {
      assert (sp + [s])[|sp|].first == j;
    }
  }

  /** No span of a tiling of `n` rows starts at row `n` or later. */
  lemma NoStartBeyond(sp: seq<Span>, n: nat, j: int)
    requires Tiling(sp, n)
    requires j >= n
    ensures !StartsAt(sp, j)
  {
  }

  /** The starts of the closed blocks and of the open one are row 0 and exactly the rows
      seen so far that do not join the row before them. */
  lemma {:induction false} ScanStarts(rows: seq<Exposure>, maxGap: int, i: nat, j: nat)
    requires 1 <= j < i < |rows|
    ensures StartsAt(Scan(rows, maxGap, i).closed, j) || Scan(rows, maxGap, i).open == j
            <==> !JoinsPrevious(rows, maxGap, j)
    decreases i
  {
    var prev := Scan(rows, maxGap, i - 1);
    if JoinsPrevious(rows, maxGap, i - 1) {
      JoinStep(rows, maxGap, i - 1);
    } else {
      CloseStep(rows, maxGap, i - 1, prev.closed, prev.open);
      StartsAtAppend(prev.closed, Span(prev.open, i - 2), j);
    }
    if j < i - 1 {
      ScanStarts(rows, maxGap, i - 1, j);
    } else {
      NoStartBeyond(prev.closed, prev.open, j);
    }
  }

  /** For every row but the first and the last: a new block starts at row `i` exactly when
      its science program differs from the previous row's, or its delay is at least
      `maxGap`. */
  lemma StartRule(rows: seq<Exposure>, maxGap: int, i: nat)
    requires 1 <= i <= |rows| - 2
    ensures StartsAt(Spans(rows, maxGap), i) <==>
            rows[i].program != rows[i - 1].program || rows[i].delay >= maxGap
  {
    var n := |rows|;
    var s := Scan(rows, maxGap, n - 1);
    var sp := Spans(rows, maxGap);
    ScanStarts(rows, maxGap, n - 1, i);
    StartsAtAppend(s.closed, Span(s.open, n - 1), i);
  }

  /** The last row never starts a block of its own: it is absorbed into the final block
      even when its program differs or its gap is too large, and that block holds at least
      one earlier row. */
  lemma LastRowAbsorbed(rows: seq<Exposure>, maxGap: int)
    requires |rows| >= 2
    ensures var sp := Spans(rows, maxGap);
      sp[|sp| - 1].first < |rows| - 1 && sp[|sp| - 1].last == |rows| - 1 &&
      !StartsAt(sp, |rows| - 1)
  {
    var n := |rows|;
    var s := Scan(rows, maxGap, n - 1);
    var sp := Spans(rows, maxGap);
    StartsAtAppend(s.closed, Span(s.open, n - 1), n - 1);
    NoStartBeyond(s.closed, s.open, n - 1);
  }

  /** In spans that are sorted, the row `r` of span `k` gets label `k`. */
  lemma {:induction false} LabelInSpan(sp: seq<Span>, k: nat, r: int)
    requires Sorted(sp)
    requires k < |sp| && sp[k].first <= r <= sp[k].last
    ensures LabelIn(sp, r) == k
    decreases |sp|
  {
    if k < |sp| - 1 {
      var init := sp[..|sp| - 1];
      assert sp[k].last < sp[|sp| - 1].first;
      assert init[k] == sp[k];
      LabelInSpan(init, k, r);
    }
  }

  /** In a tiling of `n` rows, every row lies in the span its label names. */
  lemma {:induction false} LabelInCovers(sp: seq<Span>, n: nat, r: int)
    requires Tiling(sp, n)
    requires 0 <= r < n
    ensures 0 <= LabelIn(sp, r) < |sp|
    ensures sp[LabelIn(sp, r)].first <= r <= sp[LabelIn(sp, r)].last
    decreases |sp|
  {
    var last := sp[|sp| - 1];
    if !(last.first <= r <= last.last) {
      var init := sp[..|sp| - 1];
      assert forall k :: 0 <= k < |init| ==> init[k] == sp[k];
      TilingSorted(sp, n);
      if |init| > 0 {
        assert last.first == init[|init| - 1].last + 1;
      }
      assert Tiling(init, last.first);
      LabelInCovers(init, last.first, r);
    }
  }

  /** The `block` column agrees with the emitted blocks: every row of the `k`-th block
      is labelled `k`. */
  lemma LabelsMatchBlocks(rows: seq<Exposure>, maxGap: int, k: nat, r: nat)
    requires |rows| >= 1
    requires k < |Spans(rows, maxGap)|
    requires Spans(rows, maxGap)[k].first <= r <= Spans(rows, maxGap)[k].last
    ensures r < |rows| && Labels(rows, maxGap)[r] == k
  {
    TilingSorted(Spans(rows, maxGap), |rows|);
    LabelInSpan(Spans(rows, maxGap), k, r);
  }

  /** Block numbers are 0, 1, 2, ... with no gap: the first row is in block 0, the last
      row in the last block, and every label is a block number. A table of one row keeps
      its unlabelled value and yields no block. */
  lemma LabelsRange(rows: seq<Exposure>, maxGap: int)
    requires |rows| >= 1
    ensures var labels, nb := Labels(rows, maxGap), |Blocks(rows, maxGap)|;
      if |rows| == 1 then nb == 0 && labels == [Unlabelled]
      else labels[0] == 0 && labels[|rows| - 1] == nb - 1 &&
           forall r :: 0 <= r < |rows| ==> 0 <= labels[r] < nb
  {
    var n := |rows|;
    var sp := Spans(rows, maxGap);
    if n >= 2 {
      TilingSorted(sp, n);
      LabelInSpan(sp, 0, 0);
      LabelInSpan(sp, |sp| - 1, n - 1);
      forall r | 0 <= r < n
        ensures 0 <= LabelIn(sp, r) < |sp|
      {
        LabelInCovers(sp, n, r);
      }
    }
  }

  /** Along a tiling, the label goes up by one exactly at the rows where a span starts. */
  lemma LabelStepInTiling(sp: seq<Span>, n: nat, i: nat)
    requires Tiling(sp, n)
    requires 1 <= i < n
    ensures LabelIn(sp, i) == if StartsAt(sp, i) then LabelIn(sp, i - 1) + 1 else LabelIn(sp, i - 1)
  {
    LabelInCovers(sp, n, i - 1);
    var a := LabelIn(sp, i - 1);
    TilingSorted(sp, n);
    if i <= sp[a].last {
      LabelInSpan(sp, a, i);
      if StartsAt(sp, i) {
        var k :| 0 <= k < |sp| && sp[k].first == i;
        LabelInSpan(sp, k, i);
      }
    } else {
      assert sp[a + 1].first == i;
      LabelInSpan(sp, a + 1, i);
    }
  }

  /** The exact rule for labels along the table: a row gets the previous row's label plus
      one when it starts a new block (it is not the last row, and its program differs or
      its delay is at least `maxGap`), and the previous row's label otherwise. So labels
      never decrease and never skip a number. */
  lemma LabelStep(rows: seq<Exposure>, maxGap: int, i: nat)
    requires 1 <= i < |rows|
    ensures var labels := Labels(rows, maxGap);
      labels[i] == if i < |rows| - 1 && !JoinsPrevious(rows, maxGap, i)
                   then labels[i - 1] + 1 else labels[i - 1]
  {
    var sp := Spans(rows, maxGap);
    LabelStepInTiling(sp, |rows|, i);
    LastRowAbsorbed(rows, maxGap);
    if i < |rows| - 1 {
      StartRule(rows, maxGap, i);
    }
  }

  /** Within a block, every row after the first joins the row before it, except that the
      last row of the table may close the final block whatever its program or gap. */
  lemma RowsInsideBlockJoin(rows: seq<Exposure>, maxGap: int, k: nat, r: nat)
    requires |rows| >= 1
    requires k < |Spans(rows, maxGap)|
    requires Spans(rows, maxGap)[k].first < r <= Spans(rows, maxGap)[k].last
    requires r < |rows| - 1
    ensures JoinsPrevious(rows, maxGap, r)
  {
    var sp := Spans(rows, maxGap);
    TilingSorted(sp, |rows|);
    StartRule(rows, maxGap, r);
  }

  /** Every row of a block that is not the final one has the block's program. */
  lemma {:induction false} BlockProgramUniform(rows: seq<Exposure>, maxGap: int, k: nat, r: nat)
    requires |rows| >= 1
    requires k < |Spans(rows, maxGap)| - 1
    requires Spans(rows, maxGap)[k].first <= r <= Spans(rows, maxGap)[k].last
    ensures r < |rows| && rows[r].program == Blocks(rows, maxGap)[k].program
    decreases Spans(rows, maxGap)[k].last - r
  {
    var sp := Spans(rows, maxGap);
    var n := |rows|;
    LastRowAbsorbed(rows, maxGap);
    assert sp[k].last < sp[|sp| - 1].first;
    if r < sp[k].last {
      BlockProgramUniform(rows, maxGap, k, r + 1);
      RowsInsideBlockJoin(rows, maxGap, k, r + 1);
    }
  }

  /** The tuple of each block takes `seq0` and `begin` from the block's first row and
      `program`, `seq1` and `end` from its last row; the first tuple starts at row 0 and
      the last one ends at the table's last row. */
  lemma BlockEndpoints(rows: seq<Exposure>, maxGap: int)
    requires |rows| >= 2
    ensures var blocks := Blocks(rows, maxGap);
      |blocks| >= 1 &&
      blocks[0].seq0 == rows[0].seqNum && blocks[0].begin == rows[0].begin &&
      blocks[|blocks| - 1].program == rows[|rows| - 1].program &&
      blocks[|blocks| - 1].seq1 == rows[|rows| - 1].seqNum &&
      blocks[|blocks| - 1].end == rows[|rows| - 1].end
    ensures forall k :: 0 < k < |Blocks(rows, maxGap)| ==>
      Blocks(rows, maxGap)[k].seq0 == rows[Spans(rows, maxGap)[k - 1].last + 1].seqNum
    ensures forall k :: 0 <= k < |Blocks(rows, maxGap)| ==>
      var b, s := Blocks(rows, maxGap)[k], Spans(rows, maxGap)[k];
      b.program == rows[s.last].program && b.seq0 == rows[s.first].seqNum &&
      b.seq1 == rows[s.last].seqNum && b.begin == rows[s.first].begin && b.end == rows[s.last].end
  {
    BlocksOfTiling(rows, Spans(rows, maxGap), Blocks(rows, maxGap));
  }

  /** The tuples of a tiling of the whole table, field by field. */
  lemma BlocksOfTiling(rows: seq<Exposure>, sp: seq<Span>, blocks: seq<Block>)
    requires |rows| >= 1 && Tiling(sp, |rows|)
    requires blocks == BlocksOf(rows, sp)
    ensures |blocks| == |sp| >= 1
    ensures blocks[0].seq0 == rows[0].seqNum && blocks[0].begin == rows[0].begin
    ensures blocks[|blocks| - 1].program == rows[|rows| - 1].program &&
            blocks[|blocks| - 1].seq1 == rows[|rows| - 1].seqNum &&
            blocks[|blocks| - 1].end == rows[|rows| - 1].end
    ensures forall k :: 0 < k < |sp| ==> blocks[k].seq0 == rows[sp[k - 1].last + 1].seqNum
    ensures forall k :: 0 <= k < |sp| ==>
      blocks[k].program == rows[sp[k].last].program && blocks[k].seq0 == rows[sp[k].first].seqNum &&
      blocks[k].seq1 == rows[sp[k].last].seqNum && blocks[k].begin == rows[sp[k].first].begin &&
      blocks[k].end == rows[sp[k].last].end
  {
    forall k | 0 <= k < |sp|
      ensures blocks[k] == BlockOf(rows, sp[k])
    {
    }
    forall k | 0 < k < |sp|
      ensures blocks[k].seq0 == rows[sp[k - 1].last + 1].seqNum
    {
      assert sp[k].first == sp[k - 1].last + 1;
    }
  }

  /** Two rows of different programs form a single block that reports the second row's
      program: the last row is absorbed, and the block takes its program from it. */
  lemma FinalBlockTakesLastProgram()
    ensures Blocks([Exposure("A", 1, 0, 10, 0), Exposure("B", 2, 20, 30, 10)], DefaultMaxGap)
            == [Block("B", 1, 2, 0, 30)]
  {
    var rows := [Exposure("A", 1, 0, 10, 0), Exposure("B", 2, 20, 30, 10)];
    assert Spans(rows, DefaultMaxGap) == [Span(0, 1)];
  }

  // ---------------------------------------------------------------------------
  // Grouping: the pass over the table

  /** The `block` column of `n` rows once the spans `sp` are closed. */
  function LabelsOf(sp: seq<Span>, n: nat): (labels: seq<int>)
    ensures |labels| == n
  {
    seq(n, q => LabelIn(sp, q))
  }

  /** The column `labels` with `id` written over rows `first..last`. */
  function Marked(labels: seq<int>, first: nat, last: nat, id: int): (marked: seq<int>)
    ensures |marked| == |labels|
  {
    seq(|labels|, q requires 0 <= q < |labels| => if first <= q <= last then id else labels[q])
  }

  /** Closing one more block labels its rows with its number and leaves other labels alone. */
  lemma LabelsAfterMark(sp: seq<Span>, s: Span, n: nat)
    ensures Marked(LabelsOf(sp, n), s.first, s.last, |sp|) == LabelsOf(sp + [s], n)
  {
    assert (sp + [s])[..|sp|] == sp;
  }

  /** Closing one more block appends its tuple to the list. */
  lemma BlocksOfAppend(rows: seq<Exposure>, sp: seq<Span>, s: Span)
    requires forall k :: 0 <= k < |sp| ==> sp[k].first <= sp[k].last < |rows|
    requires s.first <= s.last < |rows|
    ensures BlocksOf(rows, sp + [s]) == BlocksOf(rows, sp) + [BlockOf(rows, s)]
  {
  }

  /** A row that joins the previous one leaves the loop's state as it was. */
  lemma JoinStep(rows: seq<Exposure>, maxGap: int, i: nat)
    requires 1 <= i < |rows| - 1
    requires JoinsPrevious(rows, maxGap, i)
    ensures Scan(rows, maxGap, i + 1) == Scan(rows, maxGap, i)
  {
  }

  /** At a row that does not join the previous one, or at the last row, the open block is
      closed: it ends at the previous row, or at the last row itself. */
  lemma CloseStep(rows: seq<Exposure>, maxGap: int, i: nat, closed: seq<Span>, open: nat)
    requires 1 <= i < |rows|
    requires ScanState(closed, open) == Scan(rows, maxGap, i)
    requires i == |rows| - 1 || !JoinsPrevious(rows, maxGap, i)
    ensures var s := Span(open, if i == |rows| - 1 then i else i - 1);
      s.first <= s.last < |rows| &&
      (i < |rows| - 1 ==> ScanState(closed + [s], i) == Scan(rows, maxGap, i + 1)) &&
      (i == |rows| - 1 ==> closed + [s] == Spans(rows, maxGap))
  {
  }

  /** Writes `id` into the slice `block[first..last]` (both included) and nothing else. */
  method MarkRows(block: array<int>, first: nat, last: nat, id: int)
    requires first <= last < block.Length
    modifies block
    ensures block[..] == Marked(old(block[..]), first, last, id)
  {
    for q := first to last + 1
      invariant forall p :: 0 <= p < block.Length ==>
        block[p] == if first <= p < q then id else old(block[p])
    {
      block[q] := id;
    }
    assert block[..] == Marked(old(block[..]), first, last, id);
  }

  /** Walks the table once, emits one tuple per block and writes each block's number into
      the `block` column over that block's rows. */
  method GroupIntoBlocks(table: array<Exposure>, block: array<int>, maxGap: int)
    returns (blocks: seq<Block>)
    requires table.Length >= 1
    requires block.Length == table.Length
    modifies block
    ensures blocks == Blocks(table[..], maxGap)
    ensures block[..] == Labels(table[..], maxGap)
  {
    ghost var rows := table[..];
    var n := table.Length;
    for r := 0 to n
      invariant forall q :: 0 <= q < r ==> block[q] == Unlabelled
    {
      block[r] := Unlabelled;
    }
    assert block[..] == LabelsOf([], n);
    blocks := [];
    var blockId := 0;
    var beginRow := 0;
    ghost var closed: seq<Span> := [];
    for i := 1 to n
      invariant i < n ==> ScanState(closed, beginRow) == Scan(rows, maxGap, i)
      invariant i == n ==> closed == Spans(rows, maxGap)
      invariant forall k :: 0 <= k < |closed| ==> closed[k].first <= closed[k].last < n
      invariant blockId == |closed|
      invariant blocks == BlocksOf(rows, closed)
      invariant block[..] == LabelsOf(closed, n)
    {
      var row, previous := table[i], table[i - 1];
      var sameProgram := row.program == previous.program;
      var gapOk := row.delay < maxGap;
      var notLast := i != n - 1;
      if sameProgram && gapOk && notLast {
        JoinStep(rows, maxGap, i);
        continue;
      }
      CloseStep(rows, maxGap, i, closed, beginRow);
      var endRow := if i == n - 1 then i else i - 1;
      var s := Span(beginRow, endRow);
      assert BlockOf(rows, s) == Block(table[endRow].program, table[beginRow].seqNum,
        table[endRow].seqNum, table[beginRow].begin, table[endRow].end);
      blocks := blocks + [Block(table[endRow].program, table[beginRow].seqNum,
                                table[endRow].seqNum, table[beginRow].begin, table[endRow].end)];
      MarkRows(block, beginRow, endRow, blockId);
      LabelsAfterMark(closed, s, n);
      BlocksOfAppend(rows, closed, s);
      closed := closed + [s];
      beginRow := i;
      blockId := blockId + 1;
    }
  }

  /** The scraper's main flow once the exposures are loaded: fill the delay column, then
      group with the default `max_gap`. */
  method DelaysThenBlocks(table: array<Exposure>, block: array<int>) returns (blocks: seq<Block>)
    requires table.Length >= 1
    requires block.Length == table.Length
    modifies table, block
    ensures table[..] == WithDelays(old(table[..]))
    ensures blocks == Blocks(table[..], DefaultMaxGap)
    ensures block[..] == Labels(table[..], DefaultMaxGap)
  {
    ComputeDelays(table);
    blocks := GroupIntoBlocks(table, block, DefaultMaxGap);
  }
}
