/** The placement search of the line constraint builder.

    For one clue and a line of `L` cells the encoder tries every start for
    block `k` from the cursor `pos` (one past the blank that must follow the
    previous block) up to `MaxStart`, the last start that still leaves room
    for the blocks after it, and renders every complete choice of starts as a
    filled/blank bitmap.  `Enumerate` is that search as a function; the
    methods `GeneratePlacements` and `FillBitmap` are the search and the
    bitmap construction as the Python encoder runs them, proved against it. */
module Placements {
  import opened Lines

  /** Validity of a placement as zogram.py bounds it: one start per block, every block
      inside the line, and at least one blank cell between a block and the
      next one. */
  ghost predicate IsPlacement(clue: Clue, L: nat, starts: seq<nat>) {
    && |starts| == |clue|
    && (forall k :: 0 <= k < |starts| ==> starts[k] + clue[k] <= L)
    && (forall k :: 0 <= k < |starts| - 1 ==> starts[k] + clue[k] < starts[k + 1])
  }

  /** The same validity, block by block: the first block starts at or after
      `pos` and fits, and the rest is valid from one past its end. */
  ghost predicate Fits(clue: Clue, starts: seq<nat>, pos: nat, L: nat)
    decreases |starts|
  {
    && |starts| == |clue|
    && (|starts| > 0 ==>
          && pos <= starts[0]
          && starts[0] + clue[0] <= L
          && Fits(clue[1..], starts[1..], starts[0] + clue[0] + 1, L))
  }

  /** The last start block `k` may take: the line length minus the cells of
      blocks `k..` and the blanks still needed between them. */
  function MaxStart(clue: Clue, L: nat, k: nat): int
    requires k < |clue|
  {
    L - Sum(clue[k..]) - (|clue| - k - 1)
  }

  /** Every complete choice of starts the search reaches from block `k` with
      cursor `pos`, having already chosen `prefix` for blocks `0..k`, in the
      order the search finds them. */
  ghost function Enumerate(clue: Clue, L: nat, k: nat, pos: nat, prefix: seq<nat>): seq<seq<nat>>
    requires k <= |clue|
    decreases |clue| - k, 1, 0
  {
    if k == |clue| then [prefix]
    else StartsBelow(clue, L, k, pos, MaxStart(clue, L, k) + 1, prefix)
  }

  /** The choices the search reaches when block `k` starts at `lo`, `lo + 1`,
      ..., `hi - 1`, in that order. */
  ghost function StartsBelow(clue: Clue, L: nat, k: nat, lo: nat, hi: int, prefix: seq<nat>): seq<seq<nat>>
    requires k < |clue|
    decreases |clue| - k, 0, hi - lo
  {
    if hi <= lo then []
    else
      StartsBelow(clue, L, k, lo, hi - 1, prefix)
      + Enumerate(clue, L, k + 1, hi - 1 + clue[k] + 1, prefix + [hi - 1])
  }

  /** Whether block `k` of the placement covers cell `j`, for some `k < n`. */
  predicate CoveredBy(clue: Clue, starts: seq<nat>, n: nat, j: int) {
    exists k :: 0 <= k < n && k < |starts| && k < |clue| && starts[k] <= j < starts[k] + clue[k]
  }

  /** The bitmap of a placement: a cell is filled iff some block covers it. */
  function Bitmap(clue: Clue, starts: seq<nat>, L: nat): seq<bool> {
    seq(L, j => CoveredBy(clue, starts, |starts|, j))
  }

  function Bitmaps(clue: Clue, L: nat, placements: seq<seq<nat>>): seq<seq<bool>> {
    seq(|placements|, i requires 0 <= i < |placements| => Bitmap(clue, placements[i], L))
  }

  /** The bitmaps a line of `L` cells may take under `clue`: the all-blank
      line for the empty clue, otherwise the bitmap of every placement the
      search finds; none at all when the clue does not fit. */
  ghost function LinePatterns(clue: Clue, L: nat): seq<seq<bool>> {
    if clue == [] then [Blank(L)] else Bitmaps(clue, L, Enumerate(clue, L, 0, 0, []))
  }

  /** Builds the bitmap of one complete placement in an array, block by block
      and cell by cell.  Every write is inside the line because every block
      ends within it. */
  method FillBitmap(clue: Clue, starts: seq<nat>, L: nat) returns (isFilled: seq<bool>)
    requires |starts| == |clue|
    requires forall k :: 0 <= k < |starts| ==> starts[k] + clue[k] <= L
    ensures isFilled == Bitmap(clue, starts, L)
  {
    var cells := new bool[L](_ => false);
    for k := 0 to |starts|
      invariant forall j :: 0 <= j < L ==> cells[j] == CoveredBy(clue, starts, k, j)
    {
      for offset := 0 to clue[k]
        invariant forall j :: 0 <= j < L ==>
          cells[j] == (CoveredBy(clue, starts, k, j) || starts[k] <= j < starts[k] + offset)
      {
        cells[starts[k] + offset] := true;
      }
      forall j | 0 <= j < L
        ensures cells[j] == CoveredBy(clue, starts, k + 1, j)
      {
        if starts[k] <= j < starts[k] + clue[k] {
          assert CoveredBy(clue, starts, k + 1, j);
        }
      }
    }
    isFilled := cells[..];
  }

  lemma BitmapsAppend(clue: Clue, L: nat, a: seq<seq<nat>>, b: seq<seq<nat>>)
    ensures Bitmaps(clue, L, a + b) == Bitmaps(clue, L, a) + Bitmaps(clue, L, b)
  {
  }

  /** The recursive search of zogram.py: place block `k` at every start from
      the cursor to `MaxStart`, recurse on the next block with the cursor one
      past the following blank, and at the end append the bitmap of the
      complete placement to `found`. */
  method GeneratePlacements(clue: Clue, L: nat, k: nat, pos: nat, prefix: seq<nat>, found: seq<seq<bool>>)
    returns (result: seq<seq<bool>>)
    requires k <= |clue| && |prefix| == k
    requires forall i :: 0 <= i < k ==> prefix[i] + clue[i] <= L
    ensures result == found + Bitmaps(clue, L, Enumerate(clue, L, k, pos, prefix))
    decreases |clue| - k
  {
    if k == |clue| {
      var isFilled := FillBitmap(clue, prefix, L);
      result := found + [isFilled];
      assert Bitmaps(clue, L, [prefix]) == [isFilled];
      return;
    }
    var currentBlockSize := clue[k];
    var remainingBlocksSize := Sum(clue[k..]);
    var separatorsNeeded := |clue| - k - 1;
    var maxStart := L - remainingBlocksSize - separatorsNeeded;
    SumStep(clue, k);
    result := found;
    var start := pos;
    while start <= maxStart
      invariant pos <= start && (start == pos || start <= maxStart + 1)
      invariant result == found + Bitmaps(clue, L, StartsBelow(clue, L, k, pos, start, prefix))
      decreases maxStart - start
    {
      var nextStartPos := start + currentBlockSize + 1;
      PrefixInBounds(clue, L, prefix, start);
      result := GeneratePlacements(clue, L, k + 1, nextStartPos, prefix + [start], result);
      StartsBelowStep(clue, L, k, pos, start, prefix, found);
      start := start + 1;
    }
    assert StartsBelow(clue, L, k, pos, start, prefix) == StartsBelow(clue, L, k, pos, maxStart + 1, prefix);
  }

  /** Trying one more start for block `k` appends the bitmaps of everything
      found from it. */
  lemma StartsBelowStep(clue: Clue, L: nat, k: nat, pos: nat, start: nat, prefix: seq<nat>, found: seq<seq<bool>>)
    requires k < |clue| && pos <= start
    ensures found + Bitmaps(clue, L, StartsBelow(clue, L, k, pos, start + 1, prefix))
         == (found + Bitmaps(clue, L, StartsBelow(clue, L, k, pos, start, prefix)))
          + Bitmaps(clue, L, Enumerate(clue, L, k + 1, start + clue[k] + 1, prefix + [start]))
  {
    BitmapsAppend(clue, L, StartsBelow(clue, L, k, pos, start, prefix),
      Enumerate(clue, L, k + 1, start + clue[k] + 1, prefix + [start]));
  }

  /** Placing block `k` at a start whose block ends inside the line keeps
      every placed block inside it. */
  lemma PrefixInBounds(clue: Clue, L: nat, prefix: seq<nat>, start: nat)
    requires |prefix| < |clue|
    requires forall i :: 0 <= i < |prefix| ==> prefix[i] + clue[i] <= L
    requires start + clue[|prefix|] <= L
    ensures forall i :: 0 <= i < |prefix| + 1 ==> (prefix + [start])[i] + clue[i] <= L
  {
  }

  // ---------------------------------------------------------------------
  // The search finds exactly the valid placements.

  /** Cells needed by a valid placement: the first block's start plus every
      block and one blank between each two stays within the line. */
  lemma {:induction false} FitsSpan(clue: Clue, starts: seq<nat>, pos: nat, L: nat)
    requires Fits(clue, starts, pos, L) && |clue| > 0
    ensures starts[0] + Sum(clue) + |clue| - 1 <= L
    decreases |clue|
  {
    if |clue| > 1 {
      FitsSpan(clue[1..], starts[1..], starts[0] + clue[0] + 1, L);
    }
  }

  /** Everything the search yields from block `k` extends `prefix` with
      starts valid from the cursor on. */
  lemma {:induction false} EnumerateSound(clue: Clue, L: nat, k: nat, pos: nat, prefix: seq<nat>, q: seq<nat>)
    requires k <= |clue| && |prefix| == k
    requires q in Enumerate(clue, L, k, pos, prefix)
    ensures |q| == |clue| && q[..k] == prefix && Fits(clue[k..], q[k..], pos, L)
    decreases |clue| - k, 1, 0
  {
    if k < |clue| {
      StartsBelowSound(clue, L, k, pos, MaxStart(clue, L, k) + 1, prefix, q);
    } else {
      assert q == prefix;
    }
  }

  lemma {:induction false} StartsBelowSound(clue: Clue, L: nat, k: nat, lo: nat, hi: int, prefix: seq<nat>, q: seq<nat>)
    requires k < |clue| && |prefix| == k
    requires hi <= MaxStart(clue, L, k) + 1
    requires q in StartsBelow(clue, L, k, lo, hi, prefix)
    ensures |q| == |clue| && q[..k] == prefix && Fits(clue[k..], q[k..], lo, L)
    decreases |clue| - k, 0, hi - lo
  {
    var s := hi - 1;
    var next := s + clue[k] + 1;
    if q in StartsBelow(clue, L, k, lo, hi - 1, prefix) {
      StartsBelowSound(clue, L, k, lo, hi - 1, prefix, q);
    } else {
      EnumerateSound(clue, L, k + 1, next, prefix + [s], q);
      ExtendSound(clue, L, k, lo, s, prefix, q);
    }
  }

  /** One step of soundness: block `k` at a start between the cursor and
      `MaxStart`, followed by valid later blocks, is valid from the cursor. */
  lemma ExtendSound(clue: Clue, L: nat, k: nat, lo: nat, s: nat, prefix: seq<nat>, q: seq<nat>)
    requires k < |clue| && |prefix| == k && lo <= s <= MaxStart(clue, L, k)
    requires |q| == |clue| && q[..k + 1] == prefix + [s]
    requires Fits(clue[k + 1..], q[k + 1..], s + clue[k] + 1, L)
    ensures q[..k] == prefix && Fits(clue[k..], q[k..], lo, L)
  {
    SumStep(clue, k);
    assert q[..k] == q[..k + 1][..k];
    assert q[k] == q[..k + 1][k];
    assert clue[k..][1..] == clue[k + 1..];
    assert q[k..][1..] == q[k + 1..];
  }

  /** Block `k` placed at any start in `lo..hi` contributes every placement
      it leads to. */
  lemma {:induction false} StartsBelowContains(clue: Clue, L: nat, k: nat, lo: nat, hi: int, prefix: seq<nat>, s: nat, q: seq<nat>)
    requires k < |clue| && lo <= s < hi
    requires q in Enumerate(clue, L, k + 1, s + clue[k] + 1, prefix + [s])
    ensures q in StartsBelow(clue, L, k, lo, hi, prefix)
    decreases hi - lo
  {
    if s < hi - 1 {
      StartsBelowContains(clue, L, k, lo, hi - 1, prefix, s, q);
    }
  }

  /** Every valid way to place blocks `k..` from the cursor on is found. */
  lemma {:induction false} EnumerateComplete(clue: Clue, L: nat, k: nat, pos: nat, prefix: seq<nat>, rest: seq<nat>)
    requires k <= |clue| && |prefix| == k
    requires Fits(clue[k..], rest, pos, L)
    ensures prefix + rest in Enumerate(clue, L, k, pos, prefix)
    decreases |clue| - k
  {
    if k == |clue| {
      assert prefix + rest == prefix;
    } else {
      var s := rest[0];
      var next := s + clue[k] + 1;
      FitsSpan(clue[k..], rest, pos, L);
      assert clue[k..][1..] == clue[k + 1..];
      EnumerateComplete(clue, L, k + 1, next, prefix + [s], rest[1..]);
      assert (prefix + [s]) + rest[1..] == prefix + rest;
      StartsBelowContains(clue, L, k, pos, MaxStart(clue, L, k) + 1, prefix, s, prefix + rest);
    }
  }

  /** Block-by-block validity gives the conditions of `IsPlacement`: every block
      starts at or after the cursor and ends inside the line, and the gap
      after each block has at least one blank. */
  lemma {:induction false} FitsIsPlacement(clue: Clue, starts: seq<nat>, pos: nat, L: nat)
    requires Fits(clue, starts, pos, L)
    ensures IsPlacement(clue, L, starts)
    ensures forall k :: 0 <= k < |starts| ==> pos <= starts[k]
    decreases |starts|
  {
    if |starts| > 0 {
      var tail := starts[1..];
      FitsIsPlacement(clue[1..], tail, starts[0] + clue[0] + 1, L);
      forall k | 0 < k < |starts|
        ensures pos <= starts[k] && starts[k] + clue[k] <= L
      {
        assert starts[k] == tail[k - 1];
      }
      forall k | 0 <= k < |starts| - 1
        ensures starts[k] + clue[k] < starts[k + 1]
      {
        if k > 0 {
          assert starts[k] == tail[k - 1] && starts[k + 1] == tail[k];
        }
      }
    }
  }

  /** Conversely a valid placement is valid block by block from any cursor
      at or before its first start. */
  lemma {:induction false} PlacementFits(clue: Clue, L: nat, starts: seq<nat>, k: nat, pos: nat)
    requires IsPlacement(clue, L, starts) && k <= |starts|
    requires k < |starts| ==> pos <= starts[k]
    ensures Fits(clue[k..], starts[k..], pos, L)
    decreases |starts| - k
  {
    if k < |starts| {
      PlacementFits(clue, L, starts, k + 1, starts[k] + clue[k] + 1);
      assert clue[k..][1..] == clue[k + 1..];
      assert starts[k..][1..] == starts[k + 1..];
    }
  }

  /** The search yields exactly the valid placements: sound (increasing
      starts, a blank between blocks, every block inside the line, so every
      cell write is in bounds) and complete (no valid placement skipped by
      the `MaxStart` pruning). */
  lemma EnumerateExactly(clue: Clue, L: nat, starts: seq<nat>)
    ensures starts in Enumerate(clue, L, 0, 0, []) <==> IsPlacement(clue, L, starts)
  {
    assert clue[0..] == clue;
    assert starts[0..] == starts;
    if starts in Enumerate(clue, L, 0, 0, []) {
      EnumerateSound(clue, L, 0, 0, [], starts);
      FitsIsPlacement(clue, starts, 0, L);
    }
    if IsPlacement(clue, L, starts) {
      PlacementFits(clue, L, starts, 0, 0);
      assert [] + starts == starts;
      EnumerateComplete(clue, L, 0, 0, [], starts);
    }
  }

  // ---------------------------------------------------------------------
  // The bitmap of a valid placement spells its clue, and every line that
  // spells the clue is such a bitmap.

  /** The cells `pos..L` of a valid placement's bitmap, laid out block by
      block: blanks up to the block, the block, then a blank and the rest. */
  ghost function Layout(clue: Clue, starts: seq<nat>, pos: nat, L: nat): seq<bool>
    requires Fits(clue, starts, pos, L) && pos <= L
    decreases |starts|
  {
    if starts == [] then Blank(L - pos)
    else
      var end := starts[0] + clue[0];
      Blank(starts[0] - pos) + Filled(clue[0])
      + (if |starts| == 1 then Blank(L - end)
         else [false] + Layout(clue[1..], starts[1..], end + 1, L))
  }

  /** Block `k` of the placement covers cell `j` iff block 0 does or one of
      the remaining blocks does. */
  lemma CoveredByFirstOrRest(clue: Clue, starts: seq<nat>, j: int)
    requires |starts| == |clue| > 0
    ensures CoveredBy(clue, starts, |starts|, j)
        <==> (starts[0] <= j < starts[0] + clue[0]) || CoveredBy(clue[1..], starts[1..], |starts| - 1, j)
  {
    if CoveredBy(clue, starts, |starts|, j) {
      var k :| 0 <= k < |starts| && starts[k] <= j < starts[k] + clue[k];
      if k > 0 {
        assert starts[1..][k - 1] == starts[k] && clue[1..][k - 1] == clue[k];
      }
    }
    if CoveredBy(clue[1..], starts[1..], |starts| - 1, j) {
      var k :| 0 <= k < |starts| - 1 && starts[1..][k] <= j < starts[1..][k] + clue[1..][k];
      assert starts[k + 1] <= j < starts[k + 1] + clue[k + 1];
    }
  }

  /** The layout is the bitmap the Python encoder builds, from `pos` on. */
  lemma {:induction false} LayoutIsBitmap(clue: Clue, starts: seq<nat>, pos: nat, L: nat)
    requires Fits(clue, starts, pos, L) && pos <= L
    ensures Layout(clue, starts, pos, L) == Bitmap(clue, starts, L)[pos..]
    decreases |starts|
  {
    if starts != [] {
      var end := starts[0] + clue[0];
      if |starts| > 1 {
        LayoutIsBitmap(clue[1..], starts[1..], end + 1, L);
      }
      forall j | pos <= j < L
        ensures Layout(clue, starts, pos, L)[j - pos] == Bitmap(clue, starts, L)[j]
      {
        if j <= end {
          LayoutHeadCell(clue, starts, pos, L, j);
        } else {
          LayoutTailCell(clue, starts, pos, L, j);
        }
      }
    }
  }

  /** Up to the blank after the first block, the layout and the bitmap
      agree: no later block reaches back there. */
  lemma LayoutHeadCell(clue: Clue, starts: seq<nat>, pos: nat, L: nat, j: nat)
    requires Fits(clue, starts, pos, L) && pos <= L && starts != []
    requires pos <= j <= starts[0] + clue[0] && j < L
    ensures Layout(clue, starts, pos, L)[j - pos] == Bitmap(clue, starts, L)[j]
  {
    FitsIsPlacement(clue[1..], starts[1..], starts[0] + clue[0] + 1, L);
    CoveredByFirstOrRest(clue, starts, j);
    assert !CoveredBy(clue[1..], starts[1..], |starts| - 1, j);
  }

  /** After that blank, the layout continues as the layout of the remaining
      blocks, which agrees with their bitmap. */
  lemma LayoutTailCell(clue: Clue, starts: seq<nat>, pos: nat, L: nat, j: nat)
    requires Fits(clue, starts, pos, L) && pos <= L && starts != []
    requires starts[0] + clue[0] < j < L
    requires |starts| > 1 ==>
      Layout(clue[1..], starts[1..], starts[0] + clue[0] + 1, L)
        == Bitmap(clue[1..], starts[1..], L)[starts[0] + clue[0] + 1..]
    ensures Layout(clue, starts, pos, L)[j - pos] == Bitmap(clue, starts, L)[j]
  {
    var end := starts[0] + clue[0];
    var lay := Layout(clue, starts, pos, L);
    CoveredByFirstOrRest(clue, starts, j);
    assert lay[j - pos] == lay[end + 1 - pos..][j - end - 1];
    assert Bitmap(clue, starts, L)[j] == Bitmap(clue[1..], starts[1..], L)[j];
  }

  /** The layout of a valid placement spells its clue. */
  lemma {:induction false} RunsOfLayout(clue: Clue, starts: seq<nat>, pos: nat, L: nat)
    requires Positive(clue) && Fits(clue, starts, pos, L) && pos <= L
    ensures Runs(Layout(clue, starts, pos, L)) == clue
    decreases |starts|
  {
    if starts == [] {
      RunsEmptyIffBlank(Blank(L - pos));
    } else {
      var end := starts[0] + clue[0];
      var after := if |starts| == 1 then Blank(L - end)
                   else [false] + Layout(clue[1..], starts[1..], end + 1, L);
      assert Layout(clue, starts, pos, L) == Blank(starts[0] - pos) + (Filled(clue[0]) + after);
      RunsAfterBlank(starts[0] - pos, Filled(clue[0]) + after);
      assert clue[0] > 0;
      RunsAfterBlock(clue[0], after);
      if |starts| == 1 {
        RunsEmptyIffBlank(after);
        assert clue == [clue[0]];
      } else {
        RunsOfLayout(clue[1..], starts[1..], end + 1, L);
        assert after[1..] == Layout(clue[1..], starts[1..], end + 1, L);
        assert clue == [clue[0]] + clue[1..];
      }
    }
  }

  /** A layout whose first block lies past `pos` begins with a blank. */
  lemma LayoutStep(clue: Clue, starts: seq<nat>, pos: nat, L: nat)
    requires Fits(clue, starts, pos + 1, L) && pos + 1 <= L
    ensures Fits(clue, starts, pos, L)
    ensures Layout(clue, starts, pos, L) == [false] + Layout(clue, starts, pos + 1, L)
  {
    if starts != [] {
      assert Blank(starts[0] - pos) == [false] + Blank(starts[0] - (pos + 1));
    }
  }

  /** Every line is the layout of its own runs, placed where they start
      (counting the line's first cell as position `pos`). */
  lemma {:induction false} LineIsLayout(line: seq<bool>, clue: Clue, pos: nat, L: nat) returns (starts: seq<nat>)
    requires Runs(line) == clue && pos + |line| == L
    ensures Fits(clue, starts, pos, L) && Layout(clue, starts, pos, L) == line
    decreases |line|, 1
  {
    if line == [] {
      starts := [];
    } else if !line[0] {
      starts := LineIsLayoutBlankHead(line, clue, pos, L);
    } else if LeadingRun(line) == |line| {
      starts := LineIsLayoutFilled(line, clue, pos, L);
    } else {
      starts := LineIsLayoutRunThenRest(line, clue, pos, L);
    }
  }

  lemma {:induction false} LineIsLayoutBlankHead(line: seq<bool>, clue: Clue, pos: nat, L: nat) returns (starts: seq<nat>)
    requires line != [] && !line[0] && Runs(line) == clue && pos + |line| == L
    ensures Fits(clue, starts, pos, L) && Layout(clue, starts, pos, L) == line
    decreases |line|, 0
  {
    starts := LineIsLayout(line[1..], clue, pos + 1, L);
    LayoutStep(clue, starts, pos, L);
    assert line == [false] + line[1..];
  }

  lemma {:induction false} LineIsLayoutRunThenRest(line: seq<bool>, clue: Clue, pos: nat, L: nat) returns (starts: seq<nat>)
    requires line != [] && line[0] && LeadingRun(line) < |line|
    requires Runs(line) == clue && pos + |line| == L
    ensures Fits(clue, starts, pos, L) && Layout(clue, starts, pos, L) == line
    decreases |line|, 0
  {
    var n := LeadingRun(line);
    RunsAfterFirstRun(line);
    assert clue == [n] + clue[1..];
    var rest := LineIsLayout(line[n + 1..], clue[1..], pos + n + 1, L);
    LayoutOfFirstRunThenRest(line, n, clue[1..], rest, pos, L);
    starts := [pos] + rest;
  }

  /** A line that is one run is the layout of a single block at `pos`. */
  lemma LineIsLayoutFilled(line: seq<bool>, clue: Clue, pos: nat, L: nat) returns (starts: seq<nat>)
    requires line != [] && line[0] && LeadingRun(line) == |line|
    requires Runs(line) == clue && pos + |line| == L
    ensures Fits(clue, starts, pos, L) && Layout(clue, starts, pos, L) == line
  {
    var n := |line|;
    LeadingRunIsMaximal(line);
    assert line[n..] == [];
    assert line == Filled(n);
    assert clue == [n];
    starts := [pos];
    assert Fits([n][1..], [pos][1..], pos + n + 1, L);
    assert Layout([n], [pos], pos, L) == Blank(0) + Filled(n) + Blank(0);
  }

  /** When a run ends before the end of the line, the runs continue after
      the blank that ends it. */
  lemma RunsAfterFirstRun(line: seq<bool>)
    requires line != [] && line[0] && LeadingRun(line) < |line|
    ensures Runs(line) == [LeadingRun(line)] + Runs(line[LeadingRun(line) + 1..])
  {
    var n := LeadingRun(line);
    LeadingRunIsMaximal(line);
    assert line[n..] != [] && !line[n..][0];
    assert line[n..][1..] == line[n + 1..];
  }

  /** A line made of its first run, a blank, and a valid layout of further
      blocks is the layout of the first run followed by those blocks. */
  lemma LayoutOfFirstRunThenRest(line: seq<bool>, n: nat, clue: Clue, starts: seq<nat>, pos: nat, L: nat)
    requires line != [] && line[0] && n == LeadingRun(line) && n < |line| && pos + |line| == L
    requires Fits(clue, starts, pos + n + 1, L) && Layout(clue, starts, pos + n + 1, L) == line[n + 1..]
    ensures Fits([n] + clue, [pos] + starts, pos, L)
    ensures Layout([n] + clue, [pos] + starts, pos, L) == line
  {
    SplitAtFirstRun(line);
    LayoutOfBlockThenRest(n, clue, starts, pos, L, line[n + 1..], line);
  }

  /** A line whose first run ends before its end is that run, a blank, and
      the cells after the blank. */
  lemma SplitAtFirstRun(line: seq<bool>)
    requires line != [] && line[0] && LeadingRun(line) < |line|
    ensures var n := LeadingRun(line); line == Filled(n) + ([false] + line[n + 1..])
  {
    var n := LeadingRun(line);
    var t := Filled(n) + ([false] + line[n + 1..]);
    LeadingRunIsMaximal(line);
    assert |t| == |line|;
    forall j | 0 <= j < |line|
      ensures t[j] == line[j]
    {
      if j > n {
        assert t[j] == line[n + 1..][j - n - 1];
      }
    }
  }

  /** A block of `n` cells at `pos`, a blank, and then a valid layout of the
      remaining blocks is the layout of the whole placement. */
  lemma LayoutOfBlockThenRest(n: nat, clue: Clue, starts: seq<nat>, pos: nat, L: nat, rest: seq<bool>, line: seq<bool>)
    requires pos + n + 1 <= L
    requires Fits(clue, starts, pos + n + 1, L)
    requires Layout(clue, starts, pos + n + 1, L) == rest
    requires line == Filled(n) + ([false] + rest)
    ensures Fits([n] + clue, [pos] + starts, pos, L)
    ensures Layout([n] + clue, [pos] + starts, pos, L) == line
  {
    var c := [n] + clue;
    var p := [pos] + starts;
    assert c[1..] == clue && p[1..] == starts;
    if starts == [] {
      RunsEmptyIffBlank(rest);
      assert Layout(c, p, pos, L) == Blank(0) + Filled(n) + Blank(L - pos - n);
      assert Blank(L - pos - n) == [false] + rest;
    } else {
      assert Layout(c, p, pos, L) == Blank(0) + Filled(n) + ([false] + rest);
    }
  }

  /** Soundness of the line encoding: every allowed bitmap has the line's
      length and its runs, read left to right, are exactly the clue. */
  lemma PatternsSpellClue(clue: Clue, L: nat, line: seq<bool>)
    requires Positive(clue)
    requires line in LinePatterns(clue, L)
    ensures |line| == L && Runs(line) == clue
  {
    if clue == [] {
      RunsEmptyIffBlank(line);
    } else {
      var ps := Enumerate(clue, L, 0, 0, []);
      var i :| 0 <= i < |ps| && line == Bitmap(clue, ps[i], L);
      EnumerateSound(clue, L, 0, 0, [], ps[i]);
      assert clue[0..] == clue && ps[i][0..] == ps[i];
      LayoutIsBitmap(clue, ps[i], 0, L);
      assert Bitmap(clue, ps[i], L)[0..] == line;
      RunsOfLayout(clue, ps[i], 0, L);
    }
  }

  /** Completeness of the line encoding: every line of length `L` whose runs
      are the clue is among the allowed bitmaps. */
  lemma ClueLinesArePatterns(clue: Clue, L: nat, line: seq<bool>)
    requires |line| == L && Runs(line) == clue
    ensures line in LinePatterns(clue, L)
  {
    if clue == [] {
      RunsEmptyIffBlank(line);
    } else {
      var starts := LineIsLayout(line, clue, 0, L);
      LayoutIsBitmap(clue, starts, 0, L);
      assert Bitmap(clue, starts, L)[0..] == Bitmap(clue, starts, L);
      assert clue[0..] == clue && [] + starts == starts;
      EnumerateComplete(clue, L, 0, 0, [], starts);
      var ps := Enumerate(clue, L, 0, 0, []);
      var i :| 0 <= i < |ps| && ps[i] == starts;
      assert Bitmaps(clue, L, ps)[i] == line;
    }
  }

  /** The line constraint admits a line iff the line spells the clue. */
  lemma LinePatternsExactly(clue: Clue, L: nat, line: seq<bool>)
    requires Positive(clue)
    ensures line in LinePatterns(clue, L) <==> |line| == L && Runs(line) == clue
  {
    if line in LinePatterns(clue, L) {
      PatternsSpellClue(clue, L, line);
    }
    if |line| == L && Runs(line) == clue {
      ClueLinesArePatterns(clue, L, line);
    }
  }

  // ---------------------------------------------------------------------
  // How many placements a clue has.

  /** Cells a non-empty clue needs: its blocks and one blank between each
      two of them. */
  function MinLength(clue: Clue): int {
    Sum(clue) + |clue| - 1
  }

  /** The empty clue admits the all-blank line and nothing else. */
  lemma EmptyClueAllBlank(L: nat, line: seq<bool>)
    ensures line in LinePatterns([], L) <==> |line| == L && forall j :: 0 <= j < |line| ==> !line[j]
  {
    if |line| == L && forall j :: 0 <= j < |line| ==> !line[j] {
      assert line == Blank(L);
    }
  }

  /** Starting block `k` at its last possible start leaves the next block
      exactly at its own last possible start. */
  lemma NextAtMaxStart(clue: Clue, L: nat, k: nat)
    requires k + 1 < |clue|
    ensures MaxStart(clue, L, k) + clue[k] + 1 == MaxStart(clue, L, k + 1)
  {
    SumStep(clue, k);
  }

  /** While the cursor is at most the last possible start, the search finds
      at least one placement (the one taking every last possible start). */
  lemma {:induction false} EnumerateNonEmpty(clue: Clue, L: nat, k: nat, pos: nat, prefix: seq<nat>)
    requires k <= |clue|
    requires k < |clue| ==> pos <= MaxStart(clue, L, k)
    ensures |Enumerate(clue, L, k, pos, prefix)| > 0
    decreases |clue| - k
  {
    if k < |clue| {
      var s: nat := MaxStart(clue, L, k);
      var next := s + clue[k] + 1;
      if k + 1 < |clue| {
        NextAtMaxStart(clue, L, k);
      }
      EnumerateNonEmpty(clue, L, k + 1, next, prefix + [s]);
      assert StartsBelow(clue, L, k, pos, s + 1, prefix)
          == StartsBelow(clue, L, k, pos, s, prefix) + Enumerate(clue, L, k + 1, next, prefix + [s]);
    }
  }

  /** When the cursor is exactly the last possible start, there is exactly
      one placement. */
  lemma {:induction false} EnumerateTight(clue: Clue, L: nat, k: nat, pos: nat, prefix: seq<nat>)
    requires k <= |clue|
    requires k < |clue| ==> pos == MaxStart(clue, L, k)
    ensures |Enumerate(clue, L, k, pos, prefix)| == 1
    decreases |clue| - k
  {
    if k < |clue| {
      var next := pos + clue[k] + 1;
      if k + 1 < |clue| {
        NextAtMaxStart(clue, L, k);
      }
      EnumerateTight(clue, L, k + 1, next, prefix + [pos]);
      assert StartsBelow(clue, L, k, pos, pos + 1, prefix) == [] + Enumerate(clue, L, k + 1, next, prefix + [pos]);
    }
  }

  /** A non-empty clue has an allowed bitmap iff it fits the line: its
      blocks and the blanks between them take at most `L` cells.  When it
      does not fit the constraint is the empty disjunction, i.e. false. */
  lemma FeasibleIffFits(clue: Clue, L: nat)
    requires clue != []
    ensures |LinePatterns(clue, L)| > 0 <==> MinLength(clue) <= L
    ensures MinLength(clue) > L ==> LinePatterns(clue, L) == []
  {
    assert clue[0..] == clue;
    if MinLength(clue) <= L {
      EnumerateNonEmpty(clue, L, 0, 0, []);
    } else {
      assert MaxStart(clue, L, 0) + 1 <= 0;
      assert Enumerate(clue, L, 0, 0, []) == [];
    }
  }

  /** A clue that fills the line with no slack has exactly one placement. */
  lemma ZeroSlackSinglePattern(clue: Clue, L: nat)
    requires clue != [] && MinLength(clue) == L
    ensures |LinePatterns(clue, L)| == 1
  {
    assert clue[0..] == clue;
    EnumerateTight(clue, L, 0, 0, []);
  }
}
