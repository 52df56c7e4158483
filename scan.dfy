/** The keypad scan cycle that both builds run in `main`: wait for release
    with all columns driven, wait for a press confirmed by two successive
    samples, sweep the columns in order, decode the row. GPIOA IDR is an
    input trace: `idr(n)` is what the n-th read of the register returns. */
module Scan {
  import opened Gpio
  import opened Keypad

  /** A sample in which some row line reads high. */
  predicate Active(sample: bv32)
  {
    MaskRows(sample) != 0
  }

  /** Reads `p` and `p + 1` both see a row high: the debounce accepts. */
  predicate Confirmed(idr: nat -> bv32, p: nat)
  {
    Active(idr(p)) && Active(idr(p + 1))
  }

  /** The release wait started at read `from` ends on read `k`: the first
      sample from `from` on with no row high. */
  ghost predicate ReleaseAt(idr: nat -> bv32, from: nat, k: nat)
  {
    from <= k && !Active(idr(k)) && forall j | from <= j < k :: Active(idr(j))
  }

  /** The press wait started at read `from` accepts the pair at `p`: the first
      two successive active samples from `from` on. */
  ghost predicate PressAt(idr: nat -> bv32, from: nat, p: nat)
  {
    from <= p && Confirmed(idr, p) && forall j | from <= j < p :: !Confirmed(idr, j)
  }

  /** The reads of one cycle started at read `from`: the release wait ends
      on read `release`, the press wait started on the next read accepts
      the pair at `press`, and the sweep reads from `sweep`, right after the
      pair. */
  ghost predicate CycleReads(idr: nat -> bv32, from: nat, release: nat, press: nat, sweep: nat)
  {
    ReleaseAt(idr, from, release) && PressAt(idr, release + 1, press) && sweep == press + 2
  }

  /** What the blocking waits of one cycle need from the keypad: it is let go
      at some read `k`, and a key is later held for two successive reads. */
  ghost predicate CompletesCycle(idr: nat -> bv32, from: nat)
  {
    exists k, p :: from <= k < p && !Active(idr(k)) && Confirmed(idr, p)
  }

  /** If some read from `from` on sees no row high, the release wait ends. */
  lemma {:induction false} ReleaseWaitEnds(idr: nat -> bv32, from: nat, w: nat)
    requires from <= w && !Active(idr(w))
    ensures exists k :: ReleaseAt(idr, from, k)
    decreases w - from
  {
    if Active(idr(from)) {
      ReleaseWaitEnds(idr, from + 1, w);
      var k :| ReleaseAt(idr, from + 1, k);
      assert ReleaseAt(idr, from, k);
    } else {
      assert ReleaseAt(idr, from, from);
    }
  }

  /** If a confirmed pair lies ahead of `from`, the press wait ends. */
  lemma {:induction false} PressWaitEnds(idr: nat -> bv32, from: nat, w: nat)
    requires from <= w && Confirmed(idr, w)
    ensures exists p :: PressAt(idr, from, p)
    decreases w - from
  {
    if Confirmed(idr, from) {
      assert PressAt(idr, from, from);
    } else {
      PressWaitEnds(idr, from + 1, w);
      var p :| PressAt(idr, from + 1, p);
      assert PressAt(idr, from, p);
    }
  }

  /** The release wait has one possible end. */
  lemma ReleaseAtUnique(idr: nat -> bv32, from: nat, k1: nat, k2: nat)
    requires ReleaseAt(idr, from, k1) && ReleaseAt(idr, from, k2)
    ensures k1 == k2
  {
  }

  /** The press wait has one possible end. */
  lemma PressAtUnique(idr: nat -> bv32, from: nat, p1: nat, p2: nat)
    requires PressAt(idr, from, p1) && PressAt(idr, from, p2)
    ensures p1 == p2
  {
  }

  /** In a cycle that completes, the release wait ends. */
  lemma ReleaseAhead(idr: nat -> bv32, from: nat)
    requires CompletesCycle(idr, from)
    ensures exists w :: from <= w && !Active(idr(w))
  {
  }

  /** In a cycle that completes, a confirmed pair is still ahead when the
      press wait starts, on the read after the release read. */
  lemma PressFollowsRelease(idr: nat -> bv32, from: nat, k: nat, start: nat)
    requires CompletesCycle(idr, from) && ReleaseAt(idr, from, k) && start == k + 1
    ensures exists w :: start <= w && Confirmed(idr, w)
  {
    var k0, p0 :| from <= k0 < p0 && !Active(idr(k0)) && Confirmed(idr, p0);
    assert k <= k0;
  }

  /** The column sweep, as seen from the reads it makes. */
  datatype Sweep = Sweep(col: nat, rowval: bv32, used: nat)

  /** The column sweep from step `j` on, its reads starting at `start`:
      the first step whose sample has a row high names the column and stops
      the sweep; if none does, all four reads are spent, `rowval` is the last
      (zero) sample and the column index keeps its previous value. */
  function SweepFrom(idr: nat -> bv32, start: nat, j: nat, prevCol: nat): (s: Sweep)
    requires j < 4
    ensures j < s.used <= 4
    ensures s.rowval != 0 ==> s.col == s.used - 1
    ensures s.rowval == 0 ==> s.used == 4 && s.col == prevCol
    decreases 4 - j
  {
    var rowval := MaskRows(idr(start + j));
    if rowval != 0 then Sweep(j, rowval, j + 1)
    else if j == 3 then Sweep(prevCol, rowval, 4)
    else SweepFrom(idr, start, j + 1, prevCol)
  }

  /** The sweep stops at the first column whose sample has a row high. */
  lemma {:induction false} SweepStopsAtFirstActive(idr: nat -> bv32, start: nat, j: nat, prevCol: nat, c: nat)
    requires j <= c < 4
    requires forall n | start + j <= n < start + c :: !Active(idr(n))
    requires Active(idr(start + c))
    ensures SweepFrom(idr, start, j, prevCol) == Sweep(c, MaskRows(idr(start + c)), c + 1)
    decreases c - j
  {
    if j < c {
      SweepStopsAtFirstActive(idr, start, j + 1, prevCol, c);
    }
  }

  /** A sweep that sees no row high keeps the previous column index and
      ends with `rowval` zero after four reads. */
  lemma {:induction false} SweepKeepsColumn(idr: nat -> bv32, start: nat, j: nat, prevCol: nat)
    requires j < 4
    requires forall n | start + j <= n < start + 4 :: !Active(idr(n))
    ensures SweepFrom(idr, start, j, prevCol) == Sweep(prevCol, 0, 4)
    decreases 4 - j
  {
    if j < 3 {
      SweepKeepsColumn(idr, start, j + 1, prevCol);
    }
  }

  /** The sample a sweep ends with is a masked one: only PA8-PA11 survive. */
  lemma {:induction false} SweepRowvalMasked(idr: nat -> bv32, start: nat, j: nat, prevCol: nat)
    requires j < 4
    ensures SweepFrom(idr, start, j, prevCol).rowval & !RowPins == 0
    decreases 4 - j
  {
    if j < 3 && MaskRows(idr(start + j)) == 0 {
      SweepRowvalMasked(idr, start, j + 1, prevCol);
    }
  }

  /** The state of the scan that persists or is observed after a cycle. */
  datatype Outcome = Outcome(cursor: nat, rowval: bv32, row: nat, col: nat)

  /** The part of a cycle after the press is confirmed, its reads starting
      at `start`: the sweep, then the row decoded from the last sweep
      sample. Indices in range stay in range, and an ambiguous or empty
      sweep leaves the stale ones in place. */
  function SweepOutcome(idr: nat -> bv32, start: nat, prevRow: nat, prevCol: nat): (o: Outcome)
    ensures prevRow < 4 && prevCol < 4 ==> o.row < 4 && o.col < 4
    ensures o.rowval == 0 ==> o.row == prevRow && o.col == prevCol
    ensures !SingleRow(o.rowval) ==> o.row == prevRow
    ensures start + 1 <= o.cursor <= start + 4
  {
    var s := SweepFrom(idr, start, 0, prevCol);
    Outcome(start + s.used, s.rowval, DecodeRow(s.rowval, prevRow), s.col)
  }

  /** After a cycle `rowval` has no bit set outside PA8-PA11, and when it
      has one bit set the row index names that bit. */
  lemma OutcomeRowval(idr: nat -> bv32, start: nat, prevRow: nat, prevCol: nat)
    ensures SweepOutcome(idr, start, prevRow, prevCol).rowval & !RowPins == 0
    ensures var o := SweepOutcome(idr, start, prevRow, prevCol);
      SingleRow(o.rowval) ==> o.row < 4 && RowPin(o.row) == o.rowval
  {
    SweepRowvalMasked(idr, start, 0, prevCol);
  }

  /** The BSRR writes of a cycle whose sweep ends with `rowval` and
      `colIndex` leave GPIOC ODR, from reset, with exactly the column found
      high among PC4-PC7 (the last one when none was found) and its other
      pins as the earlier writes left them. */
  lemma CycleWritesDriveOneColumn(earlier: seq<bv32>, writes: seq<bv32>, rowval: bv32, colIndex: nat)
    requires colIndex < 4
    requires writes == earlier + [AllColumnsHigh] + SweepWords(if rowval != 0 then colIndex + 1 else 4)
    ensures Driven(0, writes) & ColumnPins == ColumnPin(if rowval != 0 then colIndex else 3)
    ensures Driven(0, writes) & !ColumnPins == Driven(0, earlier) & !ColumnPins
  {
    CycleDrivesOneColumn(0, earlier, if rowval != 0 then colIndex + 1 else 4);
  }

  /** The locals of `main` that the scan keeps across cycles, and the two
      GPIO registers it uses. */
  class KeypadScanner {
    /** The value each successive read of GPIOA IDR returns. */
    const idr: nat -> bv32
    /** How many times GPIOA IDR has been read. */
    var cursor: nat
    /** The words written to GPIOC BSRR, oldest first. */
    var bsrrWrites: seq<bv32>
    var rowval: bv32
    var rowIndex: nat
    var colIndex: nat

    /** Both indices always address the 4x4 map. */
    ghost predicate Valid()
      reads this
    {
      rowIndex < 4 && colIndex < 4
    }

    ghost function State(): Outcome
      reads this
    {
      Outcome(cursor, rowval, rowIndex, colIndex)
    }

    /** GPIOC ODR, zero out of reset; PC4-PC7 drive the keypad columns. */
    function OdrC(): (r: bv32)
      reads this
      ensures bsrrWrites == [] ==> r == 0
    {
      Driven(0, bsrrWrites)
    }

    /** Registers out of reset, `row_index = 0`, `col_index = 0`; `rowval`
        is assigned before its first use, here it starts at zero. */
    constructor (idr: nat -> bv32)
      ensures this.idr == idr && cursor == 0 && bsrrWrites == []
      ensures rowval == 0 && rowIndex == 0 && colIndex == 0
      ensures Valid()
    {
      this.idr := idr;
      cursor, bsrrWrites, rowval, rowIndex, colIndex := 0, [], 0, 0, 0;
    }

    /** One read of GPIOA IDR. */
    method ReadIdr() returns (sample: bv32)
      modifies this`cursor
      ensures sample == idr(old(cursor)) && cursor == old(cursor) + 1
    {
      sample := idr(cursor);
      cursor := cursor + 1;
    }

    /** One write to GPIOC BSRR. */
    method WriteBsrr(w: bv32)
      modifies this`bsrrWrites
      ensures bsrrWrites == old(bsrrWrites) + [w]
    {
      bsrrWrites := bsrrWrites + [w];
    }

    /** Drive all columns high, then poll until a sample shows no row high.
        The polling reads do not touch `rowval`. */
    method WaitForRelease() returns (ghost k: nat)
      requires exists w :: cursor <= w && !Active(idr(w))
      modifies this`cursor, this`bsrrWrites
      ensures ReleaseAt(idr, old(cursor), k) && cursor == k + 1
      ensures bsrrWrites == old(bsrrWrites) + [AllColumnsHigh]
    {
      WriteBsrr(AllColumnsHigh);
      ghost var w :| cursor <= w && !Active(idr(w));
      k := cursor;
      var sample := ReadIdr();
      while MaskRows(sample) != 0
        invariant old(cursor) <= k <= w && cursor == k + 1
        invariant sample == idr(k)
        invariant bsrrWrites == old(bsrrWrites) + [AllColumnsHigh]
        invariant forall j | old(cursor) <= j < k :: Active(idr(j))
        decreases w - k
      {
        k := cursor;
        sample := ReadIdr();
      }
    }

    /** Poll with all columns high; on a sample with a row high take a second
        sample, and proceed only when that one has a row high too. */
    method WaitForPress() returns (ghost p: nat)
      requires exists w :: cursor <= w && Confirmed(idr, w)
      modifies this`cursor, this`rowval
      ensures PressAt(idr, old(cursor), p) && cursor == p + 2
      ensures rowval == MaskRows(idr(p + 1))
    {
      ghost var w :| cursor <= w && Confirmed(idr, w);
      while true
        invariant old(cursor) <= cursor <= w
        invariant forall j | old(cursor) <= j < cursor :: !Confirmed(idr, j)
        decreases w - cursor
      {
        p := cursor;
        var first := ReadIdr();
        rowval := MaskRows(first);
        if rowval != 0 {
          var second := ReadIdr();
          rowval := MaskRows(second);
          if rowval != 0 {
            break;
          }
        }
      }
    }

    /** One sweep step: the BSRR word of column `j`, then one masked read
        of the rows. */
    method DriveColumn(j: nat)
      requires j < 4
      modifies this`cursor, this`bsrrWrites, this`rowval
      ensures bsrrWrites == old(bsrrWrites) + [SweepWord(j)]
      ensures cursor == old(cursor) + 1 && rowval == MaskRows(idr(old(cursor)))
    {
      WriteBsrr(SweepWord(j));
      var sample := ReadIdr();
      rowval := MaskRows(sample);
    }

    /** Drive columns 0..3 one at a time and stop at the first that gives a
        row; `col_index` changes only then. */
    method SweepColumns() returns (ghost s: Sweep)
      modifies this`cursor, this`bsrrWrites, this`rowval, this`colIndex
      ensures s == SweepFrom(idr, old(cursor), 0, old(colIndex))
      ensures cursor == old(cursor) + s.used && rowval == s.rowval && colIndex == s.col
      ensures bsrrWrites == old(bsrrWrites) + SweepWords(s.used)
    {
      var j := 0;
      while j < 4
        invariant 0 <= j <= 4 && cursor == old(cursor) + j
        invariant colIndex == old(colIndex)
        invariant bsrrWrites == old(bsrrWrites) + SweepWords(j)
        invariant j < 4 ==> SweepFrom(idr, old(cursor), 0, colIndex) == SweepFrom(idr, old(cursor), j, colIndex)
        invariant j == 4 ==> SweepFrom(idr, old(cursor), 0, colIndex) == Sweep(colIndex, rowval, 4)
      {
        DriveColumn(j);
        SweepWordsGrow(j);
        if rowval != 0 {
          s := Sweep(j, rowval, j + 1);
          colIndex := j;
          return;
        }
        j := j + 1;
      }
      s := Sweep(colIndex, rowval, 4);
    }

    /** Only the four single-bit row masks change `row_index`. */
    method DecodeRowIndex()
      modifies this`rowIndex
      ensures rowIndex == DecodeRow(rowval, old(rowIndex))
    {
      if rowval == 0x0100 {
        rowIndex := 0;
      } else if rowval == 0x0200 {
        rowIndex := 1;
      } else if rowval == 0x0400 {
        rowIndex := 2;
      } else if rowval == 0x0800 {
        rowIndex := 3;
      }
    }

    /** The sweep and the row decode: the indices and `rowval` become those
        of SweepOutcome, and the BSRR writes are the sweep words up to the
        column found, or all four when none was. */
    method SweepAndDecode()
      modifies this`cursor, this`bsrrWrites, this`rowval, this`rowIndex, this`colIndex
      ensures State() == SweepOutcome(idr, old(cursor), old(rowIndex), old(colIndex))
      ensures bsrrWrites == old(bsrrWrites) + SweepWords(if rowval != 0 then colIndex + 1 else 4)
    {
      ghost var sweep := SweepColumns();
      DecodeRowIndex();
    }

    /** The two waits of a cycle: the release wait ends on read `release`,
        and the press wait started on the next read accepts the pair at
        `press`. */
    method WaitForKey() returns (ghost release: nat, ghost press: nat)
      requires CompletesCycle(idr, cursor)
      modifies this`cursor, this`bsrrWrites, this`rowval
      ensures ReleaseAt(idr, old(cursor), release) && PressAt(idr, release + 1, press)
      ensures cursor == press + 2 && rowval == MaskRows(idr(press + 1))
      ensures bsrrWrites == old(bsrrWrites) + [AllColumnsHigh]
    {
      ReleaseAhead(idr, cursor);
      release := WaitForRelease();
      PressFollowsRelease(idr, old(cursor), release, release + 1);
      press := WaitForPress();
    }

    /** One pass of the scan, from the `jump:` label to the row decode. The
        waits end where CycleReads says (the trace determines where, see
        ReleaseAtUnique and PressAtUnique), and the indices and `rowval`
        become those of the sweep whose reads start at `sweep`. The BSRR
        writes are the release-wait drive followed by the sweep words up to
        the column found, or all four when none was, so GPIOC ODR ends with
        exactly that column high among PC4-PC7 and its other pins as they
        were. */
    method Scan() returns (ghost release: nat, ghost press: nat, ghost sweep: nat)
      requires Valid() && CompletesCycle(idr, cursor)
      modifies this
      ensures Valid()
      ensures CycleReads(idr, old(cursor), release, press, sweep)
      ensures State() == SweepOutcome(idr, sweep, old(rowIndex), old(colIndex))
      ensures bsrrWrites == old(bsrrWrites) + [AllColumnsHigh]
        + SweepWords(if rowval != 0 then colIndex + 1 else 4)
      ensures OdrC() & ColumnPins == ColumnPin(if rowval != 0 then colIndex else 3)
      ensures OdrC() & !ColumnPins == old(OdrC()) & !ColumnPins
    {
      release, press := WaitForKey();
      sweep := cursor;
      SweepAndDecode();
      CycleWritesDriveOneColumn(old(bsrrWrites), bsrrWrites, rowval, colIndex);
    }
  }
}
