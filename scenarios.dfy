/** Concrete cycles on fixed IDR traces. Every sample also carries levels
    on pins outside PA8-PA11 (here PA5-PA7, the LCD control lines), which
    the row mask must ignore. */
module Scenarios {
  import opened Gpio
  import opened Keypad
  import opened Scan

  /** Levels on PA5-PA7 that show up in every IDR sample. */
  const OtherPins: bv32 := 0x0000_00E0

  /** Key '6' (row 1, column 2): released on read 0, held on reads 1 and 2,
      then seen only while column 2 is driven (read 5). */
  function KeySixTrace(n: nat): bv32
  {
    (if n == 1 || n == 2 || n == 5 then 0x0200 else 0) | OtherPins
  }

  lemma {:induction false} KeySixCycle()
    ensures CycleReads(KeySixTrace, 0, 0, 1, 3)
    ensures SweepOutcome(KeySixTrace, 3, 0, 0) == Outcome(6, 0x0200, 1, 2)
    ensures Symbol(1, 2) == '6' && KeyCode(1, 2) == 6
  {
    assert !Active(KeySixTrace(0));
    assert Confirmed(KeySixTrace, 1);
    assert !Active(KeySixTrace(3)) && !Active(KeySixTrace(4)) && Active(KeySixTrace(5));
    SweepStopsAtFirstActive(KeySixTrace, 3, 0, 0, 2);
  }

  /** Key '1' with contact bounce: the first touch (read 1) is not held on
      read 2, so the press wait keeps polling and accepts reads 3 and 4. */
  function BounceTrace(n: nat): bv32
  {
    (if n == 1 || n == 3 || n == 4 || n == 5 then 0x0100 else 0) | OtherPins
  }

  lemma {:induction false} BounceCycle()
    ensures !Confirmed(BounceTrace, 1)
    ensures CycleReads(BounceTrace, 0, 0, 3, 5)
    ensures SweepOutcome(BounceTrace, 5, 0, 0) == Outcome(6, 0x0100, 0, 0)
  {
    assert !Active(BounceTrace(0));
    assert !Active(BounceTrace(2));
    assert !Confirmed(BounceTrace, 2);
    assert Confirmed(BounceTrace, 3);
    assert Active(BounceTrace(5));
  }

  /** Key 'C' is let go between the debounce and the sweep: no column
      answers, `rowval` ends at zero, and both indices keep the values of
      the previous cycle, so that key is reported again. */
  function LetGoTrace(n: nat): bv32
  {
    (if n == 1 || n == 2 then 0x0400 else 0) | OtherPins
  }

  lemma {:induction false} LetGoCycle()
    ensures CycleReads(LetGoTrace, 0, 0, 1, 3)
    ensures SweepOutcome(LetGoTrace, 3, 2, 3) == Outcome(7, 0, 2, 3)
    ensures SweepOutcome(LetGoTrace, 3, 0, 0) == Outcome(7, 0, 0, 0)
    ensures Symbol(2, 3) == 'C' && Symbol(0, 0) == '1'
  {
    assert !Active(LetGoTrace(0));
    assert Confirmed(LetGoTrace, 1);
    SweepKeepsColumn(LetGoTrace, 3, 0, 3);
    SweepKeepsColumn(LetGoTrace, 3, 0, 0);
  }

  /** Keys '2' and '5' (rows 0 and 1 of column 1) held together: the sweep
      stops at column 1 with two row bits set, which is no single row, so
      the row index stays stale while the column index moves. */
  function TwoKeysTrace(n: nat): bv32
  {
    (if n == 1 || n == 2 || n == 4 then 0x0300 else 0) | OtherPins
  }

  lemma {:induction false} TwoKeysCycle()
    ensures CycleReads(TwoKeysTrace, 0, 0, 1, 3)
    ensures SweepOutcome(TwoKeysTrace, 3, 3, 0) == Outcome(5, 0x0300, 3, 1)
    ensures !SingleRow(0x0300) && Symbol(3, 1) == '0'
  {
    assert !Active(TwoKeysTrace(0));
    assert Confirmed(TwoKeysTrace, 1);
    assert !Active(TwoKeysTrace(3)) && Active(TwoKeysTrace(4));
    SweepStopsAtFirstActive(TwoKeysTrace, 3, 0, 3, 1);
  }
}
