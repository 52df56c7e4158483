/** The register-level vocabulary of the keypad wiring on the STM32G071:
    rows on PA8-PA11 (read through GPIOA IDR), columns on PC4-PC7 (driven
    through GPIOC BSRR, observed in GPIOC ODR). Every register is a 32-bit
    word; an ODR is the result of the BSRR words written to its port. */
module Gpio {

  /** The mask applied to every GPIOA IDR sample: PA8-PA11. */
  const RowPins: bv32 := 0x0000_0F00

  /** Column outputs PC4-PC7 inside GPIOC ODR. */
  const ColumnPins: bv32 := 0x0000_00F0

  /** The BSRR word written before the release wait: set PC4-PC7, reset nothing. */
  const AllColumnsHigh: bv32 := 0x0000_00F0

  /** The IDR bit of row `r` (PA8 + r). */
  function RowPin(r: nat): (m: bv32)
    requires r < 4
    ensures m & RowPins == m && m != 0
  {
    if r == 0 then 0x0100 else if r == 1 then 0x0200 else if r == 2 then 0x0400 else 0x0800
  }

  /** The ODR bit of column `j` (PC4 + j). */
  function ColumnPin(j: nat): (m: bv32)
    requires j < 4
    ensures m & ColumnPins == m && m != 0
  {
    if j == 0 then 0x0010 else if j == 1 then 0x0020 else if j == 2 then 0x0040 else 0x0080
  }

  /** `rowval = GPIOA->IDR & 0x00000F00`: only the four row bits survive. */
  function MaskRows(sample: bv32): (rowval: bv32)
    ensures rowval & !RowPins == 0
  {
    sample & RowPins
  }

  /** Each row bit of the masked sample is the sampled level of that row. */
  lemma MaskKeepsRowLevels(sample: bv32, r: nat)
    requires r < 4
    ensures MaskRows(sample) & RowPin(r) == sample & RowPin(r)
  {
  }

  /** The set half (bits 0-15) of a BSRR word. */
  function SetHalf(w: bv32): (h: bv32)
    ensures h & 0xFFFF_0000 == 0
  {
    w & 0x0000_FFFF
  }

  /** The reset half (bits 16-31) of a BSRR word, aligned to ODR bit positions. */
  function ResetHalf(w: bv32): (h: bv32)
    ensures h & 0xFFFF_0000 == 0
  {
    w >> 16
  }

  /** The ODR value after writing `w` to BSRR. Every bit named by neither
      half keeps its level; BsrrSets and BsrrResets say what happens to the
      named bits. */
  function ApplyBsrr(odr: bv32, w: bv32): (r: bv32)
    ensures r & !(SetHalf(w) | ResetHalf(w)) == odr & !(SetHalf(w) | ResetHalf(w))
  {
    (odr & !ResetHalf(w)) | SetHalf(w)
  }

  /** Every bit named in the set half reads high afterwards. */
  lemma BsrrSets(odr: bv32, w: bv32)
    ensures ApplyBsrr(odr, w) & SetHalf(w) == SetHalf(w)
  {
  }

  /** Every bit named only in the reset half reads low afterwards (on the
      STM32 the set half wins when both name a bit). */
  lemma BsrrResets(odr: bv32, w: bv32)
    ensures ApplyBsrr(odr, w) & (ResetHalf(w) & !SetHalf(w)) == 0
  {
  }

  /** The BSRR word written at sweep step `j`: in both halves it names
      column pins only. */
  function SweepWord(j: nat): (w: bv32)
    requires j < 4
    ensures w & 0xFF0F_FF0F == 0
  {
    if j == 0 then 0x00E0_0010
    else if j == 1 then 0x00D0_0020
    else if j == 2 then 0x00B0_0040
    else 0x0070_0080
  }

  /** The sweep word of step `j` sets column `j` and resets the other three
      columns, and its two halves never name the same bit. */
  lemma SweepWordHalves(j: nat)
    requires j < 4
    ensures SetHalf(SweepWord(j)) == ColumnPin(j)
    ensures ResetHalf(SweepWord(j)) == ColumnPins & !ColumnPin(j)
    ensures SetHalf(SweepWord(j)) & ResetHalf(SweepWord(j)) == 0
  {
  }

  /** Driving sweep step `j` leaves exactly column `j` high among PC4-PC7 and
      every pin outside PC4-PC7 as it was. */
  lemma SweepDriveOneHot(odr: bv32, j: nat)
    requires j < 4
    ensures ApplyBsrr(odr, SweepWord(j)) & ColumnPins == ColumnPin(j)
    ensures ApplyBsrr(odr, SweepWord(j)) & !ColumnPins == odr & !ColumnPins
  {
  }

  /** Each sweep word names all four columns, so a later one overrides an
      earlier one completely. */
  lemma SweepWordsOverwrite(odr: bv32, i: nat, j: nat)
    requires i < 4 && j < 4
    ensures ApplyBsrr(ApplyBsrr(odr, SweepWord(i)), SweepWord(j)) == ApplyBsrr(odr, SweepWord(j))
  {
  }

  /** A sweep word names all four columns, so it overrides the release-wait
      drive that came before it. */
  lemma SweepOverridesRelease(odr: bv32, j: nat)
    requires j < 4
    ensures ApplyBsrr(ApplyBsrr(odr, AllColumnsHigh), SweepWord(j)) == ApplyBsrr(odr, SweepWord(j))
  {
    SweepWordHalves(j);
  }

  /** The ODR value reached from `odr` by writing `words` to BSRR in order. */
  function Driven(odr: bv32, words: seq<bv32>): bv32
  {
    if |words| == 0 then odr else ApplyBsrr(Driven(odr, words[..|words| - 1]), words[|words| - 1])
  }

  /** After a run of BSRR writes, every bit the last word sets reads high. */
  lemma DrivenLastWordSets(odr: bv32, words: seq<bv32>)
    requires |words| > 0
    ensures Driven(odr, words) & SetHalf(words[|words| - 1]) == SetHalf(words[|words| - 1])
  {
    BsrrSets(Driven(odr, words[..|words| - 1]), words[|words| - 1]);
  }

  /** Writing one sequence of words and then another is writing the two
      back to back. */
  lemma {:induction false} DrivenConcat(odr: bv32, first: seq<bv32>, second: seq<bv32>)
    ensures Driven(odr, first + second) == Driven(Driven(odr, first), second)
    decreases |second|
  {
    if |second| == 0 {
      assert first + second == first;
    } else {
      var last := |second| - 1;
      assert (first + second)[..|first + second| - 1] == first + second[..last];
      DrivenConcat(odr, first, second[..last]);
    }
  }

  /** The first `n` words of a full sweep, columns 0 to n - 1. */
  function SweepWords(n: nat): (ws: seq<bv32>)
    requires n <= 4
    ensures |ws| == n
  {
    seq(n, i requires 0 <= i < n => SweepWord(i))
  }

  /** Each sweep step appends its own word to the words of the steps
      before it. */
  lemma SweepWordsGrow(n: nat)
    requires n < 4
    ensures SweepWords(n + 1) == SweepWords(n) + [SweepWord(n)]
  {
    assert SweepWords(n + 1)[..n] == SweepWords(n);
  }

  /** After the release-wait drive and a sweep stopped at step `n - 1`, the
      ODR is what the last sweep word alone makes of the earlier value. */
  lemma {:induction false} SweepLeavesLastWord(odr: bv32, n: nat)
    requires 1 <= n <= 4
    ensures Driven(odr, [AllColumnsHigh] + SweepWords(n)) == ApplyBsrr(odr, SweepWord(n - 1))
  {
    var words := [AllColumnsHigh] + SweepWords(n);
    if n == 1 {
      assert words[..1] == [AllColumnsHigh];
      assert Driven(odr, [AllColumnsHigh]) == ApplyBsrr(odr, AllColumnsHigh);
      SweepOverridesRelease(odr, 0);
    } else {
      assert words[..|words| - 1] == [AllColumnsHigh] + SweepWords(n - 1);
      SweepLeavesLastWord(odr, n - 1);
      SweepWordsOverwrite(odr, n - 2, n - 1);
    }
  }

  /** One scan cycle's column writes, whatever came before them, leave
      exactly column `n - 1` high among PC4-PC7 and every other pin as the
      earlier writes left it. */
  lemma CycleDrivesOneColumn(odr: bv32, earlier: seq<bv32>, n: nat)
    requires 1 <= n <= 4
    ensures Driven(odr, earlier + [AllColumnsHigh] + SweepWords(n)) & ColumnPins == ColumnPin(n - 1)
    ensures Driven(odr, earlier + [AllColumnsHigh] + SweepWords(n)) & !ColumnPins
         == Driven(odr, earlier) & !ColumnPins
  {
    assert earlier + [AllColumnsHigh] + SweepWords(n) == earlier + ([AllColumnsHigh] + SweepWords(n));
    DrivenConcat(odr, earlier, [AllColumnsHigh] + SweepWords(n));
    SweepLeavesLastWord(Driven(odr, earlier), n);
    SweepDriveOneHot(Driven(odr, earlier), n - 1);
  }

  /** The release-wait drive raises all four columns and touches nothing else. */
  lemma AllColumnsDrive(odr: bv32)
    ensures ApplyBsrr(odr, AllColumnsHigh) & ColumnPins == ColumnPins
    ensures ApplyBsrr(odr, AllColumnsHigh) & !ColumnPins == odr & !ColumnPins
  {
  }

  /** Writing the same BSRR word twice has the effect of writing it once, so
      re-driving all columns before each release wait is harmless. */
  lemma BsrrIdempotent(odr: bv32, w: bv32)
    ensures ApplyBsrr(ApplyBsrr(odr, w), w) == ApplyBsrr(odr, w)
  {
  }
}
