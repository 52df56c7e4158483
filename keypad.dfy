/** The logical side of the 4x4 keypad: the symbol table, the decoding of a
    masked row sample into a row index, and the keycode the debugger build
    publishes. */
module Keypad {
  import opened Gpio

  /** `keypad_map`: row-major, rows PA8..PA11, columns PC4..PC7. */
  const KeypadMap: seq<seq<char>> := [
    ['1', '2', '3', 'A'],
    ['4', '5', '6', 'B'],
    ['7', '8', '9', 'C'],
    ['*', '0', '#', 'D']
  ]

  /** The sixteen symbols read row by row. */
  const RowMajor: string := "123A456B789C*0#D"

  /** `keypad_map[row][col]`, which is the key at position `row * 4 + col`
      of the row-major reading and a 7-bit character the LCD can take. */
  function Symbol(row: nat, col: nat): (c: char)
    requires row < 4 && col < 4
    ensures c == RowMajor[row * 4 + col]
    ensures c as int < 128
  {
    KeypadMap[row][col]
  }

  /** Where a character stands in the row-major reading, or -1 for a
      character that is not on the keypad. */
  function TableIndex(c: char): (i: int)
    ensures -1 <= i < 16
    ensures 0 <= i ==> RowMajor[i] == c
  {
    if c == '1' then 0 else if c == '2' then 1 else if c == '3' then 2 else if c == 'A' then 3
    else if c == '4' then 4 else if c == '5' then 5 else if c == '6' then 6 else if c == 'B' then 7
    else if c == '7' then 8 else if c == '8' then 9 else if c == '9' then 10 else if c == 'C' then 11
    else if c == '*' then 12 else if c == '0' then 13 else if c == '#' then 14 else if c == 'D' then 15
    else -1
  }

  /** The symbol of a position determines the position: TableIndex undoes
      Symbol, so no two keys share a symbol. */
  lemma {:induction false} SymbolRoundTrip(row: nat, col: nat)
    requires row < 4 && col < 4
    ensures TableIndex(Symbol(row, col)) == KeyCode(row, col)
  {
    var i := row * 4 + col;
    assert RowMajor[i] == Symbol(row, col);
    assert 0 <= i < 16;
    if i < 8 {
      if i < 4 {
        assert i == 0 || i == 1 || i == 2 || i == 3;
      } else {
        assert i == 4 || i == 5 || i == 6 || i == 7;
      }
    } else if i < 12 {
      assert i == 8 || i == 9 || i == 10 || i == 11;
    } else {
      assert i == 12 || i == 13 || i == 14 || i == 15;
    }
  }

  /** Two different positions never carry the same symbol. */
  lemma SymbolInjective(r1: nat, c1: nat, r2: nat, c2: nat)
    requires r1 < 4 && c1 < 4 && r2 < 4 && c2 < 4
    requires Symbol(r1, c1) == Symbol(r2, c2)
    ensures r1 == r2 && c1 == c2
  {
    SymbolRoundTrip(r1, c1);
    SymbolRoundTrip(r2, c2);
  }

  /** A masked row sample that names exactly one row: a single bit, and that
      bit among PA8-PA11. */
  predicate SingleRow(rowval: bv32)
  {
    rowval != 0 && rowval & !RowPins == 0 && rowval & (rowval - 1) == 0
  }

  /** Row decode: the four single-bit masks 0x0100, 0x0200, 0x0400, 0x0800
      give rows 0..3; every other value (zero, several bits) leaves the
      previous row index in place. */
  function DecodeRow(rowval: bv32, prev: nat): (row: nat)
    ensures SingleRow(rowval) ==> row < 4 && RowPin(row) == rowval
    ensures !SingleRow(rowval) ==> row == prev
  {
    if rowval == 0x0100 then 0
    else if rowval == 0x0200 then 1
    else if rowval == 0x0400 then 2
    else if rowval == 0x0800 then 3
    else prev
  }

  /** Decoding the IDR bit of row `r` gives back `r`, whatever the previous
      index was. */
  lemma DecodeRowPin(r: nat, prev: nat)
    requires r < 4
    ensures SingleRow(RowPin(r)) && DecodeRow(RowPin(r), prev) == r
  {
  }

  /** `g_last_keycode = (row_index * 4) + col_index`: a number in 0..15 from
      which the position is recovered by division and remainder by four. */
  function KeyCode(row: nat, col: nat): (code: nat)
    requires row < 4 && col < 4
    ensures code < 16
    ensures code / 4 == row && code % 4 == col
  {
    row * 4 + col
  }

  /** The symbol published next to a keycode is the map entry the keycode
      names in row-major order. */
  lemma KeyCodeSelectsSymbol(row: nat, col: nat)
    requires row < 4 && col < 4
    ensures Symbol(KeyCode(row, col) / 4, KeyCode(row, col) % 4) == Symbol(row, col)
    ensures RowMajor[KeyCode(row, col)] == Symbol(row, col)
  {
  }
}
