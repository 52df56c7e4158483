/** The debugger build: after each scan cycle the key is published in two
    globals for a watch window, `g_last_keycode` (0..15, 0xFF before the
    first key) and `g_pressed_key` (the symbol, NUL before the first key). */
module KeilApp {
  import opened Gpio
  import opened Keypad
  import opened Scan

  /** `g_last_keycode` before any key has been published. */
  const NoKeycode: nat := 0xFF

  /** `g_pressed_key` before any key has been published. */
  const NoKey: char := '\0'

  /** The watch globals as the cycle at `row`, `col` leaves them: the keycode
      is a number in 0..15, never the 0xFF placeholder, and the symbol is
      the map entry the keycode names in row-major order. */
  lemma PublishedPairAgrees(row: nat, col: nat)
    requires row < 4 && col < 4
    ensures KeyCode(row, col) != NoKeycode && Symbol(row, col) != NoKey
    ensures RowMajor[KeyCode(row, col)] == Symbol(row, col)
  {
    KeyCodeSelectsSymbol(row, col);
  }

  /** `main` of the debugger build, with its two globals. */
  class KeilMonitor {
    const scanner: KeypadScanner
    /** `g_last_keycode`, an 8-bit global. */
    var lastKeycode: nat
    /** `g_pressed_key`. */
    var pressedKey: char
    /** How many cycles have completed. */
    ghost var cycles: nat

    /** The globals hold their initial values until the first cycle ends,
        and from then on they describe the key the scanner's indices name. */
    ghost predicate Valid()
      reads this, scanner
    {
      scanner.Valid()
      && (cycles == 0 ==> lastKeycode == NoKeycode && pressedKey == NoKey)
      && (cycles > 0 ==>
            lastKeycode == KeyCode(scanner.rowIndex, scanner.colIndex)
            && pressedKey == Symbol(scanner.rowIndex, scanner.colIndex))
    }

    /** Reset: the globals at their initialisers, the scan locals at zero. */
    constructor (idr: nat -> bv32)
      ensures Valid() && fresh(scanner) && cycles == 0
      ensures lastKeycode == NoKeycode && pressedKey == NoKey
      ensures scanner.idr == idr && scanner.cursor == 0 && scanner.bsrrWrites == []
      ensures scanner.rowIndex == 0 && scanner.colIndex == 0 && scanner.rowval == 0
    {
      scanner := new KeypadScanner(idr);
      lastKeycode := NoKeycode;
      pressedKey := NoKey;
      cycles := 0;
    }

    /** One trip round the `goto jump` loop: scan, then store the keycode
        and the symbol of the indices the scan leaves, stale or not. */
    method Cycle() returns (ghost release: nat, ghost press: nat, ghost sweep: nat)
      requires Valid() && CompletesCycle(scanner.idr, scanner.cursor)
      modifies this, scanner
      ensures Valid() && cycles == old(cycles) + 1
      ensures CycleReads(scanner.idr, old(scanner.cursor), release, press, sweep)
      ensures scanner.State() == SweepOutcome(scanner.idr, sweep, old(scanner.rowIndex), old(scanner.colIndex))
      ensures scanner.bsrrWrites == old(scanner.bsrrWrites) + [AllColumnsHigh]
        + SweepWords(if scanner.rowval != 0 then scanner.colIndex + 1 else 4)
      ensures lastKeycode == KeyCode(scanner.rowIndex, scanner.colIndex)
      ensures pressedKey == Symbol(scanner.rowIndex, scanner.colIndex)
      ensures lastKeycode < 16 && pressedKey == Symbol(lastKeycode / 4, lastKeycode % 4)
    {
      release, press, sweep := scanner.Scan();
      var row, col := scanner.rowIndex, scanner.colIndex;
      lastKeycode := row * 4 + col;
      pressedKey := Symbol(row, col);
      cycles := cycles + 1;
      KeyCodeSelectsSymbol(row, col);
    }
  }
}
