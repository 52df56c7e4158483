/** The LCD build: after the display's power-on sequence, every scan cycle
    echoes the key on the start of the second line, followed by a blank. */
module LcdApp {
  import opened Gpio
  import opened Keypad
  import opened Scan
  import opened Lcd

  /** `LCD_cmd(0xC0)`: set the display address to the start of line 2. */
  const SecondLine: bv8 := 0xC0

  /** Three writes logged one after another are the three-write echo. */
  lemma EchoLog(log: seq<LcdWrite>, b: bv8)
    ensures log + [Command(SecondLine)] + [Data(b)] + [Data(CharByte(' '))]
         == log + [Command(SecondLine), Data(b), Data(CharByte(' '))]
  {
  }

  /** `main` of the LCD build: the keypad scan and the display it drives. */
  class LcdKeypad {
    const scanner: KeypadScanner
    const lcd: LcdPort

    /** The scan indices address the map and the display is in write mode. */
    ghost predicate Valid()
      reads this, scanner, lcd
    {
      scanner.Valid() && lcd.Valid()
    }

    /** Reset, then the display's power-on sequence and startup message. */
    constructor (idr: nat -> bv32)
      ensures Valid() && fresh(scanner) && fresh(lcd)
      ensures scanner.idr == idr && scanner.cursor == 0 && scanner.bsrrWrites == []
      ensures scanner.rowIndex == 0 && scanner.colIndex == 0 && scanner.rowval == 0
      ensures lcd.log == StartupCommands + DataWrites(StartupMessage)
      ensures lcd.odrA == RegisterSelectPin && lcd.odrB == CharByte(':') as bv32
    {
      scanner := new KeypadScanner(idr);
      lcd := new LcdPort();
      new;
      lcd.Startup();
    }

    /** One trip round the `goto jump` loop: scan, look the key up at the
        indices the scan leaves, stale or not, and echo it on line 2. */
    method Cycle() returns (key: char, ghost release: nat, ghost press: nat, ghost sweep: nat)
      requires Valid() && CompletesCycle(scanner.idr, scanner.cursor)
      modifies scanner, lcd
      ensures Valid()
      ensures CycleReads(scanner.idr, old(scanner.cursor), release, press, sweep)
      ensures scanner.State() == SweepOutcome(scanner.idr, sweep, old(scanner.rowIndex), old(scanner.colIndex))
      ensures scanner.bsrrWrites == old(scanner.bsrrWrites) + [AllColumnsHigh]
        + SweepWords(if scanner.rowval != 0 then scanner.colIndex + 1 else 4)
      ensures key == Symbol(scanner.rowIndex, scanner.colIndex)
      ensures lcd.log == old(lcd.log) + [Command(SecondLine), Data(CharByte(key)), Data(CharByte(' '))]
      ensures LeftByWrite(lcd.odrA, lcd.odrB, old(lcd.odrA), old(lcd.odrB), CharByte(' '), true)
    {
      release, press, sweep := scanner.Scan();
      key := Symbol(scanner.rowIndex, scanner.colIndex);
      EchoLog(lcd.log, CharByte(key));
      lcd.Cmd(SecondLine);
      lcd.Disp(CharByte(key));
      ghost var odrA1, odrB1 := lcd.odrA, lcd.odrB;
      assert KeepsOtherPins(odrA1, odrB1, old(lcd.odrA), old(lcd.odrB));
      lcd.Disp(CharByte(' '));
      WritesChain(lcd.odrA, lcd.odrB, odrA1, odrB1, old(lcd.odrA), old(lcd.odrB), CharByte(' '), true);
    }
  }
}
