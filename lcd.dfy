/** The HD44780-style character display of the LCD build, driven in 8-bit
    mode: data bus on PB0-PB7 (GPIOB ODR), control lines EN = PA5,
    R/W = PA6, RS = PA7 (GPIOA ODR). The controller is modelled by what it
    latches: one LcdWrite per enable pulse, a command when RS is low and a
    data byte when RS is high, the byte being PB0-PB7 at that moment. */
module Lcd {

  datatype LcdWrite = Command(code: bv8) | Data(code: bv8)

  const EnablePin: bv32 := 0x0000_0020
  const ReadWritePin: bv32 := 0x0000_0040
  const RegisterSelectPin: bv32 := 0x0000_0080

  /** The byte on PB0-PB7. */
  function BusByte(odrB: bv32): (b: bv8)
    ensures b as bv32 == odrB & 0xFF
  {
    (odrB & 0xFF) as bv8
  }

  /** `(GPIOB->ODR & 0xFF00) | byte`: the byte lands on PB0-PB7. */
  function PutBus(odrB: bv32, b: bv8): (r: bv32)
    ensures BusByte(r) == b
  {
    (odrB & 0xFF00) | b as bv32
  }

  /** Putting a byte on the bus keeps PB8-PB15 (and leaves the reserved
      upper half clear). */
  lemma PutBusKeepsUpperPins(odrB: bv32, b: bv8)
    ensures PutBus(odrB, b) & 0xFFFF_FF00 == odrB & 0xFF00
  {
  }

  /** `GPIOA->ODR &= 0xFF7F`: RS low selects the instruction register. */
  function CommandMode(odrA: bv32): (r: bv32)
    ensures r & RegisterSelectPin == 0
  {
    odrA & 0xFF7F
  }

  /** `GPIOA->ODR |= 0x0080`: RS high selects the data register. */
  function DataMode(odrA: bv32): (r: bv32)
    ensures r & RegisterSelectPin == RegisterSelectPin
  {
    odrA | 0x0080
  }

  /** `GPIOA->ODR |= 0x0020`: EN high, RS untouched. */
  function RaiseEnable(odrA: bv32): (r: bv32)
    ensures r & (RegisterSelectPin | EnablePin) == (odrA & RegisterSelectPin) | EnablePin
  {
    odrA | 0x0020
  }

  /** `GPIOA->ODR &= 0xFFDF`: EN low, RS untouched. */
  function DropEnable(odrA: bv32): (r: bv32)
    ensures r & (RegisterSelectPin | EnablePin) == odrA & RegisterSelectPin
  {
    odrA & 0xFFDF
  }

  /** None of the control-line updates ever raises R/W. */
  lemma ControlKeepsWriteMode(odrA: bv32)
    requires odrA & ReadWritePin == 0
    ensures CommandMode(odrA) & ReadWritePin == 0
    ensures DataMode(odrA) & ReadWritePin == 0
    ensures RaiseEnable(odrA) & ReadWritePin == 0
    ensures DropEnable(odrA) & ReadWritePin == 0
  {
  }

  /** `GPIOA->ODR &= 0xFFBF`: R/W low, the display only listens. */
  function WriteMode(odrA: bv32): (r: bv32)
    ensures r & ReadWritePin == 0
  {
    odrA & 0xFFBF
  }

  /** The pins the display routines never touch keep their levels: PA0-PA4
      and PA8-PA15 of GPIOA, PB8-PB15 of GPIOB. */
  predicate KeepsOtherPins(odrA: bv32, odrB: bv32, odrA0: bv32, odrB0: bv32)
  {
    odrA & 0xFF1F == odrA0 & 0xFF1F && odrB & 0xFF00 == odrB0 & 0xFF00
  }

  /** The two ODRs as one LCD_cmd (`data` false) or LCD_disp (`data` true)
      of `b` leaves them, starting from `odrA0`, `odrB0`: `b` on PB0-PB7,
      the untouched pins kept, the reserved upper half-words clear, EN and
      R/W low and RS low for a command, high for data. */
  predicate LeftByWrite(odrA: bv32, odrB: bv32, odrA0: bv32, odrB0: bv32, b: bv8, data: bool)
  {
    KeepsOtherPins(odrA, odrB, odrA0, odrB0)
    && odrA & 0xFFFF_0000 == 0 && odrB & 0xFFFF_0000 == 0
    && BusByte(odrB) == b
    && odrA & (EnablePin | ReadWritePin | RegisterSelectPin) == (if data then RegisterSelectPin else 0)
  }

  /** The register updates of LCD_cmd and LCD_disp, from a GPIOA ODR with
      R/W low, leave the registers as LeftByWrite says. */
  lemma WriteLeaves(odrA0: bv32, odrB0: bv32, b: bv8, data: bool)
    requires odrA0 & ReadWritePin == 0
    ensures LeftByWrite(DropEnable(RaiseEnable(if data then DataMode(odrA0) else CommandMode(odrA0))),
                        PutBus(odrB0, b), odrA0, odrB0, b, data)
  {
  }

  /** A write after any updates that kept the untouched pins leaves the
      registers as that write does, measured from before those updates. */
  lemma WritesChain(odrA2: bv32, odrB2: bv32, odrA1: bv32, odrB1: bv32, odrA0: bv32, odrB0: bv32, b: bv8, data: bool)
    requires LeftByWrite(odrA2, odrB2, odrA1, odrB1, b, data)
    requires KeepsOtherPins(odrA1, odrB1, odrA0, odrB0)
    ensures LeftByWrite(odrA2, odrB2, odrA0, odrB0, b, data)
  {
  }

  /** Clearing R/W keeps the pins the display routines leave alone. */
  lemma WriteModeKeepsOtherPins(odrA: bv32, odrB: bv32)
    ensures KeepsOtherPins(WriteMode(odrA), odrB, odrA, odrB)
  {
  }

  /** What the controller takes in when EN falls. */
  function Latched(odrA: bv32, odrB: bv32): (w: LcdWrite)
    ensures w.code == BusByte(odrB)
    ensures w.Data? <==> odrA & RegisterSelectPin != 0
  {
    if odrA & RegisterSelectPin != 0 then Data(BusByte(odrB)) else Command(BusByte(odrB))
  }

  /** A character the 8-bit bus can carry, as the byte passed to LCD_disp:
      the byte read back as a character is that character. */
  function CharByte(c: char): (b: bv8)
    requires c as int < 256
    ensures b as char == c
  {
    c as bv8
  }

  /** The data writes that put the characters of `s` on the display. */
  function DataWrites(s: string): (ws: seq<LcdWrite>)
    requires forall i | 0 <= i < |s| :: s[i] as int < 256
    ensures |ws| == |s|
    ensures forall i | 0 <= i < |s| :: ws[i] == Data(CharByte(s[i]))
  {
    seq(|s|, i requires 0 <= i < |s| => Data(CharByte(s[i])))
  }

  /** The power-on message of line 1. */
  const StartupMessage: string := "Enter Key:"

  /** Every character of the message fits the 8-bit bus. */
  lemma MessageFitsBus()
    ensures forall i | 0 <= i < |StartupMessage| :: StartupMessage[i] as int < 256
  {
  }

  /** The power-on commands: 8-bit 2-line mode, clear, display on with
      cursor, auto-increment, cursor to the start of line 1. */
  const StartupCommands: seq<LcdWrite> :=
    [Command(0x38), Command(0x01), Command(0x0E), Command(0x06), Command(0x80)]

  class LcdPort {
    var odrA: bv32
    var odrB: bv32
    /** Everything the controller has latched, oldest first. */
    var log: seq<LcdWrite>

    /** After startup R/W stays low: the display is only ever written. */
    ghost predicate Valid()
      reads this
    {
      odrA & ReadWritePin == 0
    }

    /** The registers out of reset, before anything was sent. */
    constructor ()
      ensures odrA == 0 && odrB == 0 && log == []
      ensures Valid()
    {
      odrA, odrB, log := 0, 0, [];
    }

    /** EN high, hold, EN low, settle; the controller latches on the falling
        edge. The delays are elapsed time only. */
    method PulseEnable()
      modifies this`odrA, this`log
      ensures odrA == DropEnable(RaiseEnable(old(odrA)))
      ensures log == old(log) + [Latched(RaiseEnable(old(odrA)), odrB)]
    {
      odrA := RaiseEnable(odrA);
      log := log + [Latched(odrA, odrB)];
      odrA := DropEnable(odrA);
    }

    /** LCD_cmd: the byte on the bus, RS low, one enable pulse. */
    method Cmd(comd: bv8)
      requires Valid()
      modifies this
      ensures Valid()
      ensures odrB == PutBus(old(odrB), comd)
      ensures odrA == DropEnable(RaiseEnable(CommandMode(old(odrA))))
      ensures log == old(log) + [Command(comd)]
      ensures LeftByWrite(odrA, odrB, old(odrA), old(odrB), comd, false)
    {
      odrB := PutBus(odrB, comd);
      odrA := CommandMode(odrA);
      ControlKeepsWriteMode(old(odrA));
      ControlKeepsWriteMode(odrA);
      PulseEnable();
      ControlKeepsWriteMode(RaiseEnable(CommandMode(old(odrA))));
      WriteLeaves(old(odrA), old(odrB), comd, false);
    }

    /** LCD_disp: the byte on the bus, RS high, one enable pulse. */
    method Disp(char1: bv8)
      requires Valid()
      modifies this
      ensures Valid()
      ensures odrB == PutBus(old(odrB), char1)
      ensures odrA == DropEnable(RaiseEnable(DataMode(old(odrA))))
      ensures log == old(log) + [Data(char1)]
      ensures LeftByWrite(odrA, odrB, old(odrA), old(odrB), char1, true)
    {
      odrB := PutBus(odrB, char1);
      odrA := DataMode(odrA);
      ControlKeepsWriteMode(old(odrA));
      ControlKeepsWriteMode(odrA);
      PulseEnable();
      ControlKeepsWriteMode(RaiseEnable(DataMode(old(odrA))));
      WriteLeaves(old(odrA), old(odrB), char1, true);
    }

    /** The power-on commands of main: R/W low, then 8-bit 2-line mode,
        clear, display on with cursor, auto-increment, line 1. */
    method Configure()
      modifies this
      ensures Valid()
      ensures log == old(log) + StartupCommands
      ensures LeftByWrite(odrA, odrB, old(odrA), old(odrB), 0x80, false)
    {
      WriteModeKeepsOtherPins(odrA, odrB);
      odrA := WriteMode(odrA);
      ghost var odrA0, odrB0 := odrA, odrB;
      Cmd(0x38);
      WritesChain(odrA, odrB, odrA0, odrB0, old(odrA), old(odrB), 0x38, false);
      ghost var odrA1, odrB1 := odrA, odrB;
      Cmd(0x01);
      WritesChain(odrA, odrB, odrA1, odrB1, old(odrA), old(odrB), 0x01, false);
      ghost var odrA2, odrB2 := odrA, odrB;
      Cmd(0x0E);
      WritesChain(odrA, odrB, odrA2, odrB2, old(odrA), old(odrB), 0x0E, false);
      ghost var odrA3, odrB3 := odrA, odrB;
      Cmd(0x06);
      WritesChain(odrA, odrB, odrA3, odrB3, old(odrA), old(odrB), 0x06, false);
      ghost var odrA4, odrB4 := odrA, odrB;
      Cmd(0x80);
      WritesChain(odrA, odrB, odrA4, odrB4, old(odrA), old(odrB), 0x80, false);
    }

    /** The power-on part of main: the set-up commands, then the message,
        whose last character ':' stays on the bus. */
    method Startup()
      modifies this
      ensures Valid()
      ensures log == old(log) + StartupCommands + DataWrites(StartupMessage)
      ensures LeftByWrite(odrA, odrB, old(odrA), old(odrB), CharByte(':'), true)
    {
      Configure();
      ghost var odrA1, odrB1 := odrA, odrB;
      MessageFitsBus();
      Show(StartupMessage);
      assert StartupMessage[|StartupMessage| - 1] == ':';
      WritesChain(odrA, odrB, odrA1, odrB1, old(odrA), old(odrB), CharByte(':'), true);
    }

    /** The message loop of main: each character of `msg` in turn, as data. */
    method Show(msg: string)
      requires Valid()
      requires forall i | 0 <= i < |msg| :: msg[i] as int < 256
      modifies this
      ensures Valid()
      ensures log == old(log) + DataWrites(msg)
      ensures |msg| == 0 ==> odrA == old(odrA) && odrB == old(odrB)
      ensures |msg| > 0 ==> LeftByWrite(odrA, odrB, old(odrA), old(odrB), CharByte(msg[|msg| - 1]), true)
    {
      var j := 0;
      while j < |msg|
        invariant 0 <= j <= |msg|
        invariant Valid()
        invariant log == old(log) + DataWrites(msg[..j])
        invariant j == 0 ==> odrA == old(odrA) && odrB == old(odrB)
        invariant j > 0 ==> LeftByWrite(odrA, odrB, old(odrA), old(odrB), CharByte(msg[j - 1]), true)
      {
        ghost var odrA1, odrB1 := odrA, odrB;
        Disp(CharByte(msg[j]));
        if j > 0 {
          WritesChain(odrA, odrB, odrA1, odrB1, old(odrA), old(odrB), CharByte(msg[j]), true);
        }
        assert msg[..j + 1] == msg[..j] + [msg[j]];
        j := j + 1;
      }
      assert msg[..j] == msg;
    }
  }
}
