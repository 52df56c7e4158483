# 4x4 keypad scanner on the STM32G071, modelled in Dafny

The firmware comes in two builds of one bare-metal `main`. Both run the
same scan cycle, in which the keypad rows sit on PA8-PA11 and the columns
on PC4-PC7. A cycle has four steps:

1. Drive every column high through GPIOC BSRR and wait until no row reads
   high (key release).
2. Wait for a press confirmed by two successive row samples.
3. Sweep the columns 0..3 with one-hot BSRR words, stopping at the first
   column whose sample has a row high.
4. Decode the row from the single-bit row mask.

The two builds differ in what they do with the key:

- The LCD build (`keypress_to_LCD.c`) looks the key up in `keypad_map` and
  echoes it on line 2 of an HD44780-style display driven in 8-bit mode.
- The debugger build (`keypress_on_keil.c`) stores the keycode
  `row*4+col` and the symbol in two globals that a debugger watches.

The model is organised as follows:

- `Gpio`: the register vocabulary.
  - The 0x0F00 row mask.
  - BSRR set/reset semantics, with the set half winning.
  - The four sweep words.
  - The GPIOC ODR as the fold (`Driven`) of the BSRR words written since
    reset.
- `Keypad`: the symbol table, the row decode and the keycode.
- `Lcd`: the `LcdPort` class. It holds GPIOA ODR, GPIOB ODR and the log of
  what the display controller latched: one entry per enable pulse, a
  command or data byte according to RS.
- `Scan`: the scan cycle.
  - It is specified by ghost predicates over the IDR trace: where the
    release wait ends (`ReleaseAt`) and where the press wait accepts
    (`PressAt`).
  - The sweep and the row decode are specified by pure functions
    (`SweepFrom`, `SweepOutcome`).
  - It is implemented by the `KeypadScanner` class. The class has the
    loops of `main`, the persistent `row_index`/`col_index`/`rowval`, a
    read cursor into the IDR trace and the BSRR write log.
- `KeilApp` and `LcdApp`: `main` of each build, one trip round its
  `goto jump` loop per `Cycle` call.
- `Scenarios`: complete cycles on concrete IDR traces.

GPIOA IDR is an input trace `idr: nat -> bv32`, so the n-th read of the
register returns `idr(n)`. The busy waits are unbounded in the firmware. A
cycle is therefore modelled under the hypothesis `CompletesCycle`: the keys
are all up at some read, and a key is held for two successive reads later.

The stale-index behaviour is kept as written. If the sweep finds no column,
`col_index` keeps its old value and `rowval` ends at zero. If the final
mask is not a single row bit, `row_index` keeps its old value. The key at
those indices is still looked up and emitted. `Scenarios.LetGoCycle` shows
a press released before the sweep re-emitting the previous key, or '1' on
the first cycle. `Scenarios.TwoKeysCycle` shows two keys in one column
leaving a stale row with a fresh column. The code never discards a scan
that found no column or an ambiguous row, and neither does the model.

## Model

| member | source | states |
|---|---|---|
| Gpio.RowPin | keypress_to_LCD.c:144-147 | the IDR bit of each row lies inside the 0x0F00 row mask and is not zero |
| Gpio.ColumnPin | keypress_to_LCD.c:128-131 | the ODR bit of each column lies inside PC4-PC7 and is not zero |
| Gpio.MaskRows | keypress_to_LCD.c:107 | a masked sample has no bit set outside PA8-PA11 |
| Gpio.MaskKeepsRowLevels | keypress_to_LCD.c:133 | masking keeps the level of every row pin exactly as sampled |
| Gpio.SetHalf | keypress_to_LCD.c:128 | the set half of a BSRR word (bits 0-15) never names a bit above 15 |
| Gpio.ResetHalf | keypress_to_LCD.c:128 | the reset half of a BSRR word (bits 16-31), aligned to ODR positions, never names a bit above 15 |
| Gpio.ApplyBsrr | keypress_to_LCD.c:97 | a BSRR write leaves every ODR bit named by neither half unchanged |
| Gpio.BsrrSets | keypress_to_LCD.c:97 | every bit in the set half reads high after the write |
| Gpio.BsrrResets | keypress_to_LCD.c:128 | every bit named only in the reset half reads low after the write |
| Gpio.SweepWord | keypress_to_LCD.c:128-131 | the sweep word of step j names only column pins PC4-PC7, in both its halves |
| Gpio.SweepWordHalves | keypress_to_LCD.c:128-131 | sweep word j sets exactly column j and resets exactly the other three columns, with disjoint halves |
| Gpio.SweepDriveOneHot | keypress_to_LCD.c:125-131 | after sweep word j exactly column j is high among PC4-PC7 and every pin outside PC4-PC7 is unchanged |
| Gpio.SweepWordsOverwrite | keypress_to_LCD.c:125-131 | a later sweep word fully overrides an earlier one |
| Gpio.SweepOverridesRelease | keypress_to_LCD.c:97-131 | a sweep word fully overrides the all-columns-high drive of the release wait |
| Gpio.DrivenLastWordSets | keypress_on_keil.c:93-96 | after any run of BSRR writes (Driven, GPIOC ODR as the fold of the writes) every bit the last word sets reads high |
| Gpio.DrivenConcat | keypress_on_keil.c:66-96 | the ODR after two runs of BSRR writes is the second run applied to the ODR the first one left |
| Gpio.SweepWords | keypress_to_LCD.c:125-131 | the sweep writes one word per step it takes |
| Gpio.SweepWordsGrow | keypress_to_LCD.c:125-131 | each sweep step appends its own word after the words of the earlier steps |
| Gpio.SweepLeavesLastWord | keypress_to_LCD.c:97-131 | after the release drive and n sweep steps the ODR is what the last sweep word alone makes of the earlier ODR |
| Gpio.CycleDrivesOneColumn | keypress_on_keil.c:66-104 | after one cycle's column writes exactly the last column driven is high among PC4-PC7 and every other pin is as the earlier writes left it |
| Gpio.AllColumnsDrive | keypress_on_keil.c:66 | BSRR 0xF0 raises all four columns and leaves every other pin alone |
| Gpio.BsrrIdempotent | keypress_on_keil.c:66 | writing the same BSRR word twice is writing it once |
| Keypad.Symbol | keypress_to_LCD.c:30-35 | keypad_map[row][col] is entry row*4+col of the row-major reading "123A456B789C*0#D" and a 7-bit character |
| Keypad.TableIndex | keypress_to_LCD.c:30-35 | the inverse lookup is -1 or a position holding that character |
| Keypad.SymbolRoundTrip | keypress_to_LCD.c:150 | looking up the symbol of a position gives back that position's keycode |
| Keypad.SymbolInjective | keypress_to_LCD.c:30-35 | two positions with the same symbol are the same position |
| Keypad.DecodeRow | keypress_to_LCD.c:144-147 | a single row bit decodes to the row it names; any other mask, zero or several bits, leaves the previous row index |
| Keypad.DecodeRowPin | keypress_on_keil.c:107-110 | decoding the bit of row r gives r whatever the previous index |
| Keypad.KeyCode | keypress_on_keil.c:115 | the keycode is below 16 and division and remainder by 4 give back the row and column |
| Keypad.KeyCodeSelectsSymbol | keypress_on_keil.c:115-116 | the symbol at keycode/4, keycode%4 and the row-major entry at the keycode are the symbol of the position |
| Lcd.BusByte | keypress_to_LCD.c:168 | the bus byte is bits 0-7 (PB0-PB7) of GPIOB ODR |
| Lcd.CharByte | keypress_to_LCD.c:154 | the byte LCD_disp receives for a character below 256 reads back as that character |
| Lcd.PutBus | keypress_to_LCD.c:168 | the byte written lands on PB0-PB7 |
| Lcd.PutBusKeepsUpperPins | keypress_to_LCD.c:180 | putting a byte on the bus keeps PB8-PB15 and clears the upper half-word |
| Lcd.CommandMode | keypress_to_LCD.c:169 | RS reads low afterwards |
| Lcd.DataMode | keypress_to_LCD.c:181 | RS reads high afterwards |
| Lcd.RaiseEnable | keypress_to_LCD.c:170 | EN reads high and RS is unchanged |
| Lcd.DropEnable | keypress_to_LCD.c:172 | EN reads low and RS is unchanged |
| Lcd.ControlKeepsWriteMode | keypress_to_LCD.c:167-186 | none of the control-line updates raises R/W |
| Lcd.WriteMode | keypress_to_LCD.c:79 | R/W reads low afterwards |
| Lcd.WriteModeKeepsOtherPins | keypress_to_LCD.c:79 | clearing R/W leaves PA0-PA4, PA8-PA15 and PB8-PB15 as they were |
| Lcd.WriteLeaves | keypress_to_LCD.c:167-186 | the register updates of LCD_cmd/LCD_disp leave the byte on PB0-PB7, PA0-PA4, PA8-PA15 and PB8-PB15 kept, the upper half-words clear, EN and R/W low, and RS low for a command, high for data |
| Lcd.WritesChain | keypress_to_LCD.c:153-155 | a write that follows updates which kept the untouched pins leaves the registers as that write does, measured from before those updates |
| Lcd.Latched | keypress_to_LCD.c:167-186 | the controller latches the bus byte, as data exactly when RS is high |
| Lcd.DataWrites | keypress_to_LCD.c:89-91 | one data write per character, in order, each the character's byte |
| Lcd.MessageFitsBus | keypress_to_LCD.c:88 | every character of the startup message fits the 8-bit bus |
| Lcd.LcdPort.constructor | keypress_to_LCD.c:37-43 | registers out of reset on entry to main, nothing latched, R/W low |
| Lcd.LcdPort.PulseEnable | keypress_to_LCD.c:170-173 | EN rises then falls, and exactly one write is latched with the RS level and bus byte of the pulse |
| Lcd.LcdPort.Cmd | keypress_to_LCD.c:167-174 | LCD_cmd latches exactly one command write carrying its byte, puts the byte on PB0-PB7, keeps PB8-PB15 and the other PA pins, and leaves EN, R/W and RS low |
| Lcd.LcdPort.Disp | keypress_to_LCD.c:179-186 | LCD_disp latches exactly one data write carrying its byte, puts the byte on PB0-PB7, keeps PB8-PB15 and the other PA pins, and leaves EN and R/W low with RS high |
| Lcd.LcdPort.Configure | keypress_to_LCD.c:79-85 | R/W is cleared and exactly the five set-up commands 0x38 0x01 0x0E 0x06 0x80 are latched, leaving 0x80 on the bus, RS and EN low and the untouched pins kept |
| Lcd.LcdPort.Startup | keypress_to_LCD.c:79-91 | startup latches the five set-up commands and then the bytes of "Enter Key:", leaving ':' on PB0-PB7, PB8-PB15 and the other PA pins kept, EN and R/W low and RS high |
| Lcd.LcdPort.Show | keypress_to_LCD.c:89-91 | the message loop latches one data write per character, in order; an empty message changes no register, and otherwise the last character stays on PB0-PB7 with PB8-PB15 and the other PA pins kept, EN and R/W low and RS high |
| Scan.ReleaseWaitEnds | keypress_to_LCD.c:98-100 | if some read from the start on sees no row high, the release wait has an end |
| Scan.PressWaitEnds | keypress_to_LCD.c:104-121 | if a confirmed pair lies ahead, the press wait has an end |
| Scan.ReleaseAtUnique | keypress_to_LCD.c:98-100 | the release wait can end at only one read of a given trace |
| Scan.PressAtUnique | keypress_to_LCD.c:104-121 | the press wait can accept at only one read of a given trace |
| Scan.ReleaseAhead | keypress_on_keil.c:67-69 | in a completing cycle a release read lies ahead |
| Scan.PressFollowsRelease | keypress_on_keil.c:70-88 | in a completing cycle a confirmed pair lies ahead of the read after the release read |
| Scan.SweepFrom | keypress_to_LCD.c:125-139 | the sweep ends at the column of its last read when that read had a row high; otherwise it spends all four reads, ends with rowval zero and keeps the previous column |
| Scan.SweepStopsAtFirstActive | keypress_to_LCD.c:125-139 | the sweep stops at the first column in increasing order whose sample has a row high, with that sample as rowval |
| Scan.SweepKeepsColumn | keypress_on_keil.c:91-104 | a sweep that sees no row high keeps the previous column, ends with rowval zero and uses four reads |
| Scan.SweepRowvalMasked | keypress_to_LCD.c:133 | the sweep's final rowval has no bit outside PA8-PA11 |
| Scan.SweepOutcome | keypress_to_LCD.c:125-147 | indices in 0..3 stay in 0..3; a zero rowval leaves both indices stale; a mask that is not a single row leaves the row stale; the sweep uses one to four reads |
| Scan.OutcomeRowval | keypress_to_LCD.c:133-147 | after a cycle rowval has no bit outside PA8-PA11, and a single-bit rowval is the bit of the row index |
| Scan.CycleWritesDriveOneColumn | keypress_to_LCD.c:97-139 | a cycle's BSRR writes leave exactly the column found (column 3 when none was) high among PC4-PC7 and every other ODR pin as before |
| Scan.KeypadScanner.constructor | keypress_to_LCD.c:40-42 | row_index and col_index start at 0, no register accessed yet |
| Scan.KeypadScanner.OdrC | keypress_to_LCD.c:97 | GPIOC ODR is zero while nothing has been written to BSRR |
| Scan.KeypadScanner.ReadIdr | keypress_to_LCD.c:107 | a read returns the next trace sample and advances the cursor by one |
| Scan.KeypadScanner.WriteBsrr | keypress_to_LCD.c:97 | a write appends its word to the BSRR log |
| Scan.KeypadScanner.WaitForRelease | keypress_to_LCD.c:97-100 | writes BSRR 0xF0 once, then ends on the first read with no row high |
| Scan.KeypadScanner.WaitForPress | keypress_to_LCD.c:104-121 | ends right after the first pair of successive reads that both have a row high, with rowval the second one masked |
| Scan.KeypadScanner.DriveColumn | keypress_to_LCD.c:128-133 | writes the sweep word of column j, then reads and masks one sample into rowval |
| Scan.KeypadScanner.SweepColumns | keypress_to_LCD.c:125-139 | the loop ends as SweepFrom says, after writing exactly the sweep words of the columns it tried |
| Scan.KeypadScanner.DecodeRowIndex | keypress_to_LCD.c:144-147 | row_index becomes DecodeRow of rowval and the old index |
| Scan.KeypadScanner.SweepAndDecode | keypress_to_LCD.c:125-147 | rowval and both indices become those of SweepOutcome, after exactly the sweep words up to the column found, or all four |
| Scan.KeypadScanner.WaitForKey | keypress_on_keil.c:66-88 | the release wait ends on its first quiet read, the press wait accepts the first confirmed pair after it with rowval the second sample of that pair masked, and one BSRR word (0xF0) is written |
| Scan.KeypadScanner.Scan | keypress_on_keil.c:64-110 | one cycle reads as CycleReads says, leaves the state of SweepOutcome from the read after the pair, keeps the indices in 0..3, writes 0xF0 then the sweep words, and leaves GPIOC ODR with exactly the column found high among PC4-PC7 and its other pins unchanged |
| KeilApp.PublishedPairAgrees | keypress_on_keil.c:23-24 | a published pair is never the initial placeholder, and the symbol is the row-major entry at the keycode |
| KeilApp.KeilMonitor.constructor | keypress_on_keil.c:23-42 | g_last_keycode starts at 0xFF and g_pressed_key at NUL; row_index and col_index start at 0, nothing has been read or written to BSRR |
| KeilApp.KeilMonitor.Cycle | keypress_on_keil.c:64-116 | one cycle reads and drives the columns as Scan says; afterwards g_last_keycode is row*4+col below 16 and g_pressed_key is keypad_map at keycode/4, keycode%4 |
| LcdApp.LcdKeypad.constructor | keypress_to_LCD.c:41-91 | row_index and col_index start at 0 with no BSRR write yet; the display has latched the startup commands and message; GPIOA ODR is RS alone (EN and R/W low) and GPIOB ODR is ':' with every other pin at its reset level |
| LcdApp.LcdKeypad.Cycle | keypress_to_LCD.c:95-155 | one cycle reads and drives the columns as Scan says, looks up keypad_map at the indices the scan leaves and latches exactly command 0xC0, the key's byte and a blank, in that order, leaving the blank on PB0-PB7, PB8-PB15 and the other PA pins kept, EN and R/W low and RS high |
| Scenarios.KeySixCycle | keypress_to_LCD.c:95-150 | a trace with '6' held reads as CycleReads says and yields row 1, column 2, symbol '6', despite levels on other PA pins |
| Scenarios.BounceCycle | keypress_to_LCD.c:104-121 | a bounce of active-then-quiet reads is not accepted, and the next held pair is |
| Scenarios.LetGoCycle | keypress_to_LCD.c:125-150 | a key let go before the sweep leaves rowval zero and both indices stale, so the previous key is looked up again |
| Scenarios.TwoKeysCycle | keypress_on_keil.c:91-110 | two rows in one column stop the sweep at that column but leave the row index stale |

## Left out

- Clock and pin configuration (RCC IOPENR, MODER, OTYPER, PUPDR): set-up with no effect on the scan logic.
- `msdelay`: it only lets time pass, so every call is a no-op here. The LCD enable-pulse and settle timings go with it.
- The display controller's internal state (cursor position, display RAM): the model stops at the sequence of latched writes.
- `volatile` memory-mapped registers: GPIOA IDR is an infinite input trace, GPIOC ODR the fold of the BSRR writes from a reset value of zero, and GPIOA/GPIOB ODR plain 32-bit fields.
- The non-terminating `goto jump` loop: each `Cycle` call is one trip round it.
- Scan.KeypadScanner.Scan: proved only for traces where the keys are let go and a press is confirmed later (`CompletesCycle`). A stuck row makes the firmware block forever, and that case is not modelled.
- KeilApp.KeilMonitor: `g_last_keycode` is a `uint8_t` held as a `nat`. Every value it takes (0xFF and 0..15) fits in 8 bits, so no truncation arises.
- Lcd.CharByte: the byte of a character below 256 is its code point; no character encoding beyond that is modelled.
- Scan.KeypadScanner.constructor: `rowval` is uninitialised in the firmware and is always assigned before it is read. The model starts it at zero.
