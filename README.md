# Xarcade adapter: matrix scan and keyboard report

The Xarcade adapter firmware turns an arcade control panel into a USB
keyboard. The panel's switches form an 8 x 4 matrix. The 8 output lines are
on port B. The 4 input lines are the low bits of port D, with pull-ups, so an
open switch reads high. Whenever the USB HID class driver asks for a report, the
callback `CALLBACK_HID_Device_CreateHIDReport` scans the matrix:

- for each output line `key` (0..7) it writes `~(1 << key)` to PORTB;
- for each input line `x` (0..3) it tests `(PIND & (1 << x)) ^ (1 << x)`;
- for each closed switch it writes the keycode `Mapping[x * 8 + key]` into the
  next slot of the report's keycode array.

It then sets the report size to the full report and returns `false`. `Mapping`
is the constant 32-entry table of HID Keyboard/Keypad usages A..Z and 1..6, as
given in section 10 of the USB HID Usage Tables 1.12.

The project has three modules:

- `Keymap` (keymap.dfy) holds the usage constants, the `Mapping` table and
  the table index `input * 8 + key`, with lemmas about the table: the run
  A..Z, 1..6, no empty entry, no duplicates.
- `Scanner` (scanner.dfy) models the GPIO side:
  - a `Port` class whose `portB` field the scan writes, and whose input
    levels are a fixed function `lines` of the PORTB pattern;
  - the drive pattern `Drive` and the closure test `Closed`, both on `bv8`;
  - the boolean matrix `Closures` of one scan's readings;
  - `Scan`, the closed switches met up to a point of the two nested loops, in
    probe order, with lemmas about its order, its members and its length.
- `Encoder` (encoder.dfy) models the callback itself:
  - `CreateHIDReport` is a method with the two nested loops. It writes
    PORTB, reads PIND and fills the caller's `array<bv8>` in place through the
    counter `used`.
  - It is proved against the specification function `Report`: the keycodes
    of the scan, in scan order, followed by whatever the buffer already held.
  - Lemmas about `Report` state what the firmware promises: slot contents,
    untouched tail, zeroed buffer, idle panel, full panel, no duplicates, and
    the worked examples.

Three facts about the callback shape the model:

- It never clears the report buffer, and never compares `UsedKeyCodes` with
  the capacity. The model keeps the buffer's old contents after the used
  slots, and it proves that the counter cannot pass 32 because there are only
  32 switches. `ReportFromZeroed` states the zeroed-buffer case that the HID
  class driver provides.
- The table index is `x * 8 + key`, so with switches (0,0) and (1,0) closed,
  slot 0 holds `Mapping[0 * 8 + 0]` (A) and slot 1 holds `Mapping[0 * 8 + 1]`
  (B).
- All 32 table entries are valid keyboard usages.

## Model

| member | source | states |
|---|---|---|
| Keymap.TableIndex | Xarcade.c:148 | the index `x * 8 + key` of an input below 4 and an output below 8 is below 32, so the table read is in bounds |
| Keymap.TableIndexInverse | Xarcade.c:148 | the switch is recovered from its table index: index / 8 is the input, index % 8 the output |
| Keymap.TableIndexInjective | Xarcade.c:148 | two switches share a table index if and only if they are the same switch |
| Keymap.MappingSize | Xarcade.c:31-64 | the table has 32 entries, one per switch |
| Keymap.MappingConsecutive | Xarcade.c:31-64 | entry i is usage 0x04 + i for every i: one run of consecutive usages from A |
| Keymap.MappingIsAlphanumeric | Xarcade.c:31-64 | entries 0..25 are the letters A..Z and entries 26..31 the digits 1..6 |
| Keymap.MappingNoEmptyEntry | Xarcade.c:31-64 | no entry is the "no key" usage 0 |
| Keymap.MappingDistinct | Xarcade.c:31-64 | no two entries are equal |
| Keymap.MappingExamples | Xarcade.c:32-42 | entries 0, 1 and 10 are A, B and K |
| Scanner.DriveOneLowBit | Xarcade.c:145 | the PORTB pattern `~(1 << key)` has exactly one low bit, at position key |
| Scanner.Closed | Xarcade.c:147 | the closure test holds if and only if input bit x of the PIND value reads 0 |
| Scanner.ClosedReadings | Xarcade.c:147 | under the closure test 0xFF shows no closed input, 0xFE only input 0 and 0xFD only input 1 |
| Scanner.PositionInjective | Xarcade.c:144-146 | two switches are probed at the same step of the nested loops if and only if they are the same switch |
| Scanner.Closures | Xarcade.c:144-147 | entry (key, x) of the matrix is true if and only if the closure test holds of the value read while output key is driven |
| Scanner.Scan | Xarcade.c:144-150 | the switches found closed so far are valid switches probed before this point, at most one per probe |
| Scanner.FullScan | Xarcade.c:144-151 | a whole scan finds at most 32 closed switches |
| Scanner.ScanOrdered | Xarcade.c:144-150 | closed switches are listed in strictly increasing probe order: output-major, input-minor |
| Scanner.ScanMembers | Xarcade.c:144-150 | a switch is listed if and only if it is closed and was probed before this point |
| Scanner.ScanAllClosed | Xarcade.c:144-150 | with every switch closed, every probe adds its switch, the i-th listed being the i-th probed |
| Scanner.LineOpen | Xarcade.c:146-150 | probing an output line with no closed switch adds nothing |
| Scanner.LinesOpen | Xarcade.c:144-151 | probing a run of output lines with no closed switch adds nothing |
| Scanner.LineOneClosed | Xarcade.c:146-150 | probing an output line with exactly one closed switch appends that switch |
| Scanner.ScanOneClosed | Xarcade.c:144-151 | a matrix with one closed switch scans to that switch alone |
| Scanner.ScanAdjacentPair | Xarcade.c:144-151 | two closed switches on one input of neighbouring outputs come out lower output first |
| Scanner.ClosuresExampleAB | Xarcade.c:145-147 | outputs 0 and 1 reading 0xFE and the rest 0xFF close exactly switches (0,0) and (1,0) |
| Scanner.ClosuresExampleK | Xarcade.c:145-147 | output 2 reading 0xFD and the rest 0xFF close exactly switch (2,1) |
| Scanner.PressedMember | Xarcade.c:146-147 | the set of closed switches holds exactly the valid switches whose test holds |
| Scanner.FullScanMember | Xarcade.c:144-151 | a switch is listed by a whole scan if and only if it is closed |
| Scanner.FullScanElements | Xarcade.c:144-151 | the switches a whole scan lists are exactly the closed switches |
| Scanner.ScanCountsPressed | Xarcade.c:142-151 | a whole scan lists as many switches as there are closed switches, each once |
| Scanner.Drive | Xarcade.c:145 | the pattern written to PORTB, `~(1 << key)` cut to 8 bits, has bit key low and every other bit high |
| Scanner.Pressed | Xarcade.c:146-147 | the set of closed switches holds only valid switches whose closure test holds |
| Scanner.Port.constructor | Xarcade.c:118-120 | the port as set up there: PORTB an output register, the D inputs read through pull-ups as a fixed function `lines` of the PORTB pattern; PORTB starts at 0, its reset value, since those lines never write it (`CreateHIDReport` accepts any port, so nothing relies on this value) |
| Scanner.Port.PinD | Xarcade.c:147 | reading PIND while output key is driven gives the sample of output key |
| Scanner.Port.ScanSamples | Xarcade.c:145-147 | defines the readings of one scan: sample key is the PIND value under the pattern `~(1 << key)` |
| Encoder.Code | Xarcade.c:148 | the table read `pgm_read_byte(&Mapping[x * 8 + key])`; with the firmware's table it is usage A plus the index, never "no key" |
| Encoder.Report | Xarcade.c:142-151 | the buffer after one callback, 32 bytes; its slots are given by `ReportSlotsFilled` |
| Encoder.Filling | Xarcade.c:142-150 | the report buffer at any point of the scan keeps its 32 bytes |
| Encoder.FillingStep | Xarcade.c:147-149 | one probe of a closed switch writes its table entry at slot `used`, which is below 32, and adds one to `used`; a probe of an open switch changes nothing |
| Encoder.CreateHIDReport | Xarcade.c:134-155 | the buffer ends as the report of the scan of the matrix, the counter ends equal to the number of closed switches (at most 32), PORTB ends driving output 7, the size is the full 32-byte report and the result is false |
| Encoder.FillingSlots | Xarcade.c:142-150 | at any point of the scan the first `used` slots hold the keycodes of the closed switches met so far, in order, and the other slots keep their old bytes |
| Encoder.ReportSlotsFilled | Xarcade.c:142-151 | slot i below the count holds the table entry of the i-th closed switch in scan order; slots from the count to 31 keep their old bytes |
| Encoder.ReportFromZeroed | Xarcade.c:142-151 | starting from a zeroed buffer, a slot is non-zero if and only if its index is below the number of closed switches |
| Encoder.ReportIdle | Xarcade.c:144-151 | with no switch closed the buffer is unchanged, so a zeroed buffer stays all "no key" |
| Encoder.FillingAllClosed | Xarcade.c:144-149 | with every switch closed, each switch probed so far has its table entry at the slot of its probe step |
| Encoder.ReportAllClosed | Xarcade.c:144-151 | with every switch closed all 32 slots are filled, slot `key * 4 + x` holding `Mapping[x * 8 + key]` |
| Encoder.ReportNoDuplicates | Xarcade.c:144-148 | with the firmware's table no keycode appears twice among the filled slots |
| Encoder.ReportAdjacentPair | Xarcade.c:144-148 | two closed switches on one input of neighbouring outputs fill slot 0 and slot 1 in output order and leave the rest of the buffer |
| Encoder.ReportOneClosed | Xarcade.c:144-148 | one closed switch fills slot 0 with its table entry and leaves the rest of the buffer |
| Encoder.ReportExampleAB | Xarcade.c:144-148 | switches (0,0) and (1,0) closed give slot 0 = A, slot 1 = B, the rest of the buffer untouched |
| Encoder.ReportExampleK | Xarcade.c:144-148 | switch (2,1) alone gives slot 0 = K (`Mapping[10]`), the rest of the buffer untouched |

## Left out

- `main` (Xarcade.c:94-105) is left out. It only calls into the USB stack
  forever.
- `SetupHardware` (Xarcade.c:108-122) is left out: watchdog, clock prescaler,
  data-direction registers, pull-ups and `USB_Init`. The pull-ups are why an
  open switch reads high, which `Scanner.Closed` assumes. `Port.constructor`
  keeps only the reset value of PORTB.
- The `Keyboard_HID_Interface` configuration and `PrevKeyboardHIDReportBuffer`
  (Xarcade.c:67-88) are left out. They are static configuration. Comparing a
  report with the previous one happens in the LUFA library, which is not part
  of this model.
- `CALLBACK_HID_Device_ProcessHIDReport` (Xarcade.c:165-171) is left out. It
  is an empty stub.
- The USB event handlers (Xarcade.c:174-200) are left out. They only call LUFA
  functions, which are not part of this model.
- The `ReportID`, `ReportType` and `HIDInterfaceInfo` parameters of the
  callback are left out. The callback never reads them.
- `PROGMEM` and `pgm_read_byte` are modelled as an ordinary read of a constant
  sequence.
- Xarcade.h, which declares `USB_KeyboardReport_Data_32_t`, is not part of
  this model. Any fields of that structure other than `KeyCode[32]` are not
  modelled; the callback never writes them. `reportSize` is 32, the keycode
  bytes; the real `sizeof` at Xarcade.c:153 may be larger.
- The `*ReportSize` out-parameter and the return value are modelled as the
  method's two results.
- Electrical settling after PORTB changes is left out. So are switches that
  change during a scan: all readings of a scan come from one fixed function of
  the PORTB pattern (`Port.lines`).
- The 8-bit width of `UsedKeyCodes`, `key` and `x` is not modelled. The
  counter is proved never to exceed 32, so it cannot wrap.
- Determinism needs no separate statement. `CreateHIDReport`'s result is a
  function (`Report`) of the table, the old buffer and the port's readings, so
  equal readings give a byte-identical report.
- The counter `UsedKeyCodes` is a local variable in the source. The model
  also hands its final value back as the ghost result `usedKeyCodes` of
  `CreateHIDReport`, so that its final value can be stated.
