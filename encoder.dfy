/** The report encoder: the HID report-creation callback that scans the
    matrix and writes one keycode per closed switch into the caller's
    report buffer. */
module Encoder {
  import opened Keymap
  import opened Scanner

  /** Byte size of the 32-slot keycode report, which is also the value the
      callback stores in `*ReportSize`. */
  const ReportSlots: nat := 32

  /** The keycode `mapping` gives one switch: the table read at index
      `input * 8 + key`. With the firmware's table that is the usage A plus
      the index, never "no key". */
  function Code(mapping: KeyTable, c: Coord): (k: bv8)
    requires c.Valid()
    ensures mapping == Mapping ==>
      k as int == KeyA as int + TableIndex(c.key, c.input) && k != NoKey
  {
    MappingConsecutive();
    mapping[TableIndex(c.key, c.input)]
  }

  /** The keycodes of closed coordinates, slot by slot. */
  function KeyCodes(mapping: KeyTable, cs: seq<Coord>): seq<bv8>
    requires forall i :: 0 <= i < |cs| ==> cs[i].Valid()
  {
    seq(|cs|, i requires 0 <= i < |cs| => Code(mapping, cs[i]))
  }

  /** The report buffer once the scan has reached `(key, input)`: the
      keycodes of the closed switches met so far in scan order, then whatever
      the buffer held before. */
  function Filling(mapping: KeyTable, before: seq<bv8>, m: Matrix, key: nat, input: nat): (r: seq<bv8>)
    requires |before| == ReportSlots && ScanPoint(key, input)
    ensures |r| == ReportSlots
  {
    var codes := KeyCodes(mapping, Scan(m, key, input));
    codes + before[|codes|..]
  }

  /** The report buffer after one callback. */
  function Report(mapping: KeyTable, before: seq<bv8>, m: Matrix): (r: seq<bv8>)
    requires |before| == ReportSlots
    ensures |r| == ReportSlots
  {
    Filling(mapping, before, m, |m|, 0)
  }

  /** One probe: a closed switch writes its keycode into the next free slot,
      which always exists; an open one leaves the buffer as it is. */
  lemma FillingStep(mapping: KeyTable, before: seq<bv8>, m: Matrix, key: nat, input: nat)
    requires |before| == ReportSlots && key < Outputs && input < Inputs
    ensures var used := |Scan(m, key, input)|;
      if m[key][input] then
        used < ReportSlots &&
        |Scan(m, key, input + 1)| == used + 1 &&
        Filling(mapping, before, m, key, input + 1) ==
          Filling(mapping, before, m, key, input)[used := mapping[TableIndex(key, input)]]
      else
        |Scan(m, key, input + 1)| == used &&
        Filling(mapping, before, m, key, input + 1) == Filling(mapping, before, m, key, input)
  {
    var cs := Scan(m, key, input);
    var c := Coord(key, input);
    if m[key][input] {
      assert Scan(m, key, input + 1) == cs + [c];
      var codes := KeyCodes(mapping, cs);
      assert KeyCodes(mapping, cs + [c]) == codes + [Code(mapping, c)];
    }
  }

  /** `CALLBACK_HID_Device_CreateHIDReport`: for each output line drive it low,
      read the inputs, and append the `Mapping` entry of each closed switch at
      slot `used`; `report` is the keycode array of the caller's report
      buffer. The report size is always the full report and the callback
      never forces sending. `usedKeyCodes` is the final value of the slot
      counter: one per closed switch, so never more than the 32 slots. */
  method CreateHIDReport(port: Port, report: array<bv8>)
    returns (reportSize: nat, forceSend: bool, ghost usedKeyCodes: nat)
    requires report.Length == ReportSlots
    modifies port, report
    ensures report[..] == Report(Mapping, old(report[..]), Closures(port.ScanSamples()))
    ensures usedKeyCodes == |Pressed(Closures(port.ScanSamples()))| <= ReportSlots
    ensures port.portB == Drive(Outputs - 1)
    ensures reportSize == ReportSlots && !forceSend
  {
    ghost var samples := port.ScanSamples();
    ghost var m := Closures(samples);
    ghost var before := report[..];
    var used: nat := 0;
    for key := 0 to 8
      invariant used == |Scan(m, key, 0)|
      invariant report[..] == Filling(Mapping, before, m, key, 0)
      invariant key > 0 ==> port.portB == Drive(key - 1)
    {
      port.portB := !((1 as bv8) << key);
      for x := 0 to 4
        invariant used == |Scan(m, key, x)|
        invariant report[..] == Filling(Mapping, before, m, key, x)
        invariant port.portB == Drive(key)
      {
        FillingStep(Mapping, before, m, key, x);
        ghost var current := report[..];
        var pin := port.PinD();
        assert pin == samples[key];
        if Closed(pin, x) {
          report[used] := Mapping[x * 8 + key];
          assert report[..] == current[used := Mapping[TableIndex(key, x)]];
          used := used + 1;
        }
      }
    }
    reportSize := ReportSlots;
    forceSend := false;
    ScanCountsPressed(m);
    usedKeyCodes := used;
  }

  /** Slot by slot at any point of the scan: the first `|Scan|` slots hold
      the keycodes of the closed switches met so far, in order, and the other
      slots keep their old values. */
  lemma FillingSlots(mapping: KeyTable, before: seq<bv8>, m: Matrix, key: nat, input: nat)
    requires |before| == ReportSlots && ScanPoint(key, input)
    ensures |Scan(m, key, input)| <= ReportSlots
    ensures forall i :: 0 <= i < |Scan(m, key, input)| ==>
      Filling(mapping, before, m, key, input)[i] == Code(mapping, Scan(m, key, input)[i])
    ensures forall i :: |Scan(m, key, input)| <= i < ReportSlots ==>
      Filling(mapping, before, m, key, input)[i] == before[i]
  {
  }

  /** Slot by slot: slot `i` of the first `|FullScan(m)|` holds the keycode
      of the `i`-th closed switch in scan order, the other slots keep their
      old values. */
  lemma ReportSlotsFilled(mapping: KeyTable, before: seq<bv8>, m: Matrix)
    requires |before| == ReportSlots
    ensures |FullScan(m)| <= ReportSlots
    ensures forall i :: 0 <= i < |FullScan(m)| ==>
      Report(mapping, before, m)[i] == Code(mapping, FullScan(m)[i])
    ensures forall i :: |FullScan(m)| <= i < ReportSlots ==>
      Report(mapping, before, m)[i] == before[i]
  {
    FillingSlots(mapping, before, m, |m|, 0);
  }

  /** With the zeroed buffer the caller hands over and the firmware's table,
      a slot is non-empty exactly when it was filled: the report carries one
      non-zero keycode per closed switch, then "no key" to the end. */
  lemma ReportFromZeroed(before: seq<bv8>, m: Matrix)
    requires |before| == ReportSlots
    requires forall i :: 0 <= i < |before| ==> before[i] == NoKey
    ensures forall i :: 0 <= i < ReportSlots ==>
      (Report(Mapping, before, m)[i] != NoKey <==> i < |Pressed(m)|)
  {
    ReportSlotsFilled(Mapping, before, m);
    MappingNoEmptyEntry();
    ScanCountsPressed(m);
  }

  /** With no switch closed the buffer is left as it was; a zeroed buffer
      stays the idle report, every slot "no key". */
  lemma ReportIdle(mapping: KeyTable, before: seq<bv8>, m: Matrix)
    requires |before| == ReportSlots
    requires Pressed(m) == {}
    ensures Report(mapping, before, m) == before
  {
    forall k, x | 0 <= k < Outputs && 0 <= x < Inputs
      ensures !m[k][x]
    {
      PressedMember(m, Coord(k, x));
    }
    LinesOpen(m, 0, |m|);
  }

  /** With every switch closed, each switch probed so far has its keycode in
      the slot of its scan position. */
  lemma FillingAllClosed(mapping: KeyTable, before: seq<bv8>, m: Matrix, key: nat, input: nat, c: Coord)
    requires |before| == ReportSlots && ScanPoint(key, input)
    requires forall c: Coord :: c.Valid() ==> IsPressed(m, c)
    requires c.Valid() && c.Position() < key * 4 + input
    ensures c.Position() < ReportSlots
    ensures Filling(mapping, before, m, key, input)[c.Position()] == mapping[TableIndex(c.key, c.input)]
  {
    ScanAllClosed(m, key, input);
    FillingSlots(mapping, before, m, key, input);
    PositionInjective(c, Scan(m, key, input)[c.Position()]);
  }

  /** With every switch closed all 32 slots are used, slot `p` holding the
      keycode of the switch probed `p`-th. */
  lemma ReportAllClosed(mapping: KeyTable, before: seq<bv8>, m: Matrix)
    requires |before| == ReportSlots
    requires forall c: Coord :: c.Valid() ==> IsPressed(m, c)
    ensures forall c: Coord :: c.Valid() ==>
      Report(mapping, before, m)[c.Position()] == mapping[TableIndex(c.key, c.input)]
  {
    forall c: Coord | c.Valid()
      ensures Report(mapping, before, m)[c.Position()] == mapping[TableIndex(c.key, c.input)]
    {
      FillingAllClosed(mapping, before, m, |m|, 0, c);
    }
  }

  /** With the firmware's table no keycode appears twice in a report. */
  lemma ReportNoDuplicates(before: seq<bv8>, m: Matrix)
    requires |before| == ReportSlots
    ensures forall i, j :: 0 <= i < j < |FullScan(m)| ==>
      Report(Mapping, before, m)[i] != Report(Mapping, before, m)[j]
  {
    ReportSlotsFilled(Mapping, before, m);
    ScanOrdered(m, |m|, 0);
    MappingDistinct();
    var cs := FullScan(m);
    forall i, j | 0 <= i < j < |cs|
      ensures Code(Mapping, cs[i]) != Code(Mapping, cs[j])
    {
      TableIndexInjective(cs[i].key, cs[i].input, cs[j].key, cs[j].input);
      var a, b := TableIndex(cs[i].key, cs[i].input), TableIndex(cs[j].key, cs[j].input);
      assert a != b;
      if a < b {
        assert Mapping[a] != Mapping[b];
      } else {
        assert Mapping[b] != Mapping[a];
      }
    }
  }

  /** Two closed switches on one input of neighbouring output lines, the
      rest open: the lower output's keycode goes in slot 0, the other's in
      slot 1, the rest of the buffer is untouched. */
  lemma ReportAdjacentPair(mapping: KeyTable, before: seq<bv8>, m: Matrix, key: nat, input: nat)
    requires |before| == ReportSlots
    requires key + 1 < Outputs && input < Inputs
    requires forall k, x :: 0 <= k < Outputs && 0 <= x < Inputs ==>
      (m[k][x] <==> (k == key || k == key + 1) && x == input)
    ensures var r := Report(mapping, before, m);
      r[0] == mapping[TableIndex(key, input)] && r[1] == mapping[TableIndex(key + 1, input)] &&
      r[2..] == before[2..]
  {
    ScanAdjacentPair(m, key, input);
    ReportSlotsFilled(mapping, before, m);
  }

  /** One closed switch: its keycode goes in slot 0, the rest of the buffer
      is untouched. */
  lemma ReportOneClosed(mapping: KeyTable, before: seq<bv8>, m: Matrix, key: nat, input: nat)
    requires |before| == ReportSlots
    requires key < Outputs && input < Inputs
    requires forall k, x :: 0 <= k < Outputs && 0 <= x < Inputs ==>
      (m[k][x] <==> k == key && x == input)
    ensures var r := Report(mapping, before, m);
      r[0] == mapping[TableIndex(key, input)] && r[1..] == before[1..]
  {
    ScanOneClosed(m, key, input);
    ReportSlotsFilled(mapping, before, m);
  }

  /** Lines 0 and 1 reading `0xFE`, the others `0xFF`, so switches (0,0) and
      (1,0) are closed: slot 0 holds `Mapping[0]` (A) and slot 1 `Mapping[1]`
      (B), since the table index is `input * 8 + key`; the rest of the buffer
      is untouched. */
  lemma ReportExampleAB(before: seq<bv8>, samples: Samples)
    requires |before| == ReportSlots
    requires samples[0] == 0xFE && samples[1] == 0xFE
    requires forall key :: 2 <= key < Outputs ==> samples[key] == 0xFF
    ensures var r := Report(Mapping, before, Closures(samples));
      r[0] == KeyA && r[1] == KeyB && r[2..] == before[2..]
  {
    ClosuresExampleAB(samples);
    ReportAdjacentPair(Mapping, before, Closures(samples), 0, 0);
    MappingExamples();
  }

  /** Line 2 reading `0xFD`, the others `0xFF`, so only switch (2,1) is
      closed: slot 0 holds `Mapping[1 * 8 + 2]`, which is K. */
  lemma ReportExampleK(before: seq<bv8>, samples: Samples)
    requires |before| == ReportSlots
    requires samples[2] == 0xFD
    requires forall key :: 0 <= key < Outputs && key != 2 ==> samples[key] == 0xFF
    ensures var r := Report(Mapping, before, Closures(samples));
      r[0] == KeyK && r[1..] == before[1..]
  {
    ClosuresExampleK(samples);
    ReportOneClosed(Mapping, before, Closures(samples), 2, 1);
    MappingExamples();
  }
}
