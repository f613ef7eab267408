/** The matrix scanner: the 8 output lines are on port B, the 4 input lines
    on the low bits of port D (with pull-ups, so an open switch reads high).
    One output at a time is pulled low and the inputs are sampled; a switch
    whose input then reads low connects that input to the driven output. */
module Scanner {
  import opened Keymap

  /** Bit `i` of an 8-bit register value. */
  function Bit(v: bv8, i: nat): bool
    requires i < 8
  {
    (v >> i) & 1 == 1
  }

  /** The pattern written to PORTB while output line `key` is scanned,
      `~(1 << key)` truncated to the 8-bit register. */
  function Drive(key: nat): (d: bv8)
    requires key < Outputs
    ensures d & ((1 as bv8) << key) == 0
    ensures d | ((1 as bv8) << key) == 0xFF
  {
    !((1 as bv8) << key)
  }

  /** The driven pattern has exactly one low bit, the one at position `key`. */
  lemma DriveOneLowBit(key: nat)
    requires key < Outputs
    ensures forall i :: 0 <= i < 8 ==> (Bit(Drive(key), i) <==> i != key)
  {
  }

  /** The closure test applied to a PIND sample for input line `input`,
      `(PIND & (1 << input)) ^ (1 << input)` taken as a truth value: it holds
      exactly when that input bit reads low. */
  predicate Closed(pin: bv8, input: nat): (c: bool)
    requires input < Inputs
    ensures c <==> !Bit(pin, input)
  {
    (pin & ((1 as bv8) << input)) ^ ((1 as bv8) << input) != 0
  }

  /** A matrix coordinate: output line `key` (0..7), input line `input` (0..3). */
  datatype Coord = Coord(key: nat, input: nat) {
    predicate Valid() {
      key < Outputs && input < Inputs
    }

    /** Where this coordinate falls in the scan: outputs outer, inputs inner. */
    function Position(): nat {
      key * 4 + input
    }
  }

  /** Distinct coordinates are probed at distinct scan positions. */
  lemma PositionInjective(c: Coord, d: Coord)
    requires c.Valid() && d.Valid()
    ensures c.Position() == d.Position() <==> c == d
  {
  }

  /** The PIND values read during one scan, one per driven output line:
      `samples[key]` is what the inputs show while `Drive(key)` is on PORTB. */
  type Samples = s: seq<bv8> | |s| == Outputs witness [0, 0, 0, 0, 0, 0, 0, 0]

  /** Which switches a scan finds closed: `m[key][input]`. */
  type Matrix = m: seq<seq<bool>> | |m| == Outputs && forall key :: 0 <= key < |m| ==> |m[key]| == Inputs
    witness [[false, false, false, false], [false, false, false, false],
             [false, false, false, false], [false, false, false, false],
             [false, false, false, false], [false, false, false, false],
             [false, false, false, false], [false, false, false, false]]

  /** The closure test applied to every sample of a scan. */
  function Closures(samples: Samples): (m: Matrix)
    ensures forall key, input :: 0 <= key < Outputs && 0 <= input < Inputs ==>
      (m[key][input] <==> Closed(samples[key], input))
  {
    seq(Outputs, key requires 0 <= key < Outputs =>
      seq(Inputs, input requires 0 <= input < Inputs => Closed(samples[key], input)))
  }

  /** Whether the scan finds switch `c` closed. */
  predicate IsPressed(m: Matrix, c: Coord)
    requires c.Valid()
  {
    m[c.key][c.input]
  }

  /** `(key, input)` is a point of the scan: the probe about to happen when
      output `key` is driven and `input` inputs of it were already sampled
      (`(Outputs, 0)` is the end of the scan). */
  predicate ScanPoint(key: nat, input: nat) {
    (key < Outputs && input <= Inputs) || (key == Outputs && input == 0)
  }

  /** The closed switches probed before scan point `(key, input)`, in the
      order they were probed. Every one of them is a valid coordinate met
      before that point, so there are at most as many as probes made.
      The matrix leads the decreases clause although it never changes: that
      keeps the verifier from unrolling a scan whose point is a fixed number. */
  function Scan(m: Matrix, key: nat, input: nat): (cs: seq<Coord>)
    requires ScanPoint(key, input)
    ensures |cs| <= key * 4 + input
    ensures forall i :: 0 <= i < |cs| ==>
      cs[i].Valid() && cs[i].Position() < key * 4 + input
    decreases m, key, input
  {
    if input == 0 then
      (if key == 0 then [] else Scan(m, key - 1, Inputs))
    else
      var c := Coord(key, input - 1);
      Scan(m, key, input - 1) + (if IsPressed(m, c) then [c] else [])
  }

  /** The closed switches of a whole scan, in scan order: the scan ends once
      every output line has been probed. */
  function FullScan(m: Matrix): (cs: seq<Coord>)
    ensures |cs| <= 32
  {
    Scan(m, |m|, 0)
  }

  /** Every closed coordinate of the matrix. */
  function Pressed(m: Matrix): (p: set<Coord>)
    ensures forall c :: c in p ==> c.Valid() && IsPressed(m, c)
  {
    set key: nat, input: nat | key < Outputs && input < Inputs && m[key][input] :: Coord(key, input)
  }

  /** A scan lists coordinates in strictly increasing scan position. */
  lemma {:induction false} ScanOrdered(m: Matrix, key: nat, input: nat)
    requires ScanPoint(key, input)
    ensures forall i, j :: 0 <= i < j < |Scan(m, key, input)| ==>
      Scan(m, key, input)[i].Position() < Scan(m, key, input)[j].Position()
    decreases key, input
  {
    if input == 0 {
      if key > 0 {
        ScanOrdered(m, key - 1, Inputs);
      }
    } else {
      ScanOrdered(m, key, input - 1);
    }
  }

  /** A coordinate is in the scan up to `(key, input)` exactly when it is a
      closed switch met before that point. */
  lemma {:induction false} ScanMembers(m: Matrix, key: nat, input: nat, c: Coord)
    requires ScanPoint(key, input)
    ensures c in Scan(m, key, input) <==>
      c.Valid() && c.Position() < key * 4 + input && IsPressed(m, c)
    decreases key, input
  {
    if input == 0 {
      if key > 0 {
        ScanMembers(m, key - 1, Inputs, c);
      }
    } else {
      ScanMembers(m, key, input - 1, c);
    }
  }

  /** With every switch closed, the scan up to a point holds one coordinate
      per probe, the i-th at scan position i. */
  lemma {:induction false} ScanAllClosed(m: Matrix, key: nat, input: nat)
    requires ScanPoint(key, input)
    requires forall c: Coord :: c.Valid() ==> IsPressed(m, c)
    ensures |Scan(m, key, input)| == key * 4 + input
    ensures forall i :: 0 <= i < |Scan(m, key, input)| ==>
      Scan(m, key, input)[i].Position() == i
    decreases key, input
  {
    if input == 0 {
      if key > 0 {
        ScanAllClosed(m, key - 1, Inputs);
      }
    } else {
      ScanAllClosed(m, key, input - 1);
      assert Coord(key, input - 1).Valid();
    }
  }

  /** Probing an output line none of whose switches is closed adds nothing. */
  lemma LineOpen(m: Matrix, key: nat)
    requires key < Outputs
    requires forall x :: 0 <= x < Inputs ==> !m[key][x]
    ensures Scan(m, key + 1, 0) == Scan(m, key, 0)
  {
    assert Scan(m, key, 1) == Scan(m, key, 0);
    assert Scan(m, key, 2) == Scan(m, key, 0);
    assert Scan(m, key, 3) == Scan(m, key, 0);
  }

  /** Probing a run of output lines with no closed switch adds nothing. */
  lemma {:induction false} LinesOpen(m: Matrix, key0: nat, key: nat)
    requires key0 <= key <= Outputs
    requires forall k, x :: key0 <= k < key && 0 <= x < Inputs ==> !m[k][x]
    ensures Scan(m, key, 0) == Scan(m, key0, 0)
    decreases key
  {
    if key0 < key {
      LinesOpen(m, key0, key - 1);
      LineOpen(m, key - 1);
    }
  }

  /** Probing an output line with exactly one closed switch appends that
      switch. */
  lemma LineOneClosed(m: Matrix, key: nat, input: nat)
    requires key < Outputs && input < Inputs
    requires forall x :: 0 <= x < Inputs ==> (m[key][x] <==> x == input)
    ensures Scan(m, key + 1, 0) == Scan(m, key, 0) + [Coord(key, input)]
  {
    var cs, c := Scan(m, key, 0), Coord(key, input);
    if input == 0 {
      assert Scan(m, key, 1) == cs + [c];
      assert Scan(m, key, 3) == cs + [c];
    } else if input == 1 {
      assert Scan(m, key, 2) == cs + [c];
      assert Scan(m, key, 3) == cs + [c];
    } else if input == 2 {
      assert Scan(m, key, 2) == cs;
      assert Scan(m, key, 3) == cs + [c];
    } else {
      assert Scan(m, key, 3) == cs;
    }
  }

  /** A matrix with one closed switch scans to that switch alone. */
  lemma ScanOneClosed(m: Matrix, key: nat, input: nat)
    requires key < Outputs && input < Inputs
    requires forall k, x :: 0 <= k < Outputs && 0 <= x < Inputs ==>
      (m[k][x] <==> k == key && x == input)
    ensures FullScan(m) == [Coord(key, input)]
  {
    LinesOpen(m, 0, key);
    LineOneClosed(m, key, input);
    LinesOpen(m, key + 1, |m|);
  }

  /** Two closed switches on the same input of neighbouring output lines
      come out lower output first: the outer loop runs over output lines. */
  lemma ScanAdjacentPair(m: Matrix, key: nat, input: nat)
    requires key + 1 < Outputs && input < Inputs
    requires forall k, x :: 0 <= k < Outputs && 0 <= x < Inputs ==>
      (m[k][x] <==> (k == key || k == key + 1) && x == input)
    ensures FullScan(m) == [Coord(key, input), Coord(key + 1, input)]
  {
    LinesOpen(m, 0, key);
    LineOneClosed(m, key, input);
    LineOneClosed(m, key + 1, input);
    LinesOpen(m, key + 2, |m|);
  }

  /** How the closure test reads the PIND values of the examples: `0xFF` (all
      inputs high) shows no closed switch, `0xFE` only input 0 and `0xFD`
      only input 1. */
  lemma ClosedReadings()
    ensures forall x :: 0 <= x < Inputs ==> !Closed(0xFF, x)
    ensures forall x :: 0 <= x < Inputs ==> (Closed(0xFE, x) <==> x == 0)
    ensures forall x :: 0 <= x < Inputs ==> (Closed(0xFD, x) <==> x == 1)
  {
    forall x | 0 <= x < Inputs
      ensures !Closed(0xFF, x)
      ensures Closed(0xFE, x) <==> x == 0
      ensures Closed(0xFD, x) <==> x == 1
    {
      if x == 0 {
      } else if x == 1 {
      } else if x == 2 {
      } else {
      }
    }
  }

  /** Lines 0 and 1 reading `0xFE`, the others `0xFF`: switches (0,0) and
      (1,0) are closed and nothing else. */
  lemma ClosuresExampleAB(samples: Samples)
    requires samples[0] == 0xFE && samples[1] == 0xFE
    requires forall key :: 2 <= key < Outputs ==> samples[key] == 0xFF
    ensures forall k, x :: 0 <= k < Outputs && 0 <= x < Inputs ==>
      (Closures(samples)[k][x] <==> (k == 0 || k == 1) && x == 0)
  {
    ClosedReadings();
    forall k, x | 0 <= k < Outputs && 0 <= x < Inputs
      ensures Closures(samples)[k][x] <==> (k == 0 || k == 1) && x == 0
    {
      if k == 0 || k == 1 {
        assert samples[k] == 0xFE;
      } else {
        assert samples[k] == 0xFF;
      }
    }
  }

  /** Line 2 reading `0xFD`, the others `0xFF`: only switch (2,1) is closed. */
  lemma ClosuresExampleK(samples: Samples)
    requires samples[2] == 0xFD
    requires forall key :: 0 <= key < Outputs && key != 2 ==> samples[key] == 0xFF
    ensures forall k, x :: 0 <= k < Outputs && 0 <= x < Inputs ==>
      (Closures(samples)[k][x] <==> k == 2 && x == 1)
  {
    ClosedReadings();
    forall k, x | 0 <= k < Outputs && 0 <= x < Inputs
      ensures Closures(samples)[k][x] <==> k == 2 && x == 1
    {
      if k == 2 {
        assert samples[k] == 0xFD;
      } else {
        assert samples[k] == 0xFF;
      }
    }
  }

  /** The closed switches are the valid coordinates whose switch is closed. */
  lemma PressedMember(m: Matrix, c: Coord)
    ensures c in Pressed(m) <==> c.Valid() && IsPressed(m, c)
  {
    if c.Valid() && IsPressed(m, c) {
      assert c == Coord(c.key, c.input);
    }
  }

  /** A switch is in a full scan exactly when it is closed. */
  lemma FullScanMember(m: Matrix, c: Coord)
    ensures c in FullScan(m) <==> c in Pressed(m)
  {
    ScanMembers(m, |m|, 0, c);
    PressedMember(m, c);
  }

  /** The switches a full scan lists are exactly the closed ones. */
  lemma FullScanElements(m: Matrix)
    ensures (set c | c in FullScan(m)) == Pressed(m)
  {
    forall c
      ensures c in FullScan(m) <==> c in Pressed(m)
    {
      FullScanMember(m, c);
    }
  }

  /** A full scan lists each closed switch once and nothing else, so its
      length is the number of closed switches. */
  lemma ScanCountsPressed(m: Matrix)
    ensures |FullScan(m)| == |Pressed(m)|
  {
    FullScanElements(m);
    ScanOrdered(m, |m|, 0);
    DistinctCard(FullScan(m));
  }

  /** A sequence with strictly increasing positions has as many elements as
      its set of elements. */
  lemma {:induction false} DistinctCard(cs: seq<Coord>)
    requires forall i, j :: 0 <= i < j < |cs| ==> cs[i].Position() < cs[j].Position()
    ensures |set c | c in cs| == |cs|
  {
    if cs != [] {
      var last := cs[|cs| - 1];
      var init := cs[..|cs| - 1];
      DistinctCard(init);
      assert last !in init by {
        forall i | 0 <= i < |init|
          ensures init[i] != last
        {
          assert init[i].Position() < last.Position();
        }
      }
      assert cs == init + [last];
      assert (set c | c in cs) == (set c | c in init) + {last};
    }
  }

  /** The two GPIO ports the scanner touches. PORTB is the output register the
      scan writes; PIND is not stored: the level it shows is fixed by the
      switches and by what PORTB drives, given here as `lines`. */
  class Port {
    var portB: bv8
    const lines: bv8 -> bv8

    constructor (lines: bv8 -> bv8)
      ensures this.lines == lines && portB == 0
    {
      this.lines := lines;
      portB := 0;
    }

    /** Reading PIND: what the inputs show under the current PORTB pattern. */
    function PinD(): (p: bv8)
      reads this
      ensures forall key :: 0 <= key < Outputs && portB == Drive(key) ==> p == ScanSamples()[key]
    {
      lines(portB)
    }

    /** What a scan of this matrix reads for each output line. */
    function ScanSamples(): (s: Samples)
      ensures forall key :: 0 <= key < Outputs ==> s[key] == lines(Drive(key))
    {
      seq(Outputs, key requires 0 <= key < Outputs => lines(Drive(key)))
    }
  }
}
