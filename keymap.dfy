/** The keycode table of the adapter: one USB HID keyboard usage per matrix
    switch, stored in program memory and only ever read. */
module Keymap {

  /** Usage IDs of the Keyboard/Keypad page (0x07), section 10 of the
      USB HID Usage Tables 1.12. */
  const NoKey: bv8 := 0x00   // "no event indicated": an unused report slot
  const KeyA: bv8 := 0x04
  const KeyB: bv8 := 0x05
  const KeyC: bv8 := 0x06
  const KeyD: bv8 := 0x07
  const KeyE: bv8 := 0x08
  const KeyF: bv8 := 0x09
  const KeyG: bv8 := 0x0A
  const KeyH: bv8 := 0x0B
  const KeyI: bv8 := 0x0C
  const KeyJ: bv8 := 0x0D
  const KeyK: bv8 := 0x0E
  const KeyL: bv8 := 0x0F
  const KeyM: bv8 := 0x10
  const KeyN: bv8 := 0x11
  const KeyO: bv8 := 0x12
  const KeyP: bv8 := 0x13
  const KeyQ: bv8 := 0x14
  const KeyR: bv8 := 0x15
  const KeyS: bv8 := 0x16
  const KeyT: bv8 := 0x17
  const KeyU: bv8 := 0x18
  const KeyV: bv8 := 0x19
  const KeyW: bv8 := 0x1A
  const KeyX: bv8 := 0x1B
  const KeyY: bv8 := 0x1C
  const KeyZ: bv8 := 0x1D
  const Key1: bv8 := 0x1E    // 1 and !
  const Key2: bv8 := 0x1F    // 2 and @
  const Key3: bv8 := 0x20    // 3 and #
  const Key4: bv8 := 0x21    // 4 and $
  const Key5: bv8 := 0x22    // 5 and %
  const Key6: bv8 := 0x23    // 6 and ^

  /** Number of output (driven) lines and input (sampled) lines of the matrix. */
  const Outputs: nat := 8
  const Inputs: nat := 4

  /** A keycode table: one usage per switch, indexed by `TableIndex`. */
  type KeyTable = t: seq<bv8> | |t| == 32
    witness [0, 0, 0, 0, 0, 0, 0, 0, 0, 0, 0, 0, 0, 0, 0, 0,
             0, 0, 0, 0, 0, 0, 0, 0, 0, 0, 0, 0, 0, 0, 0, 0]

  /** The `Mapping` table: letters A..Z, then digits 1..6. */
  const Mapping: KeyTable := [
    KeyA, KeyB, KeyC, KeyD, KeyE, KeyF, KeyG, KeyH,
    KeyI, KeyJ, KeyK, KeyL, KeyM, KeyN, KeyO, KeyP,
    KeyQ, KeyR, KeyS, KeyT, KeyU, KeyV, KeyW, KeyX,
    KeyY, KeyZ, Key1, Key2, Key3, Key4, Key5, Key6
  ]

  /** The table index the scan loop computes for output line `key` and input
      line `input`: `input * 8 + key`. It is always a valid index. */
  function TableIndex(key: nat, input: nat): (i: nat)
    requires key < Outputs && input < Inputs
    ensures i < 32
  {
    input * 8 + key
  }

  /** The switch can be recovered from its table index, so no two switches
      share an entry. */
  lemma TableIndexInverse(key: nat, input: nat)
    requires key < Outputs && input < Inputs
    ensures TableIndex(key, input) / Outputs == input
    ensures TableIndex(key, input) % Outputs == key
  {
  }

  lemma TableIndexInjective(key: nat, input: nat, key': nat, input': nat)
    requires key < Outputs && input < Inputs && key' < Outputs && input' < Inputs
    ensures TableIndex(key, input) == TableIndex(key', input') <==> key == key' && input == input'
  {
  }

  /** One table entry per switch of the 8x4 matrix. */
  lemma MappingSize()
    ensures |Mapping| == 32
  {
  }

  /** The table is one run of consecutive usages starting at A (Z is directly
      followed by 1 on the Keyboard/Keypad page). */
  lemma MappingConsecutive()
    ensures |Mapping| == 32
    ensures forall i :: 0 <= i < |Mapping| ==> Mapping[i] as int == KeyA as int + i
  {
    forall i | 0 <= i < |Mapping|
      ensures Mapping[i] as int == KeyA as int + i
    {
      // one case per table entry, each read off the display
      match i
        case 0 =>
        case 1 =>
        case 2 =>
        case 3 =>
        case 4 =>
        case 5 =>
        case 6 =>
        case 7 =>
        case 8 =>
        case 9 =>
        case 10 =>
        case 11 =>
        case 12 =>
        case 13 =>
        case 14 =>
        case 15 =>
        case 16 =>
        case 17 =>
        case 18 =>
        case 19 =>
        case 20 =>
        case 21 =>
        case 22 =>
        case 23 =>
        case 24 =>
        case 25 =>
        case 26 =>
        case 27 =>
        case 28 =>
        case 29 =>
        case 30 =>
        case _ =>
    }
  }

  /** Entries 0..25 are the letter usages A..Z, entries 26..31 the digit
      usages 1..6. */
  lemma MappingIsAlphanumeric()
    ensures |Mapping| == 32
    ensures forall i :: 0 <= i < 26 ==> Mapping[i] as int == KeyA as int + i
    ensures forall j :: 26 <= j < 32 ==> Mapping[j] as int == Key1 as int + (j - 26)
    ensures Mapping[25] == KeyZ && Mapping[31] == Key6
  {
    MappingConsecutive();
  }

  /** No entry is the "no key" usage, so every filled report slot is visibly
      non-empty to the host. */
  lemma MappingNoEmptyEntry()
    ensures forall i :: 0 <= i < |Mapping| ==> Mapping[i] != NoKey
  {
    MappingConsecutive();
  }

  /** No two switches produce the same usage. */
  lemma MappingDistinct()
    ensures forall i, j :: 0 <= i < j < |Mapping| ==> Mapping[i] != Mapping[j]
  {
    MappingConsecutive();
  }

  lemma MappingExamples()
    ensures Mapping[0] == KeyA && Mapping[1] == KeyB && Mapping[10] == KeyK
  {
  }
}
