/** src/shred.rs: the identifying key of a raw shred. */
module Shred {
  import opened Bytes
  import opened Sequences

  datatype ShredType = Data | Code

  datatype ShredKey = ShredKey(slot: u64, index: u32, shredType: ShredType)

  const MIN_SHRED_SIZE: nat := 83

  function ShredTypeOf(variant: u8): ShredType {
    match variant
    case 0xA5 => Data
    case 0x5A => Code
    case v => if BitAnd(v, 0x80) != 0 then Data else Code
  }

  function FromLe64(b: Buffer): u64
    requires |b| == 8
  {
    FromLeBound(b);
    FromLe(b)
  }

  function FromLe32(b: Buffer): u32
    requires |b| == 4
  {
    FromLeBound(b);
    assert Pow(256, 4) == 0x1_0000_0000;
    FromLe(b)
  }

  function ParseShredKey(buf: Buffer): Option<ShredKey> {
    if |buf| < MIN_SHRED_SIZE then None
    else
      var variant := buf[64];
      var slot := FromLe64(buf[65..73]);
      var index := FromLe32(buf[73..77]);
      if slot == 0 then None else Some(ShredKey(slot, index, ShredTypeOf(variant)))
  }

  /** The two legacy variants are not special: the top bit alone decides. */
  lemma TypeIsTopBit(variant: u8)
    ensures ShredTypeOf(variant) == if variant >= 0x80 then Data else Code
  {
    TopBit(variant);
  }

  /** The bytes from `at` on spell the key: the slot in eight bytes and the index
      in four, each least significant first, after the variant byte. */
  predicate Spells(b: Buffer, at: nat, key: ShredKey)
    requires at + 77 <= |b|
  {
    && key.slot == Byte(b, at + 65) + 0x100 * Byte(b, at + 66)
                   + 0x1_0000 * Byte(b, at + 67) + 0x100_0000 * Byte(b, at + 68)
                   + 0x1_0000_0000 * Byte(b, at + 69) + 0x100_0000_0000 * Byte(b, at + 70)
                   + 0x1_0000_0000_0000 * Byte(b, at + 71) + 0x100_0000_0000_0000 * Byte(b, at + 72)
    && key.index == Byte(b, at + 73) + 0x100 * Byte(b, at + 74)
                    + 0x1_0000 * Byte(b, at + 75) + 0x100_0000 * Byte(b, at + 76)
    && key.shredType == if b[at + 64] >= 0x80 then Data else Code
  }

  lemma FourBytes(b: Buffer, i: nat)
    requires i + 4 <= |b|
    ensures PlaceValues(b, i, 4) == Byte(b, i) + 0x100 * Byte(b, i + 1)
                                    + 0x1_0000 * Byte(b, i + 2) + 0x100_0000 * Byte(b, i + 3)
  {
    assert Pow(256, 1) == 0x100 && Pow(256, 2) == 0x1_0000 && Pow(256, 3) == 0x100_0000;
    assert PlaceValues(b, i, 1) == Byte(b, i);
    assert PlaceValues(b, i, 2) == Byte(b, i) + 0x100 * Byte(b, i + 1);
  }

  lemma EightBytes(b: Buffer, i: nat)
    requires i + 8 <= |b|
    ensures PlaceValues(b, i, 8) == PlaceValues(b, i, 4)
                                    + 0x1_0000_0000 * Byte(b, i + 4) + 0x100_0000_0000 * Byte(b, i + 5)
                                    + 0x1_0000_0000_0000 * Byte(b, i + 6) + 0x100_0000_0000_0000 * Byte(b, i + 7)
  {
    assert Pow(256, 4) == 0x1_0000_0000 && Pow(256, 5) == 0x100_0000_0000;
    assert Pow(256, 6) == 0x1_0000_0000_0000 && Pow(256, 7) == 0x100_0000_0000_0000;
    assert PlaceValues(b, i, 6)
           == PlaceValues(b, i, 4) + 0x1_0000_0000 * Byte(b, i + 4) + 0x100_0000_0000 * Byte(b, i + 5);
  }

  /** For every buffer and key: parsing yields the key exactly if there are 83
      bytes, the slot is not 0, and the bytes spell the key. */
  lemma ParsedBytes(b: Buffer, key: ShredKey)
    ensures ParseShredKey(b) == Some(key) <==> |b| >= 83 && key.slot != 0 && Spells(b, 0, key)
  {
    if |b| >= 83 {
      FromLePlaces(b, 65, 8);
      FourBytes(b, 65);
      EightBytes(b, 65);
      FromLePlaces(b, 73, 4);
      FourBytes(b, 73);
      TypeIsTopBit(b[64]);
    }
  }

  /** Two shreds get one key exactly when slot and index bytes and the top bit of the variant agree. */
  lemma SameKey(b: Buffer, c: Buffer)
    requires ParseShredKey(b).Some? && ParseShredKey(c).Some?
    ensures ParseShredKey(b) == ParseShredKey(c)
       <==> b[65..77] == c[65..77] && (b[64] >= 0x80 <==> c[64] >= 0x80)
  {
    TypeIsTopBit(b[64]);
    TypeIsTopBit(c[64]);
    FromLeInjective(b[65..73], c[65..73]);
    FromLeInjective(b[73..77], c[73..77]);
    assert forall x: Buffer | |x| >= 77 :: x[65..77] == x[65..73] + x[73..77];
    assert forall x: Buffer | |x| >= 77 :: x[65..77][..8] == x[65..73] && x[65..77][8..] == x[73..77];
  }

  /** A shred: signature, variant, slot, index, then version, FEC set index and body. */
  function ShredBytes(signature: Buffer, variant: u8, slot: u64, index: u32, rest: Buffer): Buffer
    requires |signature| == 64
  {
    signature + [variant] + ToLe(slot, 8) + ToLe(index, 4) + rest
  }

  /** Parsing gives back the fields a shred was written with, and rejects only slot 0 and short shreds. */
  lemma ParseWritten(signature: Buffer, variant: u8, slot: u64, index: u32, rest: Buffer)
    requires |signature| == 64
    ensures ParseShredKey(ShredBytes(signature, variant, slot, index, rest)) ==
            if |rest| < 6 || slot == 0 then None
            else Some(ShredKey(slot, index, if variant >= 0x80 then Data else Code))
  {
    var b := ShredBytes(signature, variant, slot, index, rest);
    if |rest| >= 6 {
      assert b[64] == variant;
      assert b[65..73] == ToLe(slot, 8);
      assert b[73..77] == ToLe(index, 4);
      assert Pow(256, 8) == TWO_TO_THE_64 && Pow(256, 4) == 0x1_0000_0000;
      FromLeToLe(slot, 8);
      FromLeToLe(index, 4);
      TypeIsTopBit(variant);
    }
  }
}
