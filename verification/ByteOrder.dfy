/** Integers and their bytes, lowest or highest first. */
module ByteOrder {
  import opened Bytes

  /** The byte with value `n`. */
  function ByteOf(n: nat): Byte
    requires n < 256
  {
    if n == 0 then 0 else ByteOf(n - 1) + 1
  }

  lemma NextByte(b: Byte)
    requires b as int < 255
    ensures (b + 1) as int == b as int + 1
  {
  }

  lemma {:induction false} ByteOfValue(n: nat)
    requires n < 256
    ensures ByteOf(n) as int == n
  {
    if n > 0 {
      ByteOfValue(n - 1);
      NextByte(ByteOf(n - 1));
    }
  }

  /** `to_le_bytes`: `width` bytes, the lowest first. */
  function LittleEndian(value: nat, width: nat): (r: Bytes)
    ensures |r| == width
  {
    if width == 0 then [] else [ByteOf(value % 256)] + LittleEndian(value / 256, width - 1)
  }

  lemma LowestFirst(value: nat, width: nat)
    requires width > 0
    ensures LittleEndian(value, width) == [ByteOf(value % 256)] + LittleEndian(value / 256, width - 1)
  {
  }

  function LittleEndianNat(bytes: Bytes): nat {
    if bytes == [] then 0 else (bytes[0] as int) + 256 * LittleEndianNat(bytes[1..])
  }

  function Power256(width: nat): nat {
    if width == 0 then 1 else 256 * Power256(width - 1)
  }

  /** Decoding undoes encoding for every value that fits. */
  lemma {:induction false} LittleEndianRoundTrip(value: nat, width: nat)
    requires value < Power256(width)
    ensures LittleEndianNat(LittleEndian(value, width)) == value
  {
    if width > 0 {
      LittleEndianRoundTrip(value / 256, width - 1);
      ByteOfValue(value % 256);
      assert LittleEndian(value, width)[1..] == LittleEndian(value / 256, width - 1);
    }
  }

  lemma LittleEndianInjective(v: U64, w: U64)
    requires LittleEndian(v, 8) == LittleEndian(w, 8)
    ensures v == w
  {
    hide LittleEndian, LittleEndianNat;
    EightBytes();
    LittleEndianRoundTrip(v, 8);
    LittleEndianRoundTrip(w, 8);
  }

  lemma EightBytes()
    ensures Power256(8) == TWO_64
  {
    assert Power256(4) == 0x1_0000_0000;
    assert Power256(6) == 0x1_0000_0000_0000;
  }

  /** `from_be_bytes`. */
  function BigEndianNat(bytes: Bytes): nat {
    if bytes == [] then 0
    else BigEndianNat(bytes[..|bytes| - 1]) * 256 + (bytes[|bytes| - 1] as int)
  }

  lemma {:induction false} BigEndianNatInjective(a: Bytes, b: Bytes)
    requires |a| == |b| && BigEndianNat(a) == BigEndianNat(b)
    ensures a == b
  {
    if a != [] {
      var n := |a| - 1;
      BigEndianNatInjective(a[..n], b[..n]);
      SameByte(a[n], b[n]);
      assert a == a[..n] + [a[n]] && b == b[..n] + [b[n]];
    }
  }

  lemma SameByte(x: Byte, y: Byte)
    requires x as int == y as int
    ensures x == y
  {
  }

  /** Which end comes first. */
  lemma ByteOrders()
    ensures LittleEndian(0x0102, 2) == [2, 1] && LittleEndianNat([2, 1]) == 0x0102
    ensures BigEndianNat([1, 2]) == 0x0102
  {
    assert [1 as Byte, 2][..1] == [1] && [1 as Byte][..0] == [];
    assert BigEndianNat([1]) == 1;
    assert [2 as Byte, 1][1..] == [1] && [1 as Byte][1..] == [];
    assert LittleEndianNat([1]) == 1;
    assert LittleEndian(1, 1) == [1];
  }
}
