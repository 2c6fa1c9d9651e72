/** Fixed-width integers, byte strings and their big- and little-endian encodings. */
module Machine {

  datatype Option<+T> = None | Some(value: T)

  const TWO_16: int := 0x1_0000
  const TWO_32: int := 0x1_0000_0000
  const TWO_64: int := 0x1_0000_0000_0000_0000
  const U64_MAX: U64 := 0xFFFF_FFFF_FFFF_FFFF

  type Byte = b: int | 0 <= b < 0x100
  type U16 = x: int | 0 <= x < 0x1_0000
  type U32 = x: int | 0 <= x < 0x1_0000_0000
  type U64 = x: int | 0 <= x < 0x1_0000_0000_0000_0000

  /** What 64-bit addition and multiplication leave of an exact result in a release build. */
  function Wrap64(x: nat): U64 {
    x % TWO_64
  }

  lemma WrapInside(x: nat, y: nat)
    ensures Wrap64(x + Wrap64(y)) == Wrap64(x + y)
  {
    var q := y / TWO_64;
    assert y == q * TWO_64 + y % TWO_64;
    WrapDrops(x + y % TWO_64, q);
  }

  lemma {:induction false} WrapDrops(x: nat, q: nat)
    ensures Wrap64(x + q * TWO_64) == Wrap64(x)
  {
    if q > 0 {
      WrapDrops(x, q - 1);
    }
  }

  function Pow256(n: nat): nat {
    if n == 0 then 1 else 256 * Pow256(n - 1)
  }

  lemma Pow256Values()
    ensures Pow256(1) == 0x100 && Pow256(2) == TWO_16 && Pow256(4) == TWO_32 && Pow256(8) == TWO_64
  {
    assert Pow256(3) == 0x100_0000;
    assert Pow256(5) == 0x100 * TWO_32;
    assert Pow256(6) == TWO_16 * TWO_32;
    assert Pow256(7) == 0x100_0000 * TWO_32;
  }

  // ----- Big endian: the most significant byte first -----

  function ToBE(x: nat, n: nat): (s: seq<Byte>)
    ensures |s| == n
  {
    if n == 0 then [] else ToBE(x / 256, n - 1) + [x % 256]
  }

  function FromBE(s: seq<Byte>): (x: nat)
    ensures x < Pow256(|s|)
  {
    if s == [] then 0 else FromBE(s[..|s| - 1]) * 256 + s[|s| - 1]
  }

  lemma {:induction false} BigEndianReads(x: nat, n: nat)
    requires x < Pow256(n)
    ensures FromBE(ToBE(x, n)) == x
  {
    if n > 0 {
      BigEndianReads(x / 256, n - 1);
      assert ToBE(x, n)[..n - 1] == ToBE(x / 256, n - 1);
    }
  }

  lemma {:induction false} BigEndianWrites(s: seq<Byte>)
    ensures ToBE(FromBE(s), |s|) == s
  {
    if s != [] {
      var init := s[..|s| - 1];
      BigEndianWrites(init);
      assert FromBE(s) / 256 == FromBE(init) && FromBE(s) % 256 == s[|s| - 1];
      assert s == init + [s[|s| - 1]];
    }
  }

  /** The first byte counts for the most. */
  lemma {:induction false} FirstByteIsMostSignificant(b: Byte, s: seq<Byte>)
    ensures FromBE([b] + s) == b * Pow256(|s|) + FromBE(s)
  {
    if s == [] {
      assert [b] + s == [b] && [b][..0] == [];
    } else {
      var init, last := s[..|s| - 1], s[|s| - 1];
      FirstByteIsMostSignificant(b, init);
      assert ([b] + s)[..|s|] == [b] + init;
      assert b * Pow256(|s|) == b * Pow256(|init|) * 256;
    }
  }

  /** Four bytes in network order, place by place. */
  lemma NetworkOrder(s: seq<Byte>)
    requires |s| == 4
    ensures FromBE(s) == s[0] as int * 0x100_0000 + s[1] as int * 0x1_0000 + s[2] as int * 0x100 + s[3]
  {
    assert s[..3][..2] == s[..2] && s[..2][..1] == s[..1] && s[..1][..0] == [];
    assert FromBE(s[..1]) == s[0];
    assert FromBE(s[..2]) == s[0] as int * 0x100 + s[1];
    assert FromBE(s[..3]) == s[0] as int * 0x1_0000 + s[1] as int * 0x100 + s[2];
  }

  // ----- Little endian: the least significant byte first -----

  function ToLE(x: nat, n: nat): (s: seq<Byte>)
    ensures |s| == n
  {
    if n == 0 then [] else [x % 256] + ToLE(x / 256, n - 1)
  }

  function FromLE(s: seq<Byte>): (x: nat)
    ensures x < Pow256(|s|)
  {
    if s == [] then 0 else s[0] + 256 * FromLE(s[1..])
  }

  lemma {:induction false} LittleEndianReads(x: nat, n: nat)
    requires x < Pow256(n)
    ensures FromLE(ToLE(x, n)) == x
  {
    if n > 0 {
      LittleEndianReads(x / 256, n - 1);
      assert ToLE(x, n)[1..] == ToLE(x / 256, n - 1);
    }
  }

  lemma {:induction false} LittleEndianWrites(s: seq<Byte>)
    ensures ToLE(FromLE(s), |s|) == s
  {
    if s != [] {
      LittleEndianWrites(s[1..]);
      assert FromLE(s) / 256 == FromLE(s[1..]) && FromLE(s) % 256 == s[0];
      assert s == [s[0]] + s[1..];
    }
  }

  // ----- The machine's own byte order -----

  datatype Endian = Little | Big

  function ToNE(order: Endian, x: nat, n: nat): (s: seq<Byte>)
    ensures |s| == n
  {
    match order
    case Little => ToLE(x, n)
    case Big => ToBE(x, n)
  }

  function FromNE(order: Endian, s: seq<Byte>): (x: nat)
    ensures x < Pow256(|s|)
  {
    match order
    case Little => FromLE(s)
    case Big => FromBE(s)
  }

  lemma NativeReads(order: Endian, x: nat, n: nat)
    requires x < Pow256(n)
    ensures FromNE(order, ToNE(order, x, n)) == x
  {
    match order
    case Little => LittleEndianReads(x, n);
    case Big => BigEndianReads(x, n);
  }

  lemma NativeWrites(order: Endian, s: seq<Byte>)
    ensures ToNE(order, FromNE(order, s), |s|) == s
  {
    match order
    case Little => LittleEndianWrites(s);
    case Big => BigEndianWrites(s);
  }

  /** The two byte orders at their smallest. */
  lemma ByteOrders(a: Byte, b: Byte)
    ensures FromNE(Big, [a, b]) == a as int * 0x100 + b
    ensures FromNE(Little, [a, b]) == b as int * 0x100 + a
  {
    assert [a, b][..1] == [a] && [a][..0] == [];
    assert [a, b][1..] == [b] && [b][1..] == [];
    assert FromBE([a]) == a && FromLE([b]) == b;
  }

  // ----- IPv4 addresses: four octets, or the same four octets as one number -----

  type Octets = s: seq<Byte> | |s| == 4 witness [0, 0, 0, 0]

  function Key(o: Octets): U32 {
    Pow256Values();
    FromBE(o)
  }

  function OctetsOf(k: U32): Octets {
    ToBE(k, 4)
  }

  lemma KeyRoundTrip(o: Octets, k: U32)
    ensures OctetsOf(Key(o)) == o && Key(OctetsOf(k)) == k
  {
    Pow256Values();
    BigEndianWrites(o);
    BigEndianReads(k, 4);
  }
}
