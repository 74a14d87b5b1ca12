/**
 Integer readings of a sensor, stored in network byte order in as many bytes as the sensor has.
 */
module SensorBeans {
  import opened Arithmetic
  import opened Bytes
  import opened Segments

  // ---------------------------------------------------------------- numbers as bytes

  function Pow256(n: nat): (r: nat)
    ensures r >= 1
  {
    if n == 0 then 1 else 256 * Pow256(n - 1)
  }

  /** The low n bytes of a number, the lowest first: memory of a little-endian host. */
  function Le(v: nat, n: nat): (r: seq<byte>)
    ensures |r| == n
    decreases n
  {
    if n == 0 then [] else [v % 256] + Le(v / 256, n - 1)
  }

  /** The low n bytes of a number, the highest first: network byte order. */
  function Be(v: nat, n: nat): (r: seq<byte>)
    ensures |r| == n
    decreases n
  {
    if n == 0 then [] else Be(v / 256, n - 1) + [v % 256]
  }

  function FromLe(b: seq<byte>): nat
    decreases |b|
  {
    if b == [] then 0 else b[0] as nat + 256 * FromLe(b[1..])
  }

  function FromBe(b: seq<byte>): nat
    decreases |b|
  {
    if b == [] then 0 else FromBe(b[..|b| - 1]) * 256 + b[|b| - 1] as nat
  }

  function Reversed(b: seq<byte>): seq<byte>
    decreases |b|
  {
    if b == [] then [] else Reversed(b[1..]) + [b[0]]
  }

  const TWO_32 := 0x1_0000_0000

  /** htonl on a little-endian host: the number whose memory is the given one in network byte order. */
  function Htonl(v: nat): (r: nat)
    requires v < TWO_32
    ensures r < TWO_32
  {
    FromLeBound(Be(v, 4));
    FromLe(Be(v, 4))
  }

  /** htonll as the source has it: both halves swapped, and put together the other way round. */
  function Htonll(v: nat): nat
    requires v < TWO_32 * TWO_32
  {
    var highPart := Htonl(v / TWO_32);
    var lowPart := Htonl(v % TWO_32);
    lowPart * TWO_32 + highPart
  }

  lemma {:induction false} FromLeBound(b: seq<byte>)
    ensures FromLe(b) < Pow256(|b|)
    ensures Pow256(4) == TWO_32
    decreases |b|
  {
    assert Pow256(2) == 0x1_0000 && Pow256(4) == 256 * (256 * Pow256(2));
    if b != [] {
      FromLeBound(b[1..]);
    }
  }

  lemma {:induction false} LeReadsBack(b: seq<byte>)
    ensures Le(FromLe(b), |b|) == b
    decreases |b|
  {
    if b != [] {
      LeReadsBack(b[1..]);
      var rest := FromLe(b[1..]);
      assert (b[0] as nat + 256 * rest) / 256 == rest && (b[0] as nat + 256 * rest) % 256 == b[0] as nat;
    }
  }

  lemma {:induction false} BeIsReversed(v: nat, n: nat)
    ensures Be(v, n) == Reversed(Le(v, n))
    decreases n
  {
    if n > 0 {
      BeIsReversed(v / 256, n - 1);
      assert Le(v, n)[1..] == Le(v / 256, n - 1);
    }
  }

  /** One step of a split: the lowest byte of h * 256^n + l is that of l. */
  lemma LowByte(h: nat, l: nat, n: nat)
    requires n > 0
    ensures (h * Pow256(n) + l) % 256 == l % 256
    ensures (h * Pow256(n) + l) / 256 == h * Pow256(n - 1) + l / 256
  {
    var k := h * Pow256(n - 1);
    assert h * Pow256(n) == 256 * k;
  }

  lemma {:induction false} LeSplit(h: nat, l: nat, n: nat, m: nat)
    requires l < Pow256(n)
    ensures Le(h * Pow256(n) + l, n + m) == Le(l, n) + Le(h, m)
    decreases n
  {
    if n == 0 {
      assert Le(l, 0) == [] && h * Pow256(0) + l == h;
    } else {
      LowByte(h, l, n);
      LeSplit(h, l / 256, n - 1, m);
    }
  }

  lemma {:induction false} BeSplit(h: nat, l: nat, m: nat, n: nat)
    requires l < Pow256(n)
    ensures Be(h * Pow256(n) + l, m + n) == Be(h, m) + Be(l, n)
    decreases n
  {
    if n == 0 {
      assert Be(l, 0) == [] && h * Pow256(0) + l == h;
    } else {
      LowByte(h, l, n);
      BeSplit(h, l / 256, m, n - 1);
    }
  }

  /** The swapped halves in swapped places are the full reversal of the eight bytes. */
  lemma HtonllReversesAllBytes(v: nat)
    requires v < TWO_32 * TWO_32
    ensures Htonll(v) == FromLe(Reversed(Le(v, 8)))
    ensures Le(Htonll(v), 8) == Be(v, 8)
  {
    hide *;
    var h, l := v / TWO_32, v % TWO_32;
    Halves(v);
    BeSplit(h, l, 4, 4);
    BeIsReversed(v, 8);
    LeReadsBack(Be(h, 4));
    LeReadsBack(Be(l, 4));
    LeSplit(Htonl(l), Htonl(h), 4, 4);
    FromLeLe(Htonll(v), 8);
  }

  lemma Halves(v: nat)
    requires v < TWO_32 * TWO_32
    ensures Pow256(4) == TWO_32 && v / TWO_32 < TWO_32
    ensures v == (v / TWO_32) * Pow256(4) + v % TWO_32
    ensures Htonl(v / TWO_32) == FromLe(Be(v / TWO_32, 4)) && Htonl(v % TWO_32) == FromLe(Be(v % TWO_32, 4))
    ensures Htonll(v) == Htonl(v % TWO_32) * Pow256(4) + Htonl(v / TWO_32) < Pow256(8)
  {
    FromLeBound([]);
    assert Pow256(8) == 256 * (256 * (256 * (256 * Pow256(4))));
  }

  lemma {:induction false} FromLeLe(v: nat, n: nat)
    requires v < Pow256(n)
    ensures FromLe(Le(v, n)) == v
    decreases n
  {
    if n > 0 {
      FromLeLe(v / 256, n - 1);
      assert Le(v, n)[1..] == Le(v / 256, n - 1);
    }
  }

  // ---------------------------------------------------------------- what is stored

  /** Leaving away the first bytes of a number in network byte order leaves its low bytes. */
  lemma {:induction false} BeDrop(v: nat, k: nat, n: nat)
    requires n <= k
    ensures Be(v, k)[k - n..] == Be(v, n)
    decreases n
  {
    if n > 0 {
      BeDrop(v / 256, k - 1, n - 1);
    }
  }

  lemma ModStep(v: nat, p: nat)
    requires p > 0
    ensures (v / 256 % p) * 256 + v % 256 == v % (256 * p)
  {
    var q, m := v / 256 / p, v / 256 % p;
    assert v / 256 == q * p + m;
    var small := m * 256 + v % 256;
    assert v == q * (256 * p) + small by {
      assert q * p * 256 == q * (256 * p);
    }
    assert m <= p - 1;
    DivModUnique(v, 256 * p, q, small);
  }

  lemma {:induction false} BeDecodes(v: nat, n: nat)
    ensures FromBe(Be(v, n)) == v % Pow256(n)
    decreases n
  {
    if n > 0 {
      BeDecodes(v / 256, n - 1);
      assert Be(v, n)[..n - 1] == Be(v / 256, n - 1);
      ModStep(v, Pow256(n - 1));
    }
  }

  /** The 16-bit fields of the messages are in network byte order too, those of the memory header in that of
      the host. */
  lemma FieldsInByteOrder(n: nat, b: seq<byte>)
    requires |b| == 2
    ensures Be16(n) == Be(n, 2) && FromBe16(b) == FromBe(b)
    ensures Le16(n) == Le(n, 2) && FromLe16(b) == FromLe(b)
  {
    assert Be(n, 2) == Be(n / 256, 1) + [n % 256] && Be(n / 256, 1) == Be(n / 256 / 256, 0) + [n / 256 % 256];
    assert Le(n, 2) == [n % 256] + Le(n / 256, 1) && Le(n / 256, 1) == [n / 256 % 256] + Le(n / 256 / 256, 0);
    assert b[..1] == [b[0]] && b[1..] == [b[1]] && [b[0]][..0] == [] && [b[1]][1..] == [];
    assert FromBe([b[0]]) == b[0] as nat && FromLe([b[1]]) == b[1] as nat;
  }

  class SensorBean {
    const maxDataSize: nat
    const data: array<byte>

    ghost predicate Valid()
      reads this
    {
      data.Length == maxDataSize
    }

    constructor (maxDataSize: nat)
      ensures Valid() && fresh(data) && this.maxDataSize == maxDataSize
    {
      this.maxDataSize := maxDataSize;
      data := new byte[maxDataSize];
    }

    /** setData of a 32-bit number. */
    method SetData32(value: nat)
      requires Valid() && value < TWO_32 && maxDataSize <= 4
      modifies data
      ensures FromBe(data[..]) == value % Pow256(maxDataSize)
      ensures data[..] == Be(value, maxDataSize)
    {
      hide Be, Le, FromBe, Pow256, Htonl;
      var val := Htonl(value);
      var memory := Le(val, 4);
      Htonl32(value);
      BeDrop(value, 4, maxDataSize);
      StoreAll(memory[4 - maxDataSize..]);
      BeDecodes(value, maxDataSize);
    }

    /** setData of a 64-bit number. */
    method SetData64(value: nat)
      requires Valid() && value < TWO_32 * TWO_32 && maxDataSize <= 8
      modifies data
      ensures FromBe(data[..]) == value % Pow256(maxDataSize)
      ensures data[..] == Be(value, maxDataSize)
    {
      hide Be, Le, FromBe, Pow256, Htonll;
      var val := Htonll(value);
      var memory := Le(val, 8);
      HtonllReversesAllBytes(value);
      BeDrop(value, 8, maxDataSize);
      StoreAll(memory[8 - maxDataSize..]);
      BeDecodes(value, maxDataSize);
    }

    method StoreAll(bytes: seq<byte>)
      requires data.Length == |bytes|
      modifies data
      ensures data[..] == bytes
    {
      Copy(data, 0, bytes);
    }
  }

  lemma Htonl32(v: nat)
    requires v < TWO_32
    ensures Le(Htonl(v), 4) == Be(v, 4)
  {
    LeReadsBack(Be(v, 4));
  }
}
