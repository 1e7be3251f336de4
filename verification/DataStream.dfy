/**
 * The part of QDataStream that the index file and the wallet file use: fixed
 * width little-endian integers and raw blocks, with reads past the end yielding
 * zeroes, draining the stream and recording that it ran short.
 */
module DataStream {
  import opened Text

  function Power256(k: nat): (r: nat)
    ensures r >= 1
  {
    if k == 0 then 1 else 256 * Power256(k - 1)
  }

  const U16: nat := 0x1_0000
  const U32: nat := 0x1_0000_0000

  lemma Widths()
    ensures Power256(2) == U16 && Power256(4) == U32
  {
    assert Power256(1) == 256;
    assert Power256(2) == 256 * 256;
    assert Power256(3) == 256 * 256 * 256;
  }

  /** The k low bytes of n, least significant first. */
  function Le(n: nat, k: nat): (bytes: Str)
    ensures |bytes| == k
  {
    if k == 0 then [] else [n % 256] + Le(n / 256, k - 1)
  }

  /** The i-th byte is the i-th digit to base 256. */
  lemma {:induction false} LeByte(n: nat, k: nat, i: nat)
    requires i < k
    ensures Le(n, k)[i] == n / Power256(i) % 256
  {
    if i != 0 {
      LeByte(n / 256, k - 1, i - 1);
      DivSplit(n, Power256(i - 1));
    }
  }

  lemma DivSplit(n: nat, m: nat)
    requires m >= 1
    ensures n / 256 / m == n / (256 * m)
  {
    var q, r := n / 256 / m, n / 256 % m;
    assert n / 256 == m * q + r;
    assert n == 256 * m * q + (256 * r + n % 256);
    var d := 256 * m;
    assert 0 <= 256 * r + n % 256 < d;
    Remainder(n, d, q, 256 * r + n % 256);
    var e := n / d - q;
    assert d * e == 0;
  }

  function ValueOf(bytes: Str): (n: nat)
  {
    if bytes == [] then 0 else bytes[0] + 256 * ValueOf(bytes[1..])
  }

  lemma {:induction false} ValueBound(bytes: Str)
    ensures ValueOf(bytes) < Power256(|bytes|)
  {
    if bytes != [] {
      ValueBound(bytes[1..]);
    }
  }

  lemma ModSplit(n: nat, m: nat)
    requires m >= 1
    ensures n % (256 * m) == n % 256 + 256 * (n / 256 % m)
  {
    var q := n / 256 / m;
    var low := n % 256 + 256 * (n / 256 % m);
    assert n / 256 == m * q + n / 256 % m;
    assert n == 256 * m * q + low;
    assert 0 <= low < 256 * m;
    Remainder(n, 256 * m, q, low);
  }

  lemma Remainder(n: nat, d: nat, q: nat, r: nat)
    requires n == d * q + r && r < d
    ensures n % d == r
  {
    var e := n / d - q;
    assert n == d * (n / d) + n % d;
    assert d * e == r - n % d;
  }

  /** Reading back a written integer gives it modulo the width. */
  lemma {:induction false} ValueOfLe(n: nat, k: nat)
    ensures ValueOf(Le(n, k)) == n % Power256(k)
  {
    if k != 0 {
      ValueOfLe(n / 256, k - 1);
      ModSplit(n, Power256(k - 1));
    }
  }

  lemma SmallFields(n: Byte)
    ensures Le(n, 4) == [n, 0, 0, 0] && Le(n, 2) == [n, 0]
  {
    assert Le(0, 1) == [0] + Le(0, 0);
    assert Le(0, 2) == [0] + Le(0, 1);
    assert Le(0, 3) == [0] + Le(0, 2);
  }

  lemma OneInFour(bytes: Str)
    requires |bytes| == 4
    ensures ValueOf(bytes) == 1 <==> bytes == [1, 0, 0, 0]
  {
    assert ValueOf(bytes) == bytes[0] + 256 * ValueOf(bytes[1..]);
    assert ValueOf(bytes[1..]) == bytes[1] + 256 * ValueOf(bytes[1..][1..]);
    assert ValueOf(bytes[2..]) == bytes[2] + 256 * ValueOf(bytes[2..][1..]);
    assert ValueOf(bytes[3..]) == bytes[3] + 256 * ValueOf(bytes[3..][1..]);
    assert bytes[1..][1..] == bytes[2..] && bytes[2..][1..] == bytes[3..] && bytes[3..][1..] == [];
  }

  /** What one read leaves: the value, the unread bytes, and whether all was there. */
  datatype Read<+T> = Read(value: T, rest: Str, ok: bool)

  /** stream >> n, for an unsigned integer of k bytes */
  function ReadInt(s: Str, k: nat): (r: Read<nat>)
    ensures |r.rest| <= |s|
    ensures r.ok && k > 0 ==> |r.rest| < |s|
    ensures r.ok <==> k <= |s|
    ensures !r.ok ==> r.value == 0 && r.rest == []
  {
    if |s| < k then Read(0, [], false) else Read(ValueOf(s[..k]), s[k..], true)
  }

  /** stream.readRawData into a zeroed buffer of n bytes */
  function ReadRaw(s: Str, n: nat): (r: Read<Str>)
    ensures |r.value| == n
    ensures |r.rest| <= |s|
    ensures r.ok <==> n <= |s|
    ensures forall i :: 0 <= i < n ==> r.value[i] == if i < |s| then s[i] else 0
  {
    if |s| < n then Read(s + seq(n - |s|, _ => 0), [], false) else Read(s[..n], s[n..], true)
  }

  lemma ReadIntBound(s: Str, k: nat)
    ensures ReadInt(s, k).value < Power256(k)
  {
    if k <= |s| {
      ValueBound(s[..k]);
    }
  }

  lemma ReadBackInt(n: nat, k: nat, tail: Str)
    requires n < Power256(k)
    ensures ReadInt(Le(n, k) + tail, k) == Read(n, tail, true)
  {
    ValueOfLe(n, k);
    assert (Le(n, k) + tail)[..k] == Le(n, k);
    assert (Le(n, k) + tail)[k..] == tail;
  }

  lemma ReadBackRaw(block: Str, tail: Str)
    ensures ReadRaw(block + tail, |block|) == Read(block, tail, true)
  {
    assert (block + tail)[..|block|] == block;
    assert (block + tail)[|block|..] == tail;
  }

  // ---------------------------------------------------------------- int32

  predicate FitsInt32(r: int) {
    -0x8000_0000 <= r < 0x8000_0000
  }

  /** The two's complement pattern of the low 32 bits. */
  function Unsigned32(r: int): (n: nat)
    ensures n < U32
  {
    r % U32
  }

  function Signed32(n: nat): (r: int)
    requires n < U32
    ensures FitsInt32(r)
  {
    if n < 0x8000_0000 then n else n - U32
  }

  lemma Int32RoundTrip(r: int)
    ensures Signed32(Unsigned32(r)) == r <==> FitsInt32(r)
  {
  }
}
