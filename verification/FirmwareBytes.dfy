/** Little-endian fields and byte sums of packed firmware structures. */
module FirmwareBytes {

  type Byte = b: nat | b < 256

  const EARLY_LIMIT: nat := 0x1_0000_0000

  /** The span lies in the identity-mapped early window, without wrapping. */
  predicate EarlyMapped(address: nat, length: nat) {
    address < EARLY_LIMIT && length <= EARLY_LIMIT - address
  }

  function U16(s: seq<Byte>, at: nat): (v: nat)
    requires at + 2 <= |s|
    ensures v < 0x1_0000
  {
    s[at] as nat + 0x100 * (s[at + 1] as nat)
  }

  function U32(s: seq<Byte>, at: nat): (v: nat)
    requires at + 4 <= |s|
    ensures v < 0x1_0000_0000
  {
    U16(s, at) + 0x1_0000 * U16(s, at + 2)
  }

  function U64(s: seq<Byte>, at: nat): (v: nat)
    requires at + 8 <= |s|
    ensures v < 0x1_0000_0000_0000_0000
  {
    U32(s, at) + 0x1_0000_0000 * U32(s, at + 4)
  }

  function Le16(v: nat): (s: seq<Byte>)
    ensures |s| == 2
  {
    [v % 0x100, v / 0x100 % 0x100]
  }

  function Le32(v: nat): (s: seq<Byte>)
    ensures |s| == 4
  {
    Le16(v % 0x1_0000) + Le16(v / 0x1_0000)
  }

  function Le64(v: nat): (s: seq<Byte>)
    ensures |s| == 8
  {
    Le32(v % 0x1_0000_0000) + Le32(v / 0x1_0000_0000)
  }

  /** A field written at an offset reads back, whatever surrounds it. */
  lemma Reads16(s: seq<Byte>, at: nat, v: nat)
    requires at + 2 <= |s| && s[at..at + 2] == Le16(v) && v < 0x1_0000
    ensures U16(s, at) == v
  {
    assert s[at] == s[at..at + 2][0] && s[at + 1] == s[at..at + 2][1];
  }

  lemma Reads32(s: seq<Byte>, at: nat, v: nat)
    requires at + 4 <= |s| && s[at..at + 4] == Le32(v) && v < 0x1_0000_0000
    ensures U32(s, at) == v
  {
    var w := s[at..at + 4];
    assert s[at..at + 2] == w[..2] == Le16(v % 0x1_0000);
    assert s[at + 2..at + 4] == w[2..] == Le16(v / 0x1_0000);
    Reads16(s, at, v % 0x1_0000);
    Reads16(s, at + 2, v / 0x1_0000);
  }

  lemma Reads64(s: seq<Byte>, at: nat, v: nat)
    requires at + 8 <= |s| && s[at..at + 8] == Le64(v) && v < 0x1_0000_0000_0000_0000
    ensures U64(s, at) == v
  {
    var w := s[at..at + 8];
    assert s[at..at + 4] == w[..4] == Le32(v % 0x1_0000_0000);
    assert s[at + 4..at + 8] == w[4..] == Le32(v / 0x1_0000_0000);
    Reads32(s, at, v % 0x1_0000_0000);
    Reads32(s, at + 4, v / 0x1_0000_0000);
  }

  /** Which byte of a field counts for what: the lowest address is the least significant. */
  lemma FieldBytes(s: seq<Byte>, at: nat)
    ensures at + 2 <= |s| ==> U16(s, at) == s[at] as nat + 0x100 * s[at + 1] as nat
    ensures at + 4 <= |s| ==>
      U32(s, at) ==
        s[at] as nat + 0x100 * s[at + 1] as nat + 0x1_0000 * s[at + 2] as nat + 0x100_0000 * s[at + 3] as nat
    ensures at + 8 <= |s| ==> U64(s, at) == U32(s, at) + 0x1_0000_0000 * U32(s, at + 4)
  {
  }

  // ----- byte sums -----

  function Total(s: seq<Byte>): nat
    decreases |s|
  {
    if s == [] then 0 else Total(s[..|s| - 1]) + s[|s| - 1]
  }

  function ByteSum(s: seq<Byte>): Byte {
    Total(s) % 256
  }

  lemma {:induction false} TotalUpdate(s: seq<Byte>, i: nat, b: Byte)
    requires i < |s|
    ensures Total(s[i := b]) == Total(s) - s[i] + b
    decreases |s|
  {
    var n := |s| - 1;
    if i == n {
      assert s[i := b][..n] == s[..n];
    } else {
      assert s[i := b][..n] == s[..n][i := b];
      TotalUpdate(s[..n], i, b);
    }
  }

  /** Storing the negated sum into a zeroed checksum byte makes the whole sum zero. */
  lemma ChecksumCancels(s: seq<Byte>, i: nat)
    requires i < |s| && s[i] == 0
    ensures ByteSum(s[i := (256 - ByteSum(s)) % 256]) == 0
  {
    TotalUpdate(s, i, (256 - ByteSum(s)) % 256);
    Complement(Total(s));
  }

  lemma Complement(t: nat)
    ensures (t + (256 - t % 256) % 256) % 256 == 0
  {
    var q, r := t / 256, t % 256;
    if r > 0 { assert t + (256 - r) == 256 * (q + 1); }
  }

  /** One byte changed to another value is always seen in the sum. */
  lemma ChangedByteShows(s: seq<Byte>, i: nat, b: Byte)
    requires i < |s| && b != s[i] && ByteSum(s) == 0
    ensures ByteSum(s[i := b]) != 0
  {
    TotalUpdate(s, i, b);
    TotalUpdate(s, i, 0);
    NoWholeTurn(Total(s), s[i], b);
  }

  lemma NoWholeTurn(t: nat, a: Byte, b: Byte)
    requires t % 256 == 0 && a != b && a <= t
    ensures (t - a + b) % 256 != 0
  {
    if b > a { assert (t - a + b) % 256 == (b - a) % 256; } else { assert (t - a + b) % 256 == (256 + b - a) % 256; }
  }

  /** The wrapping eight-bit accumulation. */
  method SumBytes(s: seq<Byte>, size: nat) returns (sum: Byte)
    requires size <= |s|
    ensures sum == ByteSum(s[..size])
  {
    sum := 0;
    var k := 0;
    while k < size
      invariant k <= size
      invariant sum == ByteSum(s[..k])
    {
      assert s[..k + 1][..k] == s[..k];
      sum := (sum + s[k]) % 256;
      k := k + 1;
    }
  }

  method Write16(a: array<Byte>, at: nat, v: nat)
    requires at + 2 <= a.Length
    modifies a
    ensures forall k :: 0 <= k < a.Length ==>
      a[k] == if at <= k < at + 2 then Le16(v)[k - at] else old(a[k])
  {
    a[at] := v % 0x100;
    a[at + 1] := v / 0x100 % 0x100;
  }

  method Write32(a: array<Byte>, at: nat, v: nat)
    requires at + 4 <= a.Length
    modifies a
    ensures forall k :: 0 <= k < a.Length ==>
      a[k] == if at <= k < at + 4 then Le32(v)[k - at] else old(a[k])
  {
    Write16(a, at, v % 0x1_0000);
    Write16(a, at + 2, v / 0x1_0000);
  }
}
