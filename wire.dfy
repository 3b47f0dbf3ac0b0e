/** Byte-level vocabulary shared by every part of the codec: fixed-width
    integers, the failure wrapper, big-endian conversions and ASCII case
    folding. */
module Wire {

  /** An unsigned byte, `u8`. */
  type u8 = x: int | 0 <= x < 0x100
  /** An unsigned 16-bit value, `u16`. */
  type u16 = x: int | 0 <= x < 0x1_0000
  /** An unsigned 32-bit value, `u32`. */
  type u32 = x: int | 0 <= x < 0x1_0000_0000

  /** A value that may be absent: every reader of the codec reports failure with `None`. */
  datatype Option<+T> = None | Some(value: T)

  /** Size of the fixed DNS header (section 4.1.1 of RFC 1035). */
  const HEADER_SIZE: nat := 12

  /** Largest message body after the header: a whole message stays within
      the 512-byte UDP limit of section 2.3.4 of RFC 1035. */
  const MAX_MESSAGE_SIZE: nat := 512 - HEADER_SIZE

  /** `u16::from_be_bytes([hi, lo])`. */
  function U16FromBe(hi: u8, lo: u8): u16 {
    hi * 0x100 + lo
  }

  /** `n.to_be_bytes()` for a `u16`: two bytes, most significant first. */
  function U16ToBe(n: u16): (b: seq<u8>)
    ensures |b| == 2 && U16FromBe(b[0], b[1]) == n
  {
    [n / 0x100, n % 0x100]
  }

  /** Decoding two bytes and encoding the value again gives the same two bytes. */
  lemma U16BeRoundTrip(hi: u8, lo: u8)
    ensures U16ToBe(U16FromBe(hi, lo)) == [hi, lo]
  {
  }

  /** `n as u8` as an 8-bit vector: the low byte of `n`, with the value
      `n` modulo 256. */
  function LowByte(n: int): (x: bv8)
    ensures x as int == n % 0x100
  {
    ByteOf(n % 0x100)
  }

  /** The byte `n`, counted up from zero one increment at a time. */
  function ByteOf(n: nat): (x: bv8)
    requires n < 0x100
    ensures x as int == n
  {
    if n == 0 then 0
    else
      var y := ByteOf(n - 1);
      Increment(y);
      y + 1
  }

  /** Below 255, adding one to a byte adds one to its value. */
  lemma Increment(y: bv8)
    requires y as int < 0xFF
    ensures (y + 1) as int == y as int + 1
  {
  }

  /** `u32::from_be_bytes([b0, b1, b2, b3])`. */
  function U32FromBe(b0: u8, b1: u8, b2: u8, b3: u8): u32 {
    ((b0 * 0x100 + b1) * 0x100 + b2) * 0x100 + b3
  }

  /** `n.to_be_bytes()` for a `u32`. */
  function U32ToBe(n: u32): (b: seq<u8>)
    ensures |b| == 4 && U32FromBe(b[0], b[1], b[2], b[3]) == n
  {
    U16ToBe(n / 0x1_0000) + U16ToBe(n % 0x1_0000)
  }

  /** `u8::to_ascii_lowercase`: only `A`..`Z` change. */
  function AsciiLower(b: u8): (r: u8)
    ensures 'A' as int <= b <= 'Z' as int ==> r == b + 32
    ensures !('A' as int <= b <= 'Z' as int) ==> r == b
  {
    if 'A' as int <= b <= 'Z' as int then b + 32 else b
  }

  /** `eq_ignore_ascii_case` on byte strings: same length and equal after lower-casing each byte. */
  predicate EqIgnoreAsciiCase(a: seq<u8>, b: seq<u8>) {
    |a| == |b| && forall k :: 0 <= k < |a| ==> AsciiLower(a[k]) == AsciiLower(b[k])
  }

  /** `[u8]::to_ascii_lowercase`. */
  function LowerAll(s: seq<u8>): (r: seq<u8>)
    ensures |r| == |s| && forall k :: 0 <= k < |s| ==> r[k] == AsciiLower(s[k])
  {
    if s == [] then [] else [AsciiLower(s[0])] + LowerAll(s[1..])
  }

  /** Case-insensitive equality is equality of the lower-cased strings, so it
      is an equivalence. */
  lemma EqIgnoreAsciiCaseIsLowerEq(a: seq<u8>, b: seq<u8>)
    ensures EqIgnoreAsciiCase(a, b) <==> LowerAll(a) == LowerAll(b)
  {
    if LowerAll(a) == LowerAll(b) {
      assert |a| == |b|;
      forall k | 0 <= k < |a| ensures AsciiLower(a[k]) == AsciiLower(b[k]) {
        assert LowerAll(a)[k] == LowerAll(b)[k];
      }
    }
  }

  /** Where `a + b` sits in a buffer, so does each of its halves. */
  lemma SliceHalves(buf: seq<u8>, off: nat, mid: nat, end: nat, a: seq<u8>, b: seq<u8>)
    requires mid == off + |a| && end == off + |a + b| && end <= |buf| && buf[off..end] == a + b
    ensures buf[off..mid] == a && buf[mid..end] == b
  {
    assert buf[off..mid] == buf[off..end][..|a|];
    assert buf[mid..end] == buf[off..end][|a|..];
  }

  /** Where `a + b + c` sits in a buffer, so does each of its parts. */
  lemma SliceParts(buf: seq<u8>, off: nat, a: seq<u8>, b: seq<u8>, c: seq<u8>)
    requires off + |a| + |b| + |c| <= |buf| && buf[off..off + |a| + |b| + |c|] == a + b + c
    ensures buf[off..off + |a|] == a
    ensures buf[off + |a|..off + |a| + |b|] == b
    ensures buf[off + |a| + |b|..off + |a| + |b| + |c|] == c
  {
    var w := buf[off..off + |a| + |b| + |c|];
    assert buf[off..off + |a|] == w[..|a|] == a;
    forall k | 0 <= k < |b|
      ensures buf[off + |a|..off + |a| + |b|][k] == b[k]
    {
      assert buf[off + |a| + k] == w[|a| + k] == (a + b)[|a| + k];
    }
    assert buf[off + |a| + |b|..off + |a| + |b| + |c|] == w[|a| + |b|..] == c;
  }
}
