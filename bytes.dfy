/** Fixed-width unsigned integers and the big-endian byte order of the DNS wire format. */
module Bytes {

  /** An octet of a message, Go's `byte` / `uint8`. */
  type byte = b: int | 0 <= b < 0x100

  /** Go's `uint16`. */
  type u16 = x: int | 0 <= x < 0x1_0000

  /** Go's `uint32`. */
  type u32 = x: int | 0 <= x < 0x1_0000_0000

  /** `binary.BigEndian.PutUint16`: the two bytes of `x`, most significant first. */
  function U16Bytes(x: u16): (r: seq<byte>)
    ensures |r| == 2
  {
    [x / 0x100, x % 0x100]
  }

  /** `binary.BigEndian.Uint16` applied to `s[at..at + 2]`. */
  function ReadU16(s: seq<byte>, at: nat): u16
    requires at + 2 <= |s|
  {
    s[at] as int * 0x100 + s[at + 1]
  }

  /** `binary.BigEndian.Uint32` applied to `s[at..at + 4]`. */
  function ReadU32(s: seq<byte>, at: nat): u32
    requires at + 4 <= |s|
  {
    ReadU16(s, at) * 0x1_0000 + ReadU16(s, at + 2)
  }

  /** `binary.BigEndian.PutUint32`: the four bytes of `x`, most significant first. */
  function U32Bytes(x: u32): (r: seq<byte>)
    ensures |r| == 4
  {
    U16Bytes(x / 0x1_0000) + U16Bytes(x % 0x1_0000)
  }

  /** Reading back the two bytes written for `x` gives `x`. */
  lemma U16RoundTrip(x: u16, s: seq<byte>, at: nat)
    requires at + 2 <= |s| && s[at..at + 2] == U16Bytes(x)
    ensures ReadU16(s, at) == x
  {
    assert s[at] == x / 0x100 && s[at + 1] == x % 0x100 by {
      assert s[at] == s[at..at + 2][0] && s[at + 1] == s[at..at + 2][1];
    }
  }

  /** Reading back the four bytes written for `x` gives `x`. */
  lemma U32RoundTrip(x: u32, s: seq<byte>, at: nat)
    requires at + 4 <= |s| && s[at..at + 4] == U32Bytes(x)
    ensures ReadU32(s, at) == x
  {
    var w := U32Bytes(x);
    SliceWithin(s, at, w, 0, 2);
    SliceWithin(s, at, w, 2, 4);
    assert w[0..2] == U16Bytes(x / 0x1_0000) && w[2..4] == U16Bytes(x % 0x1_0000);
    U16RoundTrip(x / 0x1_0000, s, at);
    U16RoundTrip(x % 0x1_0000, s, at + 2);
  }

  /** Writing the value read from two bytes reproduces those bytes. */
  lemma U16Inverse(s: seq<byte>, at: nat)
    requires at + 2 <= |s|
    ensures U16Bytes(ReadU16(s, at)) == s[at..at + 2]
  {
    var hi: int, lo: int := s[at], s[at + 1];
    assert (hi * 0x100 + lo) / 0x100 == hi;
    assert (hi * 0x100 + lo) % 0x100 == lo;
  }

  /** Bytes found inside a run of bytes that matches `w` are the matching piece of `w`. */
  lemma SliceWithin(s: seq<byte>, at: nat, w: seq<byte>, i: nat, j: nat)
    requires at + |w| <= |s| && s[at..at + |w|] == w
    requires i <= j <= |w|
    ensures s[at + i..at + j] == w[i..j]
  {
    forall k | 0 <= k < j - i ensures s[at + i..at + j][k] == w[i..j][k] {
      assert s[at + i + k] == s[at..at + |w|][i + k];
    }
  }

  /** A prefix of `s` followed by the slice after it is the longer prefix. */
  lemma PrefixThenSlice(s: seq<byte>, n: nat, m: nat)
    requires n + m <= |s|
    ensures s[..n + m] == s[..n] + s[n..n + m]
  {
  }

  /** The two halves of a concatenation. */
  lemma AppendParts(a: seq<byte>, b: seq<byte>)
    ensures (a + b)[..|a|] == a && (a + b)[|a|..] == b
  {
  }
}
