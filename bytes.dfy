/** Bytes, fixed-width machine integers and big-endian decoding. */
module Bytes {

  type byte = x: int | 0 <= x < 256

  /** Exclusive upper bound of `u32`. */
  const U32_LIMIT: nat := 0x1_0000_0000
  /** Exclusive upper bound of `usize` on the 64-bit targets the system runs on. */
  const USIZE_LIMIT: nat := 0x1_0000_0000_0000_0000

  function Pow256(n: nat): (r: nat)
    ensures r > 0
  {
    if n == 0 then 1 else 256 * Pow256(n - 1)
  }

  /** The unsigned integer whose big-endian encoding is `s`. */
  function BeValue(s: seq<byte>): nat
  {
    if s == [] then 0 else BeValue(s[..|s| - 1]) * 256 + s[|s| - 1]
  }

  /** The `n`-byte big-endian encoding of `x` (its low `n` bytes). */
  function BeBytes(x: nat, n: nat): (r: seq<byte>)
    ensures |r| == n
  {
    if n == 0 then [] else BeBytes(x / 256, n - 1) + [x % 256]
  }

  /** `n` zero bytes. */
  function Zeros(n: nat): (r: seq<byte>)
    ensures |r| == n
    ensures forall i :: 0 <= i < n ==> r[i] == 0
  {
    if n == 0 then [] else Zeros(n - 1) + [0]
  }

  lemma {:induction false} BeValueBound(s: seq<byte>)
    ensures BeValue(s) < Pow256(|s|)
  {
    if s != [] {
      BeValueBound(s[..|s| - 1]);
    }
  }

  lemma {:induction false} BeValueAppend(a: seq<byte>, b: seq<byte>)
    ensures BeValue(a + b) == BeValue(a) * Pow256(|b|) + BeValue(b)
  {
    if b == [] {
      assert a + b == a;
    } else {
      var b' := b[..|b| - 1];
      assert (a + b)[..|a + b| - 1] == a + b';
      BeValueAppend(a, b');
      calc {
        BeValue(a + b);
        BeValue(a + b') * 256 + b[|b| - 1];
        (BeValue(a) * Pow256(|b'|) + BeValue(b')) * 256 + b[|b| - 1];
        BeValue(a) * (Pow256(|b'|) * 256) + (BeValue(b') * 256 + b[|b| - 1]);
        BeValue(a) * Pow256(|b|) + BeValue(b);
      }
    }
  }

  lemma {:induction false} BeValueOfZeros(n: nat)
    ensures BeValue(Zeros(n)) == 0
  {
    if n > 0 {
      assert Zeros(n)[..n - 1] == Zeros(n - 1);
      BeValueOfZeros(n - 1);
    }
  }

  /** Leading zero bytes do not change a big-endian value. */
  lemma LeadingZeros(n: nat, s: seq<byte>)
    ensures BeValue(Zeros(n) + s) == BeValue(s)
  {
    BeValueAppend(Zeros(n), s);
    BeValueOfZeros(n);
  }

  /** Encoding then decoding gives the value back when it fits. */
  lemma {:induction false} BeRoundTrip(x: nat, n: nat)
    requires x < Pow256(n)
    ensures BeValue(BeBytes(x, n)) == x
  {
    if n > 0 {
      var r := BeBytes(x, n);
      assert r[..n - 1] == BeBytes(x / 256, n - 1);
      BeRoundTrip(x / 256, n - 1);
    }
  }

  /** Decoding then encoding gives the bytes back. */
  lemma {:induction false} BeBytesOfValue(s: seq<byte>)
    ensures BeBytes(BeValue(s), |s|) == s
  {
    if s != [] {
      var s' := s[..|s| - 1];
      BeBytesOfValue(s');
      assert (BeValue(s') * 256 + s[|s| - 1]) / 256 == BeValue(s');
      assert (BeValue(s') * 256 + s[|s| - 1]) % 256 == s[|s| - 1];
      assert s == s' + [s[|s| - 1]];
    }
  }

  /** The value of a 4-byte big-endian word, digit by digit. */
  lemma WordValue(s: seq<byte>)
    requires |s| == 4
    ensures BeValue(s) == (s[0] as int) * 0x100_0000 + (s[1] as int) * 0x1_0000 + (s[2] as int) * 0x100 + s[3] as int
  {
    var s3, s2, s1 := s[..3], s[..2], s[..1];
    assert s3[..2] == s2 && s2[..1] == s1 && s1[..0] == [];
    assert BeValue(s1) == s[0];
    assert BeValue(s2) == BeValue(s1) * 256 + s[1];
    assert BeValue(s3) == BeValue(s2) * 256 + s[2];
    assert BeValue(s) == BeValue(s3) * 256 + s[3];
  }

  /** The value of a 4-byte big-endian word fits in `u32`. */
  lemma WordBound(s: seq<byte>)
    requires |s| == 4
    ensures BeValue(s) < U32_LIMIT
  {
    BeValueBound(s);
    assert Pow256(4) == U32_LIMIT;
  }

  /** Consecutive 4-byte big-endian words. */
  function BeWords(ws: seq<nat>): (r: seq<byte>)
    ensures |r| == 4 * |ws|
  {
    if ws == [] then [] else BeBytes(ws[0], 4) + BeWords(ws[1..])
  }

  /** The `i`-th word of an encoding sits at bytes `4*i .. 4*i+4`. */
  lemma {:induction false} BeWordsAt(ws: seq<nat>, i: nat, rest: seq<byte>)
    requires i < |ws|
    ensures (BeWords(ws) + rest)[4 * i..4 * i + 4] == BeBytes(ws[i], 4)
  {
    var e := BeWords(ws) + rest;
    assert e == BeBytes(ws[0], 4) + (BeWords(ws[1..]) + rest);
    if i > 0 {
      BeWordsAt(ws[1..], i - 1, rest);
      assert e[4 * i..4 * i + 4] == (BeWords(ws[1..]) + rest)[4 * (i - 1)..4 * (i - 1) + 4];
    }
  }

  /** The bytes of an ASCII text, as a byte-string literal `b"..."` holds them. */
  function Ascii(s: string): (r: seq<byte>)
    ensures |r| == |s|
  {
    seq(|s|, i requires 0 <= i < |s| => (s[i] as int) % 256)
  }
}
