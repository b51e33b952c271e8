/**
The lenient UTF-8 reader and the writer of libkc3 (libkc3/buf.c, buf_peek_character_utf8;
libkc3/character.c, character_utf8). The reader looks only at the shape of the bytes: it
accepts overlong forms and surrogates; the writer emits the shortest form.
 */
module Utf8 {
  import opened Bytes

  /** A character, bytes missing at the end, or bytes that cannot start a character. */
  datatype Decoded = Char(c: nat, size: nat) | Short | Bad

  predicate IsContinuation(b: byte) {
    0x80 <= b < 0xC0
  }

  /** Bytes announced by a first byte; 0 when it cannot start a character. */
  function Announced(b: byte): nat {
    if b < 0x80 then 1
    else if 0xC0 <= b < 0xE0 then 2
    else if 0xE0 <= b < 0xF0 then 3
    else if 0xF0 <= b < 0xF8 then 4
    else 0
  }

  /** The number that n bytes of the right shape stand for. */
  function Value(s: seq<byte>, n: nat): nat
    requires 1 <= n <= 4 && n <= |s|
  {
    if n == 1 then s[0] as int
    else if n == 2 then s[0] as int % 32 * 64 + s[1] as int % 64
    else if n == 3 then (s[0] as int % 16 * 64 + s[1] as int % 64) * 64 + s[2] as int % 64
    else ((s[0] as int % 8 * 64 + s[1] as int % 64) * 64 + s[2] as int % 64) * 64 + s[3] as int % 64
  }

  /** The first character of a stream, as buf_peek_character_utf8 reads it. */
  function Decode(s: seq<byte>): (d: Decoded)
    ensures d.Char? ==> 1 <= d.size <= 4 && d.size <= |s| && d.size == Announced(s[0])
    ensures d.Char? ==> forall i :: 1 <= i < d.size ==> IsContinuation(s[i])
  {
    if s == [] then Short else
    var n := Announced(s[0]);
    if n == 0 then Bad
    else if |s| < n then Short
    else if forall i :: 1 <= i < n ==> IsContinuation(s[i]) then Char(Value(s, n), n)
    else Bad
  }

  /** The value of a character depends on its own bytes only. */
  lemma ValueOfFront(w: seq<byte>, s: seq<byte>)
    requires 1 <= |w| <= 4 && w <= s
    ensures Value(w, |w|) == Value(s, |w|)
  {
    assert forall i :: 0 <= i < |w| ==> w[i] == s[i];
  }

  /** character_utf8_size, with 0 for a number that is not written. */
  function EncodedSize(c: nat): nat {
    if c < 0x80 then 1 else if c < 0x800 then 2 else if c < 0x10000 then 3 else if c < 0x110000 then 4 else 0
  }

  /** character_utf8. */
  function Encode(c: nat): (s: seq<byte>)
    requires c < 0x110000
    ensures |s| == EncodedSize(c)
  {
    if c < 0x80 then [c as byte]
    else if c < 0x800 then [(0xC0 + c / 64) as byte, (0x80 + c % 64) as byte]
    else if c < 0x10000 then [(0xE0 + c / 4096) as byte, (0x80 + c / 64 % 64) as byte, (0x80 + c % 64) as byte]
    else [(0xF0 + c / 262144) as byte, (0x80 + c / 4096 % 64) as byte,
          (0x80 + c / 64 % 64) as byte, (0x80 + c % 64) as byte]
  }

  /** A number and its base-64 digits determine each other. */
  lemma Digits2(h: nat, l: nat)
    requires l < 64
    ensures (h * 64 + l) / 64 == h && (h * 64 + l) % 64 == l
  {
  }

  lemma Digits3(h: nat, m: nat, l: nat)
    requires m < 64 && l < 64
    ensures var c := (h * 64 + m) * 64 + l; c / 4096 == h && c / 64 % 64 == m && c % 64 == l
  {
    Digits2(h * 64 + m, l);
    Digits2(h, m);
    var c := (h * 64 + m) * 64 + l;
    assert c == h * 4096 + (m * 64 + l) && m * 64 + l < 4096;
  }

  lemma Digits4(g: nat, h: nat, m: nat, l: nat)
    requires h < 64 && m < 64 && l < 64
    ensures var c := ((g * 64 + h) * 64 + m) * 64 + l;
            c / 262144 == g && c / 4096 % 64 == h && c / 64 % 64 == m && c % 64 == l
  {
    Digits3(g * 64 + h, m, l);
    Digits2(g, h);
    var c := ((g * 64 + h) * 64 + m) * 64 + l;
    assert c == g * 262144 + (h * 4096 + m * 64 + l) && h * 4096 + m * 64 + l < 262144;
  }

  /** The encoding of a number given by its digits, for each length. */
  lemma Encode2(h: nat, l: nat)
    requires 2 <= h < 32 && l < 64
    ensures Encode(h * 64 + l) == [(0xC0 + h) as byte, (0x80 + l) as byte]
  {
    Digits2(h, l);
  }

  lemma Encode3(h: nat, m: nat, l: nat)
    requires h < 16 && m < 64 && l < 64 && (h * 64 + m) * 64 + l >= 0x800
    ensures Encode((h * 64 + m) * 64 + l) == [(0xE0 + h) as byte, (0x80 + m) as byte, (0x80 + l) as byte]
  {
    Digits3(h, m, l);
  }

  lemma Encode4(g: nat, h: nat, m: nat, l: nat)
    requires h < 64 && m < 64 && l < 64 && 0x10000 <= ((g * 64 + h) * 64 + m) * 64 + l < 0x110000
    ensures g < 8
    ensures Encode(((g * 64 + h) * 64 + m) * 64 + l) ==
            [(0xF0 + g) as byte, (0x80 + h) as byte, (0x80 + m) as byte, (0x80 + l) as byte]
  {
    Digits4(g, h, m, l);
  }

  /** Every number below 2^24 has such digits. */
  lemma DigitsOf(c: nat) returns (g: nat, h: nat, m: nat, l: nat)
    requires c < 0x110000
    ensures h < 64 && m < 64 && l < 64 && c == ((g * 64 + h) * 64 + m) * 64 + l
    ensures c < 0x10000 ==> g == 0 && h < 16
    ensures c < 0x800 ==> h == 0 && m < 32
  {
    l := c % 64;
    var c1 := c / 64;
    m := c1 % 64;
    var c2 := c1 / 64;
    h := c2 % 64;
    g := c2 / 64;
  }

  /** The bytes of each length are read back as the digits they carry. */
  ghost predicate Carries(s: seq<byte>, c: nat) {
    && 1 <= |s| <= 4 && Announced(s[0]) == |s| && Value(s, |s|) == c
    && forall i :: 1 <= i < |s| ==> IsContinuation(s[i])
  }

  lemma Carries2(h: nat, l: nat)
    requires h < 32 && l < 64
    ensures Carries([(0xC0 + h) as byte, (0x80 + l) as byte], h * 64 + l)
  {
  }

  lemma Carries3(h: nat, m: nat, l: nat)
    requires h < 16 && m < 64 && l < 64
    ensures Carries([(0xE0 + h) as byte, (0x80 + m) as byte, (0x80 + l) as byte], (h * 64 + m) * 64 + l)
  {
  }

  lemma Carries4(g: nat, h: nat, m: nat, l: nat)
    requires g < 8 && h < 64 && m < 64 && l < 64
    ensures Carries([(0xF0 + g) as byte, (0x80 + h) as byte, (0x80 + m) as byte, (0x80 + l) as byte],
                    ((g * 64 + h) * 64 + m) * 64 + l)
  {
  }

  lemma EncodeCarries(c: nat)
    requires c < 0x110000
    ensures Carries(Encode(c), c)
  {
    if c >= 0x80 {
      var g, h, m, l := DigitsOf(c);
      hide Carries;
      if c < 0x800 {
        Encode2(m, l);
        Carries2(m, l);
      } else if c < 0x10000 {
        Encode3(h, m, l);
        Carries3(h, m, l);
      } else {
        Encode4(g, h, m, l);
        Carries4(g, h, m, l);
      }
    }
  }

  /** Only the announced bytes matter. */
  lemma DecodeOfFront(s: seq<byte>, rest: seq<byte>)
    requires 1 <= |s| <= 4 && Carries(s, Value(s, |s|))
    ensures Decode(s + rest) == Char(Value(s, |s|), |s|)
  {
    var t := s + rest;
    assert forall i :: 0 <= i < |s| ==> t[i] == s[i];
  }

  /** Reading back what was written gives the character, whatever follows. */
  lemma DecodeOfEncoded(c: nat, rest: seq<byte>)
    requires c < 0x110000
    ensures Decode(Encode(c) + rest) == Char(c, EncodedSize(c))
  {
    EncodeCarries(c);
    DecodeOfFront(Encode(c), rest);
    hide Encode, Decode;
  }

  lemma BytesAreDigits(s: seq<byte>)
    requires 2 <= |s| <= 4 && Announced(s[0]) == |s|
    requires forall i :: 1 <= i < |s| ==> IsContinuation(s[i])
    ensures |s| == 2 ==> s == [(0xC0 + s[0] as int % 32) as byte, (0x80 + s[1] as int % 64) as byte]
    ensures |s| == 3 ==> s == [(0xE0 + s[0] as int % 16) as byte, (0x80 + s[1] as int % 64) as byte,
                               (0x80 + s[2] as int % 64) as byte]
    ensures |s| == 4 ==> s == [(0xF0 + s[0] as int % 8) as byte, (0x80 + s[1] as int % 64) as byte,
                               (0x80 + s[2] as int % 64) as byte, (0x80 + s[3] as int % 64) as byte]
  {
  }

  /** The bytes behind a value, when the value is not too small for their number. */
  lemma EncodeOfValue(s: seq<byte>, c: nat)
    requires Carries(s, c) && c < 0x110000
    ensures EncodedSize(c) <= |s|
    ensures EncodedSize(c) == |s| ==> Encode(c) == s
  {
    if |s| > 1 {
      BytesAreDigits(s);
      hide Encode;
      if EncodedSize(c) == |s| {
        if |s| == 2 {
          Encode2(s[0] as int % 32, s[1] as int % 64);
        } else if |s| == 3 {
          Encode3(s[0] as int % 16, s[1] as int % 64, s[2] as int % 64);
        } else {
          Encode4(s[0] as int % 8, s[1] as int % 64, s[2] as int % 64, s[3] as int % 64);
        }
      }
    }
  }

  /** A decoded form is never shorter than the written one, and equal to it iff it is the shortest. */
  lemma DecodedIsNotShorter(s: seq<byte>)
    requires Decode(s).Char? && Decode(s).c < 0x110000
    ensures EncodedSize(Decode(s).c) <= Decode(s).size
    ensures EncodedSize(Decode(s).c) == Decode(s).size <==> Encode(Decode(s).c) == s[..Decode(s).size]
  {
    var n := Decode(s).size;
    var front := s[..n];
    assert Value(front, n) == Value(s, n);
    hide Value, Encode;
    EncodeOfValue(front, Decode(s).c);
  }

  // ---------- skipping a number of bytes ----------

  /** What one round of the skipping loop of buf_ignore takes: a character, else a byte. */
  function SkipStep(s: seq<byte>): nat {
    if Decode(s).Char? then Decode(s).size else 1
  }

  /** Where the skipping loop stops. */
  function SkipEnd(s: seq<byte>, i: nat, size: nat): (end: nat)
    requires i <= |s| && size <= |s|
    ensures i <= end <= |s| && size <= end
    decreases |s| - i
  {
    if i >= size then i
    else SkipEnd(s, i + SkipStep(s[i..]), size)
  }

  /** No character begins in the last three skipped bytes and ends behind them. */
  predicate Aligned(s: seq<byte>, size: nat)
    requires size <= |s|
  {
    forall p :: 0 <= p < size && size - 3 <= p ==> p + SkipStep(s[p..]) <= size
  }

  lemma SkipOneStep(s: seq<byte>, i: nat, size: nat)
    requires i < size <= |s|
    ensures SkipEnd(s, i, size) == SkipEnd(s, i + SkipStep(s[i..]), size)
    ensures Aligned(s, size) ==> i + SkipStep(s[i..]) <= size
  {
    hide Decode;
  }

  lemma {:induction false} SkipReaches(s: seq<byte>, i: nat, p: nat, size: nat)
    requires i <= p < size <= |s| && p + SkipStep(s[p..]) > size
    ensures SkipEnd(s, i, size) == p + SkipStep(s[p..])
    decreases p - i
  {
    var n := SkipStep(s[i..]);
    assert s[p..][0] == s[p] && Announced(s[p]) >= 2;
    if i < p {
      assert s[i..][p - i] == s[p];
      assert i + n <= p;
      SkipReaches(s, i + n, p, size);
    }
  }

  lemma {:induction false} SkipStaysAligned(s: seq<byte>, i: nat, size: nat)
    requires i <= size <= |s| && Aligned(s, size)
    ensures SkipEnd(s, i, size) == size
    decreases size - i
  {
    if i < size {
      SkipStaysAligned(s, i + SkipStep(s[i..]), size);
    }
  }

  /**
  Skipping stops exactly at the requested size iff no character straddles it; a character
  that does is swallowed whole.
   */
  lemma SkipIsExactIffAligned(s: seq<byte>, size: nat)
    requires size <= |s|
    ensures SkipEnd(s, 0, size) == size <==> Aligned(s, size)
  {
    hide SkipEnd, SkipStep;
    if Aligned(s, size) {
      SkipStaysAligned(s, 0, size);
    } else {
      var p :| 0 <= p < size && size - 3 <= p && p + SkipStep(s[p..]) > size;
      SkipReaches(s, 0, p, size);
    }
  }

  /** Skipping one byte of the two-byte character U+00E9 takes both bytes. */
  lemma SkipCanOvershoot()
    ensures SkipEnd([0xC3, 0xA9], 0, 1) == 2
  {
    assert [0xC3, 0xA9][0..] == [0xC3, 0xA9];
    assert SkipEnd([0xC3, 0xA9], 2, 1) == 2;
  }

  predicate Ascii(s: seq<byte>) {
    forall i :: 0 <= i < |s| ==> s[i] < 0x80
  }

  lemma AsciiIsAligned(s: seq<byte>, size: nat)
    requires size <= |s| && Ascii(s[..size])
    ensures Aligned(s, size)
  {
    forall p | 0 <= p < size && size - 3 <= p ensures p + SkipStep(s[p..]) <= size {
      assert s[p..][0] == s[..size][p];
    }
  }
}
