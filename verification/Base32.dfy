/**
Base 32 (libkc3/base32.c; section 6 of RFC 4648). Groups of five bytes and of eight digits.
The shifts and masks of C are `Shr` and `Low`, and `|` is `Or`.
 */
module Base32 {
  import opened Bytes
  import Utf8
  import opened Buffer
  import opened CodecIo

  const PAD: byte := 0x3D

  /** g_kc3_base32. */
  function Letter(v: nat): byte
    requires v < 32
  {
    if v < 26 then (0x41 + v) as byte else (0x32 + v - 26) as byte
  }

  /** The position of a character in the alphabet. */
  function DigitOf(c: nat): (v: Option<nat>)
    ensures v.Some? ==> v.value < 32
  {
    if 0x41 <= c <= 0x5A then Some(c - 0x41)
    else if 0x32 <= c <= 0x37 then Some(c - 0x32 + 26)
    else None
  }

  const ALPHABET: string := "ABCDEFGHIJKLMNOPQRSTUVWXYZ234567"

  /** The letters are those of the standard, in its order. */
  lemma LetterIs(v: nat)
    requires v < 32
    ensures Letter(v) as char == ALPHABET[v]
  {
    if v < 26 {
      assert ALPHABET[v] as int == 65 + v;
    } else {
      assert ALPHABET[v] as int == 24 + v;
    }
  }

  /** The alphabet is exactly what the decoder knows, each letter once; padding is not in it. */
  lemma LettersAreExact(v: nat, b: byte)
    requires v < 32
    ensures Letter(v) == b <==> DigitOf(b as int) == Some(v)
    ensures DigitOf(PAD as int) == None
  {
  }

  // ---------- joining bits ----------

  /** Bitwise or. */
  function Or(a: nat, b: nat): nat {
    if a == 0 then b
    else if b == 0 then a
    else Or(a / 2, b / 2) * 2 + if a % 2 == 1 || b % 2 == 1 then 1 else 0
  }

  /** A shift to the right by the bits of d. */
  function Shr(a: nat, d: nat): nat
    requires d > 0
  {
    a / d
  }

  /** The low bits, m being a power of two. */
  function Low(a: nat, m: nat): (r: nat)
    requires m > 0
    ensures r < m
  {
    a % m
  }

  function Pow2(k: nat): (p: nat)
    ensures p > 0
  {
    if k == 0 then 1 else 2 * Pow2(k - 1)
  }

  lemma OrDouble(a: nat, b: nat, c: nat)
    requires c < 2
    ensures Or(2 * a, 2 * b + c) == 2 * Or(a, b) + c
  {
  }

  lemma OrZero(a: nat)
    ensures Or(a, 0) == a
  {
  }

  /** Bits that do not overlap are added. */
  lemma {:induction false} OrAdds(h: nat, k: nat, l: nat)
    requires l < Pow2(k)
    ensures Or(h * Pow2(k), l) == h * Pow2(k) + l
  {
    hide Or;
    if k == 0 {
      OrZero(h);
    } else {
      var p := h * Pow2(k - 1);
      assert h * Pow2(k) == 2 * p;
      OrAdds(h, k - 1, l / 2);
      OrDouble(p, l / 2, l % 2);
    }
  }

  lemma Powers()
    ensures Pow2(1) == 2 && Pow2(2) == 4 && Pow2(3) == 8 && Pow2(4) == 16
    ensures Pow2(5) == 32 && Pow2(6) == 64 && Pow2(7) == 128
  {
  }

  // ---------- encoding ----------

  /** The eight digits of five bytes, as they are cut out. */
  function Digits(b0: nat, b1: nat, b2: nat, b3: nat, b4: nat): (d: seq<nat>)
    requires b0 < 256 && b1 < 256 && b2 < 256 && b3 < 256 && b4 < 256
    ensures |d| == 8 && forall k :: 0 <= k < 8 ==> d[k] < 32
  {
    [Low(Shr(b0, 8), 32), Low(Or(b0 * 4, Shr(b1, 64)), 32), Low(Shr(b1, 2), 32), Low(Or(b1 * 16, Shr(b2, 16)), 32),
     Low(Or(b2 * 2, Shr(b3, 128)), 32), Low(Shr(b3, 4), 32), Low(Or(b3 * 8, Shr(b4, 32)), 32), Low(b4, 32)]
  }

  /** The digits of `len` bytes as letters, then padding. */
  function GroupLetters(d: seq<nat>, len: nat): (r: seq<byte>)
    requires |d| == 8 && forall k :: 0 <= k < 8 ==> d[k] < 32
    ensures |r| == 8
  {
    [Letter(d[0]), Letter(d[1]),
     if len > 1 then Letter(d[2]) else PAD, if len > 1 then Letter(d[3]) else PAD,
     if len > 2 then Letter(d[4]) else PAD,
     if len > 3 then Letter(d[5]) else PAD, if len > 3 then Letter(d[6]) else PAD,
     if len > 4 then Letter(d[7]) else PAD]
  }

  function EncodeGroup(s: seq<byte>): (r: seq<byte>)
    ensures |r| == 8
  {
    GroupLetters(Digits(At(s, 0), At(s, 1), At(s, 2), At(s, 3), At(s, 4)), Least(5, |s|))
  }

  function Encoded(s: seq<byte>): (r: seq<byte>)
    ensures |r| == (|s| + 4) / 5 * 8
  {
    if s == [] then [] else EncodeGroup(s) + Encoded(s[Least(5, |s|)..])
  }

  lemma GroupPadding(s: seq<byte>, i: nat)
    requires s != [] && i < 8
    ensures EncodeGroup(s)[i] == '=' as byte <==> i >= if |s| >= 5 then 8 else [2, 4, 5, 7][|s| - 1]
  {
    hide Letter, Digits, At;
    NoLetterIsPadding();
  }

  /** The padding is made of equal signs, which are nowhere else: none, six, four, three or one. */
  lemma {:induction false} PaddingIs(s: seq<byte>, i: nat)
    requires i < |Encoded(s)|
    ensures Encoded(s)[i] == '=' as byte <==> i >= |Encoded(s)| - [0, 6, 4, 3, 1][|s| % 5]
    decreases |s|
  {
    hide EncodeGroup;
    if i >= 8 {
      var rest := s[5..];
      assert |rest| % 5 == |s| % 5 && Encoded(s)[i] == Encoded(rest)[i - 8];
      PaddingIs(rest, i - 8);
    } else {
      GroupPadding(s, i);
    }
  }

  lemma NoLetterIsPadding()
    ensures forall v: nat :: v < 32 ==> Letter(v) != '=' as byte
  {
  }

  /** A test vector of section 10 of RFC 4648: "fooba" is written "MZXW6YTB". */
  lemma FoobaIsWritten()
    ensures Encoded([102, 111, 111, 98, 97]) == [77, 90, 88, 87, 54, 89, 84, 66]
  {
    assert [102, 111, 111, 98, 97 as byte][5..] == [];
    FoobaDigits();
    hide Digits, Letter;
    LettersOfFooba();
  }

  lemma FoobaDigits()
    ensures Digits(102, 111, 111, 98, 97) == [12, 25, 23, 22, 30, 24, 19, 1]
  {
  }

  lemma LettersOfFooba()
    ensures Letter(12) == 77 && Letter(25) == 90 && Letter(23) == 88 && Letter(22) == 87
    ensures Letter(30) == 54 && Letter(24) == 89 && Letter(19) == 84 && Letter(1) == 66
  {
  }

  // ---------- decoding ----------

  /** The next place of a group: a digit, any other byte, or zero at the end. */
  datatype Place = Place(v: nat, counts: bool, rest: seq<byte>)

  function NextPlace(s: seq<byte>): (p: Place)
    ensures p.v < 256 && |p.rest| <= |s|
    ensures s != [] ==> |p.rest| < |s|
    ensures p.counts ==> s != []
  {
    var d := Utf8.Decode(s);
    if d.Char? && DigitOf(d.c).Some? then Place(DigitOf(d.c).value, true, s[d.size..])
    else if s != [] then Place(s[0] as int, false, s[1..])
    else Place(0, false, s)
  }

  /** Some places, how many of them are digits, and what is behind them. */
  datatype Places = Places(values: seq<nat>, len: nat, rest: seq<byte>)

  function ReadPlaces(s: seq<byte>, n: nat): (r: Places)
    ensures |r.values| == n && r.len <= n && |r.rest| <= |s|
    ensures n > 0 && s != [] ==> |r.rest| < |s|
    ensures |s| - |r.rest| >= r.len
  {
    if n == 0 then Places([], 0, s)
    else
      var p := NextPlace(s);
      var t := ReadPlaces(p.rest, n - 1);
      Places([p.v] + t.values, t.len + if p.counts then 1 else 0, t.rest)
  }

  /** The bytes of a group of which `len` places are digits. */
  function GroupBytes(v: seq<nat>, len: nat): (r: seq<byte>)
    requires |v| == 8
    ensures |r| <= 5
  {
    (if len > 1 then [Low(Or(v[0] * 8, Shr(v[1], 4)), 256) as byte] else [])
    + (if len > 3 then [Low(Or(Or(v[1] * 64, v[2] * 2), Shr(v[3], 16)), 256) as byte] else [])
    + (if len > 4 then [Low(Or(v[3] * 16, Shr(v[4], 2)), 256) as byte] else [])
    + (if len > 6 then [Low(Or(Or(v[4] * 128, v[5] * 4), Shr(v[6], 8)), 256) as byte] else [])
    + (if len > 7 then [Low(Or(v[6] * 32, v[7]), 256) as byte] else [])
  }

  function Decoded(s: seq<byte>): (r: seq<byte>)
    ensures 8 * |r| <= 5 * |s|
    decreases |s|
  {
    if s == [] then []
    else
      var p := ReadPlaces(s, 8);
      GroupBytes(p.values, p.len) + Decoded(p.rest)
  }

  // ---------- round trip: one group ----------

  lemma OrAddsTo(h: nat, k: nat, p: nat, l: nat)
    requires p == Pow2(k) && l < p
    ensures Or(h * p, l) == h * p + l
  {
    OrAdds(h, k, l);
  }

  lemma Low8(q: nat, x: nat)
    requires x < 256
    ensures Low(q * 256 + x, 256) == x
  {
  }

  lemma Low5(q: nat, x: nat)
    requires x < 32
    ensures Low(q * 32 + x, 32) == x
  {
  }

  // Each digit that is cut out of one or two bytes, the bytes given by their pieces.

  lemma CutFirst(p: nat, q: nat)
    requires p < 32 && q < 8
    ensures Low(Shr(p * 8 + q, 8), 32) == p
  {
  }

  lemma CutSecond(p: nat, q: nat, r: nat, x: nat)
    requires q < 8 && r < 4 && x < 64
    ensures Low(Or((p * 8 + q) * 4, Shr(r * 64 + x, 64)), 32) == q * 4 + r
  {
    Powers();
    assert Shr(r * 64 + x, 64) == r;
    OrAddsTo(p * 8 + q, 2, 4, r);
    hide *;
    assert (p * 8 + q) * 4 + r == p * 32 + (q * 4 + r);
    Low5(p, q * 4 + r);
  }

  lemma CutThird(r: nat, s: nat, t: nat)
    requires s < 32 && t < 2
    ensures Low(Shr(r * 64 + s * 2 + t, 2), 32) == s
  {
    assert Shr(r * 64 + s * 2 + t, 2) == r * 32 + s;
    Low5(r, s);
  }

  lemma CutFourth(x: nat, t: nat, u: nat, v: nat)
    requires t < 2 && u < 16 && v < 16
    ensures Low(Or((x * 2 + t) * 16, Shr(u * 16 + v, 16)), 32) == t * 16 + u
  {
    Powers();
    assert Shr(u * 16 + v, 16) == u;
    OrAddsTo(x * 2 + t, 4, 16, u);
    hide *;
    assert (x * 2 + t) * 16 + u == x * 32 + (t * 16 + u);
    Low5(x, t * 16 + u);
  }

  lemma CutFifth(u: nat, v: nat, w: nat, x: nat)
    requires v < 16 && w < 2 && x < 128
    ensures Low(Or((u * 16 + v) * 2, Shr(w * 128 + x, 128)), 32) == v * 2 + w
  {
    Powers();
    assert Shr(w * 128 + x, 128) == w;
    OrAddsTo(u * 16 + v, 1, 2, w);
    hide *;
    assert (u * 16 + v) * 2 + w == u * 32 + (v * 2 + w);
    Low5(u, v * 2 + w);
  }

  lemma CutSixth(w: nat, x: nat, y: nat)
    requires x < 32 && y < 4
    ensures Low(Shr(w * 128 + x * 4 + y, 4), 32) == x
  {
    assert Shr(w * 128 + x * 4 + y, 4) == w * 32 + x;
    Low5(w, x);
  }

  lemma CutSeventh(x: nat, y: nat, z: nat, e: nat)
    requires y < 4 && z < 8 && e < 32
    ensures Low(Or((x * 4 + y) * 8, Shr(z * 32 + e, 32)), 32) == y * 8 + z
  {
    Powers();
    assert Shr(z * 32 + e, 32) == z;
    OrAddsTo(x * 4 + y, 3, 8, z);
    hide *;
    assert (x * 4 + y) * 8 + z == x * 32 + (y * 8 + z);
    Low5(x, y * 8 + z);
  }

  // Each byte, cut in pieces and joined again from the digits that hold them.

  lemma JoinFirst(p: nat, q: nat, r: nat)
    requires p < 32 && q < 8 && r < 4
    ensures Low(Or(p * 8, Shr(q * 4 + r, 4)), 256) == p * 8 + q
  {
    Powers();
    assert Shr(q * 4 + r, 4) == q;
    OrAddsTo(p, 3, 8, q);
  }

  lemma Shr16(h: nat, l: nat)
    requires l < 16
    ensures Shr(h * 16 + l, 16) == h
  {
  }

  lemma JoinSecond(q: nat, r: nat, s: nat, t: nat, u: nat)
    requires q < 8 && r < 4 && s < 32 && t < 2 && u < 16
    ensures Low(Or(Or((q * 4 + r) * 64, s * 2), Shr(t * 16 + u, 16)), 256) == r * 64 + s * 2 + t
  {
    hide *;
    Powers();
    Shr16(t, u);
    OrAddsTo(q * 4 + r, 6, 64, s * 2);
    OrAddsTo((q * 4 + r) * 32 + s, 1, 2, t);
    assert (q * 4 + r) * 64 + s * 2 + t == q * 256 + (r * 64 + s * 2 + t);
    Low8(q, r * 64 + s * 2 + t);
  }

  lemma JoinThird(t: nat, u: nat, v: nat, w: nat)
    requires t < 2 && u < 16 && v < 16 && w < 2
    ensures Low(Or((t * 16 + u) * 16, Shr(v * 2 + w, 2)), 256) == u * 16 + v
  {
    Powers();
    assert Shr(v * 2 + w, 2) == v;
    OrAddsTo(t * 16 + u, 4, 16, v);
    hide *;
    assert (t * 16 + u) * 16 + v == t * 256 + (u * 16 + v);
    Low8(t, u * 16 + v);
  }

  lemma JoinFourth(v: nat, w: nat, x: nat, y: nat, z: nat)
    requires v < 16 && w < 2 && x < 32 && y < 4 && z < 8
    ensures Low(Or(Or((v * 2 + w) * 128, x * 4), Shr(y * 8 + z, 8)), 256) == w * 128 + x * 4 + y
  {
    Powers();
    assert Shr(y * 8 + z, 8) == y;
    OrAddsTo(v * 2 + w, 7, 128, x * 4);
    OrAddsTo((v * 2 + w) * 32 + x, 2, 4, y);
    hide *;
    assert (v * 2 + w) * 128 + x * 4 + y == v * 256 + (w * 128 + x * 4 + y);
    Low8(v, w * 128 + x * 4 + y);
  }

  lemma JoinFifth(y: nat, z: nat, e: nat)
    requires y < 4 && z < 8 && e < 32
    ensures Low(Or((y * 8 + z) * 32, e), 256) == z * 32 + e
  {
    hide *;
    Powers();
    OrAddsTo(y * 8 + z, 5, 32, e);
    assert (y * 8 + z) * 32 + e == y * 256 + (z * 32 + e);
    Low8(y, z * 32 + e);
  }

  /** Five bytes in pieces that no digit and no byte boundary cuts. */
  datatype Pieces = Pieces(p: nat, q: nat, r: nat, s: nat, t: nat, u: nat,
                           v: nat, w: nat, x: nat, y: nat, z: nat, e: nat)
  {
    predicate Small() {
      p < 32 && q < 8 && r < 4 && s < 32 && t < 2 && u < 16 && v < 16 && w < 2 && x < 32 && y < 4 && z < 8 && e < 32
    }

    function B0(): nat { p * 8 + q }
    function B1(): nat { r * 64 + s * 2 + t }
    function B2(): nat { u * 16 + v }
    function B3(): nat { w * 128 + x * 4 + y }
    function B4(): nat { z * 32 + e }

    predicate Are(b0: nat, b1: nat, b2: nat, b3: nat, b4: nat) {
      b0 == B0() && b1 == B1() && b2 == B2() && b3 == B3() && b4 == B4()
    }

    function Fives(): seq<nat> {
      [p, q * 4 + r, s, t * 16 + u, v * 2 + w, x, y * 8 + z, e]
    }
  }

  lemma PiecesOf(b0: nat, b1: nat, b2: nat, b3: nat, b4: nat) returns (c: Pieces)
    requires b0 < 256 && b1 < 256 && b2 < 256 && b3 < 256 && b4 < 256
    ensures c.Small() && c.Are(b0, b1, b2, b3, b4)
  {
    c := Pieces(b0 / 8, b0 % 8, b1 / 64, b1 % 64 / 2, b1 % 64 % 2, b2 / 16, b2 % 16,
                b3 / 128, b3 % 128 / 4, b3 % 128 % 4, b4 / 32, b4 % 32);
  }

  /** The digits that are cut out of the bytes are the fives. */
  lemma DigitsAreFives(c: Pieces, b0: nat, b1: nat, b2: nat, b3: nat, b4: nat)
    requires c.Small() && c.Are(b0, b1, b2, b3, b4)
    requires b0 < 256 && b1 < 256 && b2 < 256 && b3 < 256 && b4 < 256
    ensures Digits(b0, b1, b2, b3, b4) == c.Fives()
  {
    hide Or, Shr, Low;
    CutFirst(c.p, c.q);
    CutSecond(c.p, c.q, c.r, c.s * 2 + c.t);
    CutThird(c.r, c.s, c.t);
    CutFourth(c.r * 32 + c.s, c.t, c.u, c.v);
    CutFifth(c.u, c.v, c.w, c.x * 4 + c.y);
    CutSixth(c.w, c.x, c.y);
    CutSeventh(c.w * 32 + c.x, c.y, c.z, c.e);
    Low5(c.z, c.e);
    assert (c.r * 32 + c.s) * 2 + c.t == b1 && (c.w * 32 + c.x) * 4 + c.y == b3;
  }

  /** The bytes that are joined from the fives. */
  lemma FivesJoin(c: Pieces)
    requires c.Small()
    ensures var v := c.Fives();
            && Low(Or(v[0] * 8, Shr(v[1], 4)), 256) == c.B0()
            && Low(Or(Or(v[1] * 64, v[2] * 2), Shr(v[3], 16)), 256) == c.B1()
            && Low(Or(v[3] * 16, Shr(v[4], 2)), 256) == c.B2()
            && Low(Or(Or(v[4] * 128, v[5] * 4), Shr(v[6], 8)), 256) == c.B3()
            && Low(Or(v[6] * 32, v[7]), 256) == c.B4()
  {
    hide Or, Shr, Low;
    JoinFirst(c.p, c.q, c.r);
    JoinSecond(c.q, c.r, c.s, c.t, c.u);
    JoinThird(c.t, c.u, c.v, c.w);
    JoinFourth(c.v, c.w, c.x, c.y, c.z);
    JoinFifth(c.y, c.z, c.e);
  }

  /** Digits that a group of bytes takes. */
  function DigitCount(len: nat): nat
    requires 1 <= len <= 5
  {
    if len == 1 then 2 else if len == 2 then 4 else if len == 3 then 5 else if len == 4 then 7 else 8
  }

  /** A group is its digits, then padding. */
  lemma GroupIsDigits(d: seq<nat>, len: nat)
    requires |d| == 8 && (forall k :: 0 <= k < 8 ==> d[k] < 32) && 1 <= len <= 5
    ensures forall k :: 0 <= k < 8 ==> GroupLetters(d, len)[k] == if k < DigitCount(len) then Letter(d[k]) else PAD
  {
    hide Letter;
  }

  /** What a place that holds an ASCII byte is read as. */
  function PlaceValue(b: byte): nat {
    if DigitOf(b as int).Some? then DigitOf(b as int).value else b as int
  }

  function ValuesOf(e: seq<byte>): (v: seq<nat>)
    ensures |v| == |e|
    ensures forall k :: 0 <= k < |e| ==> v[k] == PlaceValue(e[k])
  {
    if e == [] then [] else [PlaceValue(e[0])] + ValuesOf(e[1..])
  }

  function CountOf(e: seq<byte>): nat {
    if e == [] then 0 else (if DigitOf(e[0] as int).Some? then 1 else 0) + CountOf(e[1..])
  }

  lemma AsciiPlace(b: byte, rest: seq<byte>)
    requires b < 0x80
    ensures NextPlace([b] + rest) == Place(PlaceValue(b), DigitOf(b as int).Some?, rest)
  {
    var s := [b] + rest;
    assert s[1..] == rest && s[0] == b;
    hide DigitOf;
  }

  lemma {:induction false} AsciiPlaces(e: seq<byte>, rest: seq<byte>)
    requires Utf8.Ascii(e)
    ensures ReadPlaces(e + rest, |e|) == Places(ValuesOf(e), CountOf(e), rest)
  {
    hide DigitOf, NextPlace;
    if e == [] {
      assert e + rest == rest;
    } else {
      assert e + rest == [e[0]] + (e[1..] + rest);
      AsciiPlace(e[0], e[1..] + rest);
      AsciiPlaces(e[1..], rest);
    }
  }

  /** Digits first, then padding: the digits are counted. */
  lemma {:induction false} CountDigits(e: seq<byte>, n: nat)
    requires n <= |e|
    requires forall k :: 0 <= k < n ==> DigitOf(e[k] as int).Some?
    requires forall k :: n <= k < |e| ==> e[k] == PAD
    ensures CountOf(e) == n
  {
    if e != [] {
      CountDigits(e[1..], if n > 0 then n - 1 else 0);
    }
  }

  lemma GroupRoundTrip(s: seq<byte>, rest: seq<byte>)
    requires s != []
    ensures var p := ReadPlaces(EncodeGroup(s) + rest, 8);
            p.rest == rest && GroupBytes(p.values, p.len) == s[..Least(5, |s|)]
  {
    var b0, b1, b2, b3, b4, len := At(s, 0), At(s, 1), At(s, 2), At(s, 3), At(s, 4), Least(5, |s|);
    assert s[..len] == [b0 as byte, b1 as byte, b2 as byte, b3 as byte, b4 as byte][..len];
    var d, e := Digits(b0, b1, b2, b3, b4), EncodeGroup(s);
    var c := PiecesOf(b0, b1, b2, b3, b4);
    DigitsAreFives(c, b0, b1, b2, b3, b4);
    hide Digits;
    GroupIsDigits(d, len);
    hide GroupLetters, At;
    GroupReads(e, d, DigitCount(len));
    AsciiPlaces(e, rest);
    hide EncodeGroup, GroupBytes, ReadPlaces, CountOf;
    DigitsGiveBytes(ValuesOf(e), c, b0, b1, b2, b3, b4, len);
  }

  lemma DigitsGiveBytes(values: seq<nat>, c: Pieces, b0: nat, b1: nat, b2: nat, b3: nat, b4: nat, len: nat)
    requires c.Small() && c.Are(b0, b1, b2, b3, b4) && 1 <= len <= 5 && |values| == 8
    requires b0 < 256 && b1 < 256 && b2 < 256 && b3 < 256 && b4 < 256
    requires forall k :: 0 <= k < DigitCount(len) ==> values[k] == c.Fives()[k]
    ensures GroupBytes(values, DigitCount(len)) == [b0 as byte, b1 as byte, b2 as byte, b3 as byte, b4 as byte][..len]
  {
    FivesJoin(c);
    hide Or, Shr, Low;
    assert |c.Fives()| == 8;
    hide Pieces.Fives, Pieces.B0, Pieces.B1, Pieces.B2, Pieces.B3, Pieces.B4;
  }

  /** Reading a group back gives its digits. */
  lemma GroupReads(e: seq<byte>, v: seq<nat>, n: nat)
    requires |e| == |v| == 8 && n <= 8 && forall k :: 0 <= k < 8 ==> v[k] < 32
    requires forall k :: 0 <= k < 8 ==> e[k] == if k < n then Letter(v[k]) else PAD
    ensures Utf8.Ascii(e) && CountOf(e) == n
    ensures forall k :: 0 <= k < n ==> ValuesOf(e)[k] == v[k]
  {
    forall k | 0 <= k < n
      ensures DigitOf(e[k] as int) == Some(v[k]) && e[k] < 0x80
    {
      LettersAreExact(v[k], e[k]);
    }
    hide DigitOf, Letter;
    CountDigits(e, n);
  }

  lemma LeastPositive(s: seq<byte>)
    requires s != []
    ensures Least(5, |s|) > 0
  {
  }

  lemma EncodedStep(s: seq<byte>)
    ensures s == [] ==> Encoded(s) == []
    ensures s != [] ==> Encoded(s) == EncodeGroup(s) + Encoded(s[Least(5, |s|)..])
  {
  }

  lemma DecodedStep(s: seq<byte>)
    ensures s == [] ==> Decoded(s) == []
    ensures s != [] ==>
              var p := ReadPlaces(s, 8); Decoded(s) == GroupBytes(p.values, p.len) + Decoded(p.rest)
  {
  }

  /** Decoding an encoding gives the bytes back. */
  lemma {:induction false} DecodedOfEncoded(s: seq<byte>)
    ensures Decoded(Encoded(s)) == s
  {
    hide Encoded, Decoded, EncodeGroup, GroupBytes, ReadPlaces, Least;
    EncodedStep(s);
    DecodedStep(Encoded(s));
    if s != [] {
      LeastPositive(s);
      var n := Least(5, |s|);
      GroupRoundTrip(s, Encoded(s[n..]));
      DecodedOfEncoded(s[n..]);
      assert s == s[..n] + s[n..];
    }
  }

  // ---------- the loops ----------

  /** Up to five bytes; what is missing is zero. */
  method ReadFive(input: Buf) returns (buf: seq<nat>, len: nat)
    requires input.Valid() && input.InMemory() && input.Rest() != []
    modifies input`rpos, input`wpos, input`saves, input`unread, input.data
    ensures input.Valid() && input.InMemory() && len == Least(5, |old(input.Rest())|)
    ensures input.Rest() == old(input.Rest())[len..]
    ensures |buf| == 5 && forall k :: 0 <= k < 5 ==> buf[k] == At(old(input.Rest()), k)
  {
    hide Chain, ReadMarks, Behind;
    ghost var s := input.Rest();
    input.MemoryRest();
    len := input.wpos - input.rpos;
    if len > 5 {
      len := 5;
    }
    var i := 0;
    buf := [];
    assert s[0..] == s;
    while i < len
      invariant 0 <= i <= len && |buf| == i && input.Valid() && input.InMemory() && input.Rest() == s[i..]
      invariant forall k :: 0 <= k < i ==> buf[k] == s[k] as int
    {
      var b := Next(input);
      assert b == s[i] && s[i..][1..] == s[i + 1..];
      buf := buf + [b as int];
      i := i + 1;
    }
    while i < 5
      invariant len <= i <= 5 && |buf| == i && input.Valid() && input.InMemory() && input.Rest() == s[len..]
      invariant forall k :: 0 <= k < i ==> buf[k] == At(s, k)
    {
      buf := buf + [0];
      i := i + 1;
    }
  }

  /** One round of base32_encode. */
  method EncodeRound(input: Buf, output: Buf)
    requires input != output && input.data != output.data
    requires input.Valid() && input.InMemory() && input.Rest() != []
    requires output.Valid() && output.sent == [] && output.wpos + 8 <= output.data.Length
    modifies input`rpos, input`wpos, input`saves, input`unread, input.data
    modifies output`wpos, output`saves, output`sent, output`failed, output`spilled, output.data
    ensures input.Valid() && input.InMemory() && output.Valid() && output.sent == []
    ensures input.Rest() == old(input.Rest())[Least(5, |old(input.Rest())|)..]
    ensures output.wpos == old(output.wpos) + 8
    ensures output.Window() == old(output.Window()) + EncodeGroup(old(input.Rest()))
  {
    hide Chain, ReadMarks, Behind, Digits, GroupLetters, At;
    var b, len := ReadFive(input);
    EmitAll(output, GroupLetters(Digits(b[0], b[1], b[2], b[3], b[4]), len));
  }

  /** base32_encode; the buffer it allocates is filled exactly. */
  method Encode(str: seq<byte>) returns (dest: seq<byte>)
    ensures dest == Encoded(str)
  {
    hide Chain, ReadMarks, Behind, EncodeGroup, Encoded, MinRpos, MinWpos, Buf.Marks, Buf.OutputMarks, Buf.Ample;
    var output := new Buf.Alloc((|str| + 4) / 5 * 8, NoCallback, NoCallback, []);
    var input := new Buf.Const(str);
    assert output.Window() == [];
    while input.rpos < input.wpos
      invariant fresh(input) && fresh(input.data) && fresh(output) && fresh(output.data)
      invariant input != output && input.data != output.data && output.data.Length == (|str| + 4) / 5 * 8
      invariant input.Valid() && input.InMemory() && output.Valid() && output.sent == []
      invariant output.Window() + Encoded(input.Rest()) == Encoded(str)
      decreases |input.Rest()|
    {
      input.MemoryRest();
      ghost var s, done := input.Rest(), output.Window();
      EncodedStep(s);
      Fits(done, Encoded(s), Encoded(str));
      EncodeRound(input, output);
      assert done + (EncodeGroup(s) + Encoded(input.Rest())) == output.Window() + Encoded(input.Rest());
    }
    input.MemoryRest();
    EncodedStep(input.Rest());
    assert output.Window() + [] == output.Window();
    Fits(output.Window(), [], Encoded(str));
    return output.data[..];
  }

  lemma Fits(done: seq<byte>, left: seq<byte>, whole: seq<byte>)
    requires done + left == whole
    ensures |done| + |left| == |whole|
  {
  }

  /** One place of base32_decode: buf_parse_digit, else buf_read_u8. */
  method ReadPlace(input: Buf) returns (v: nat, counts: bool)
    requires input.Valid() && input.InMemory()
    modifies input`rpos, input`wpos, input`saves, input`unread, input.data
    ensures input.Valid() && input.InMemory()
    ensures NextPlace(old(input.Rest())) == Place(v, counts, input.Rest())
  {
    hide Chain, ReadMarks, Behind, Utf8.Decode, DigitOf;
    v, counts := 0, false;
    var r, c := input.PeekCharacterUtf8();
    if r > 0 && DigitOf(c).Some? {
      v, counts := DigitOf(c).value, true;
      r, c := input.ReadCharacterUtf8();
    } else {
      var b;
      r, b := input.ReadU8();
      if r > 0 {
        v := b as int;
      }
    }
  }

  /** The inner loop of base32_decode. */
  method ReadGroup(input: Buf) returns (buf: seq<nat>, len: nat)
    requires input.Valid() && input.InMemory()
    modifies input`rpos, input`wpos, input`saves, input`unread, input.data
    ensures input.Valid() && input.InMemory()
    ensures ReadPlaces(old(input.Rest()), 8) == Places(buf, len, input.Rest())
  {
    ghost var s := input.Rest();
    NothingRead(s, 8);
    hide *;
    buf, len := [], 0;
    var i := 0;
    while i < 8
      invariant 0 <= i <= 8 && input.Valid() && input.InMemory()
      invariant ReadPlaces(s, 8) == Join(buf, len, ReadPlaces(input.Rest(), 8 - i))
    {
      PlacesStep(buf, len, input.Rest(), 8 - i);
      var v, counts := ReadPlace(input);
      buf, len, i := buf + [v], if counts then len + 1 else len, i + 1;
    }
    AllRead(buf, len, input.Rest());
  }

  /** Places behind those already read. */
  function Join(buf: seq<nat>, len: nat, t: Places): Places {
    Places(buf + t.values, len + t.len, t.rest)
  }

  lemma NothingRead(s: seq<byte>, n: nat)
    ensures Join([], 0, ReadPlaces(s, n)) == ReadPlaces(s, n)
  {
    assert [] + ReadPlaces(s, n).values == ReadPlaces(s, n).values;
  }

  lemma AllRead(buf: seq<nat>, len: nat, s: seq<byte>)
    ensures Join(buf, len, ReadPlaces(s, 0)) == Places(buf, len, s)
  {
    assert buf + [] == buf;
  }

  lemma PlacesStep(buf: seq<nat>, len: nat, s: seq<byte>, n: nat)
    requires n > 0
    ensures var p := NextPlace(s);
            Join(buf, len, ReadPlaces(s, n)) ==
            Join(buf + [p.v], if p.counts then len + 1 else len, ReadPlaces(p.rest, n - 1))
  {
    hide NextPlace;
    var p := NextPlace(s);
    var t := ReadPlaces(p.rest, n - 1);
    assert buf + ([p.v] + t.values) == buf + [p.v] + t.values;
  }

  /** base32_decode; the buffer it allocates is always large enough. */
  method Decode(str: seq<byte>) returns (dest: seq<byte>)
    ensures dest == Decoded(str)
  {
    hide Chain, ReadMarks, Behind, GroupBytes, ReadPlaces, Decoded, Buf.Rest;
    var output := new Buf.Alloc(|str| * 5 / 8, NoCallback, NoCallback, []);
    var input := new Buf.Const(str);
    assert output.Window() == [];
    while input.rpos < input.wpos
      invariant fresh(input) && fresh(input.data) && fresh(output) && fresh(output.data)
      invariant input != output && input.data != output.data && output.data.Length == |str| * 5 / 8
      invariant input.Valid() && input.InMemory() && output.Valid() && output.sent == []
      invariant output.Window() + Decoded(input.Rest()) == Decoded(str)
      decreases |input.Rest()|
    {
      input.MemoryRest();
      ghost var s, done := input.Rest(), output.Window();
      DecodedStep(s);
      Fits(done, Decoded(s), Decoded(str));
      var buf, len := ReadGroup(input);
      EmitAll(output, GroupBytes(buf, len));
      assert done + (GroupBytes(buf, len) + Decoded(input.Rest())) == output.Window() + Decoded(input.Rest());
    }
    input.MemoryRest();
    DecodedStep(input.Rest());
    assert output.Window() + [] == output.Window();
    return output.data[..output.wpos];
  }
}
