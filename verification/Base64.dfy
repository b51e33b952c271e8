/**
Base 64 (libkc3/base64.c; section 4 of RFC 4648). Groups of three bytes and of four
letters; the decoder skips over anything that is not a letter of the alphabet.
 */
module Base64 {
  import opened Bytes
  import opened Buffer
  import opened CodecIo

  const PAD: byte := 0x3D
  const U32_MAX := 0xFFFF_FFFF

  /** g_base64. */
  function Letter(v: nat): byte
    requires v < 64
  {
    if v < 26 then (0x41 + v) as byte
    else if v < 52 then (0x61 + v - 26) as byte
    else if v < 62 then (0x30 + v - 52) as byte
    else if v == 62 then 0x2B
    else 0x2F
  }

  /** base64_decode_char. */
  function LetterValue(b: byte): (v: Option<nat>)
    ensures v.Some? ==> v.value < 64
  {
    if 0x41 <= b <= 0x5A then Some(b as int - 0x41)
    else if 0x61 <= b <= 0x7A then Some(b as int - 0x61 + 26)
    else if 0x30 <= b <= 0x39 then Some(b as int - 0x30 + 52)
    else if b == 0x2B then Some(62)
    else if b == 0x2F then Some(63)
    else None
  }

  // The letters are those of the standard, in its order.

  lemma UpperLetterIs(v: nat)
    requires v < 26
    ensures Letter(v) as char == "ABCDEFGHIJKLMNOPQRSTUVWXYZ"[v]
  {
    assert "ABCDEFGHIJKLMNOPQRSTUVWXYZ"[v] as int == 65 + v;
  }

  lemma LowerLetterIs(v: nat)
    requires v < 26
    ensures Letter(26 + v) as char == "abcdefghijklmnopqrstuvwxyz"[v]
  {
    assert "abcdefghijklmnopqrstuvwxyz"[v] as int == 97 + v;
  }

  lemma OtherLetterIs(v: nat)
    requires v < 12
    ensures Letter(52 + v) as char == "0123456789+/"[v]
  {
    if v < 10 { assert "0123456789+/"[v] as int == 48 + v; }
  }

  /** The alphabet is exactly what the decoder knows, each letter once; padding is not in it. */
  lemma LettersAreExact(v: nat, b: byte)
    requires v < 64
    ensures Letter(v) == b <==> LetterValue(b) == Some(v)
    ensures LetterValue(PAD) == None
  {
  }

  /** The four letters of the first three bytes. */
  function EncodeGroup(s: seq<byte>): (r: seq<byte>)
    requires s != []
    ensures |r| == 4
  {
    var n := At(s, 0) * 65536 + At(s, 1) * 256 + At(s, 2);
    [Letter(n / 262144 % 64), Letter(n / 4096 % 64),
     if |s| > 1 then Letter(n / 64 % 64) else PAD,
     if |s| > 2 then Letter(n % 64) else PAD]
  }

  function Encoded(s: seq<byte>): (r: seq<byte>)
    ensures |r| == (|s| + 2) / 3 * 4
  {
    if s == [] then [] else EncodeGroup(s) + Encoded(s[Least(3, |s|)..])
  }

  lemma GroupPadding(s: seq<byte>, i: nat)
    requires s != [] && i < 4
    ensures EncodeGroup(s)[i] == '=' as byte <==> i > |s|
  {
    NoLetterIsPadding();
    hide Letter, At;
  }

  /** The padding is made of equal signs, which are nowhere else: none, two or one of them. */
  lemma {:induction false} PaddingIs(s: seq<byte>, i: nat)
    requires i < |Encoded(s)|
    ensures Encoded(s)[i] == '=' as byte <==> i >= |Encoded(s)| - [0, 2, 1][|s| % 3]
    decreases |s|
  {
    hide EncodeGroup;
    if i >= 4 {
      var rest := s[3..];
      assert |rest| % 3 == |s| % 3 && Encoded(s)[i] == Encoded(rest)[i - 4];
      PaddingIs(rest, i - 4);
    } else {
      GroupPadding(s, i);
    }
  }

  lemma NoLetterIsPadding()
    ensures forall v: nat :: v < 64 ==> Letter(v) != '=' as byte
  {
  }

  /** A test vector of section 10 of RFC 4648: "fooba" is written "Zm9vYmE=". */
  lemma FoobaIsWritten()
    ensures Encoded([102, 111, 111, 98, 97]) == [90, 109, 57, 118, 89, 109, 69, 61]
  {
    assert [102, 111, 111, 98, 97 as byte][3..] == [98, 97];
    assert [98, 97 as byte][2..] == [];
    assert EncodeGroup([102, 111, 111, 98, 97]) == [90, 109, 57, 118];
    assert EncodeGroup([98, 97]) == [89, 109, 69, 61];
  }

  /** The value of a letter of a group, zero for anything else. */
  function Code(s: seq<byte>, i: nat): (v: nat)
    ensures v < 64
  {
    if i < |s| && LetterValue(s[i]).Some? then LetterValue(s[i]).value else 0
  }

  /** The values of the first bytes. */
  function Codes(s: seq<byte>, n: nat): (r: seq<nat>)
    ensures |r| == n
  {
    if n == 0 then [] else Codes(s, n - 1) + [Code(s, n - 1)]
  }

  lemma FourCodes(s: seq<byte>)
    ensures Codes(s, 4) == [Code(s, 0), Code(s, 1), Code(s, 2), Code(s, 3)]
  {
    hide Code;
    assert Codes(s, 1) == [Code(s, 0)];
    assert Codes(s, 2) == [Code(s, 0), Code(s, 1)];
    assert Codes(s, 3) == [Code(s, 0), Code(s, 1), Code(s, 2)];
  }

  /** How many of the first bytes are letters. */
  function Letters(s: seq<byte>, n: nat): nat {
    if n == 0 then 0
    else Letters(s, n - 1) + if n - 1 < |s| && LetterValue(s[n - 1]).Some? then 1 else 0
  }

  /** The three bytes of a group; the bits that are joined never overlap. */
  function First(a: nat, b: nat): byte
    requires a < 64 && b < 64
  {
    (a * 4 + b / 16) as byte
  }

  function Second(a: nat, b: nat): byte
    requires a < 64 && b < 64
  {
    (a * 16 % 256 + b / 4) as byte
  }

  function Third(a: nat, b: nat): byte
    requires a < 64 && b < 64
  {
    (a * 64 % 256 + b) as byte
  }

  /** The bytes of a group of which `len` characters are letters. */
  function GroupBytes(a: nat, b: nat, c: nat, d: nat, len: nat): (r: seq<byte>)
    requires a < 64 && b < 64 && c < 64 && d < 64
    ensures |r| <= 3
  {
    (if len > 1 then [First(a, b)] else [])
    + (if len > 2 then [Second(b, c)] else [])
    + (if len > 3 then [Third(c, d)] else [])
  }

  /** The bytes of the first four characters. */
  function DecodeGroup(s: seq<byte>): (r: seq<byte>)
    ensures |r| <= 3
  {
    GroupBytes(Code(s, 0), Code(s, 1), Code(s, 2), Code(s, 3), Letters(s, 4))
  }

  function Decoded(s: seq<byte>): (r: seq<byte>)
    ensures 4 * |r| <= 3 * |s| + 9
  {
    if s == [] then [] else DecodeGroup(s) + Decoded(s[Least(4, |s|)..])
  }

  // ---------- round trip ----------

  /** The bits of three bytes, cut in four. */
  lemma CutFirst(a1: nat, a0: nat, b: nat, c: nat)
    requires a1 < 64 && a0 < 4 && b < 256 && c < 256
    ensures ((a1 * 4 + a0) * 65536 + b * 256 + c) / 262144 % 64 == a1
  {
    assert (a1 * 4 + a0) * 65536 + b * 256 + c == a1 * 262144 + (a0 * 65536 + b * 256 + c);
  }

  lemma CutSecond(a1: nat, a0: nat, b1: nat, b0: nat, c: nat)
    requires a1 < 64 && a0 < 4 && b1 < 16 && b0 < 16 && c < 256
    ensures ((a1 * 4 + a0) * 65536 + (b1 * 16 + b0) * 256 + c) / 4096 % 64 == a0 * 16 + b1
  {
    var q := a1 * 64 + (a0 * 16 + b1);
    assert (a1 * 4 + a0) * 65536 + (b1 * 16 + b0) * 256 + c == q * 4096 + (b0 * 256 + c);
  }

  lemma CutThird(a: nat, b1: nat, b0: nat, c1: nat, c0: nat)
    requires a < 256 && b1 < 16 && b0 < 16 && c1 < 4 && c0 < 64
    ensures (a * 65536 + (b1 * 16 + b0) * 256 + c1 * 64 + c0) / 64 % 64 == b0 * 4 + c1
    ensures (a * 65536 + (b1 * 16 + b0) * 256 + c1 * 64 + c0) % 64 == c0
  {
    var q := (a * 16 + b1) * 64 + (b0 * 4 + c1);
    assert a * 65536 + (b1 * 16 + b0) * 256 + c1 * 64 + c0 == q * 64 + c0;
  }

  lemma Cut(a: nat, b: nat, c: nat)
    requires a < 256 && b < 256 && c < 256
    ensures var n := a * 65536 + b * 256 + c;
            && n / 262144 % 64 == a / 4 && n / 4096 % 64 == a % 4 * 16 + b / 16
            && n / 64 % 64 == b % 16 * 4 + c / 64 && n % 64 == c % 64
  {
    CutFirst(a / 4, a % 4, b, c);
    CutSecond(a / 4, a % 4, b / 16, b % 16, c);
    CutThird(a, b / 16, b % 16, c / 64, c % 64);
    assert a / 4 * 4 + a % 4 == a && b / 16 * 16 + b % 16 == b && c / 64 * 64 + c % 64 == c;
  }

  /** Cut bits join to the bytes they came from. */
  lemma JoinFirst(a1: nat, a0: nat, b1: nat)
    requires a1 < 64 && a0 < 4 && b1 < 16
    ensures First(a1, a0 * 16 + b1) == (a1 * 4 + a0) as byte
  {
    assert (a0 * 16 + b1) / 16 == a0;
  }

  lemma JoinSecond(a0: nat, b1: nat, b0: nat, c1: nat)
    requires a0 < 4 && b1 < 16 && b0 < 16 && c1 < 4
    ensures Second(a0 * 16 + b1, b0 * 4 + c1) == (b1 * 16 + b0) as byte
  {
    assert (a0 * 16 + b1) * 16 == a0 * 256 + b1 * 16;
    assert (b0 * 4 + c1) / 4 == b0;
  }

  lemma JoinThird(b0: nat, c1: nat, c0: nat)
    requires b0 < 16 && c1 < 4 && c0 < 64
    ensures Third(b0 * 4 + c1, c0) == (c1 * 64 + c0) as byte
  {
    assert (b0 * 4 + c1) * 64 == b0 * 256 + c1 * 64;
  }

  lemma Joined(a: nat, b: nat, c: nat)
    requires a < 256 && b < 256 && c < 256
    ensures First(a / 4, a % 4 * 16 + b / 16) == a as byte
    ensures Second(a % 4 * 16 + b / 16, b % 16 * 4 + c / 64) == b as byte
    ensures Third(b % 16 * 4 + c / 64, c % 64) == c as byte
  {
    JoinFirst(a / 4, a % 4, b / 16);
    JoinSecond(a % 4, b / 16, b % 16, c / 64);
    JoinThird(b % 16, c / 64, c % 64);
    hide First, Second, Third;
  }

  lemma GroupRoundTrip(s: seq<byte>, rest: seq<byte>)
    requires s != []
    ensures DecodeGroup(EncodeGroup(s) + rest) == s[..Least(3, |s|)]
  {
    hide EncodeGroup, LetterValue, First, Second, Third, Letters;
    GroupLetters(s);
    Joined(At(s, 0), At(s, 1), At(s, 2));
    var e := EncodeGroup(s);
    FourLetters(e, rest);
    LettersOfFour(e);
  }

  lemma FourLetters(e: seq<byte>, rest: seq<byte>)
    requires |e| == 4
    ensures DecodeGroup(e + rest) == DecodeGroup(e)
  {
    hide LetterValue;
    var t := e + rest;
    assert t[0] == e[0] && t[1] == e[1] && t[2] == e[2] && t[3] == e[3];
    LettersOfFour(e);
    LettersOfFour(t);
    hide Letters;
  }

  lemma LettersOfFour(e: seq<byte>)
    requires |e| >= 4
    ensures Letters(e, 4) == (if LetterValue(e[0]).Some? then 1 else 0) + (if LetterValue(e[1]).Some? then 1 else 0)
                             + (if LetterValue(e[2]).Some? then 1 else 0) + (if LetterValue(e[3]).Some? then 1 else 0)
  {
    hide LetterValue;
    assert Letters(e, 1) == (if LetterValue(e[0]).Some? then 1 else 0);
    assert Letters(e, 2) == Letters(e, 1) + (if LetterValue(e[1]).Some? then 1 else 0);
    assert Letters(e, 3) == Letters(e, 2) + (if LetterValue(e[2]).Some? then 1 else 0);
  }

  /** What the letters of a group stand for. */
  lemma GroupLetters(s: seq<byte>)
    requires s != []
    ensures var a, b, c, e := At(s, 0), At(s, 1), At(s, 2), EncodeGroup(s);
            && LetterValue(e[0]) == Some(a / 4) && LetterValue(e[1]) == Some(a % 4 * 16 + b / 16)
            && LetterValue(e[2]) == (if |s| > 1 then Some(b % 16 * 4 + c / 64) else None)
            && LetterValue(e[3]) == (if |s| > 2 then Some(c % 64) else None)
  {
    var a, b, c, e := At(s, 0), At(s, 1), At(s, 2), EncodeGroup(s);
    Cut(a, b, c);
    LettersAreExact(a / 4, e[0]);
    LettersAreExact(a % 4 * 16 + b / 16, e[1]);
    LettersAreExact(b % 16 * 4 + c / 64, e[2]);
    LettersAreExact(c % 64, e[3]);
    hide Letter, LetterValue;
  }

  /** Decoding an encoding gives the bytes back. */
  lemma {:induction false} DecodedOfEncoded(s: seq<byte>)
    ensures Decoded(Encoded(s)) == s
  {
    if s != [] {
      var n := Least(3, |s|);
      GroupRoundTrip(s, Encoded(s[n..]));
      DecodedOfEncoded(s[n..]);
      assert Encoded(s)[4..] == Encoded(s[n..]);
      assert s == s[..n] + s[n..];
    }
  }

  // ---------- the loops ----------

  /** Up to three bytes, with zeros for those that are missing. */
  method ReadThree(input: Buf) returns (b0: byte, b1: byte, b2: byte, len: nat)
    requires input.Valid() && input.InMemory() && input.Rest() != []
    modifies input`rpos, input`wpos, input`saves, input`unread, input.data
    ensures input.Valid() && input.InMemory() && len == Least(3, |old(input.Rest())|)
    ensures input.Rest() == old(input.Rest())[len..]
    ensures b0 as int == At(old(input.Rest()), 0)
    ensures b1 as int == At(old(input.Rest()), 1)
    ensures b2 as int == At(old(input.Rest()), 2)
  {
    hide Chain, ReadMarks, Behind;
    input.MemoryRest();
    ghost var s := input.Rest();
    len := input.wpos - input.rpos;
    if len > 3 {
      len := 3;
    }
    b1, b2 := 0, 0;
    b0 := Next(input);
    if len > 1 {
      b1 := Next(input);
      assert s[1..][1..] == s[2..];
    }
    if len > 2 {
      b2 := Next(input);
      assert s[2..][1..] == s[3..];
    }
  }

  /** One round of base64_encode: up to three bytes in, four letters out. */
  method EncodeRound(input: Buf, d: array<byte>, i: nat)
    requires input.Valid() && input.InMemory() && input.Rest() != [] && d != input.data && i + 4 <= d.Length
    modifies input`rpos, input`wpos, input`saves, input`unread, input.data, d
    ensures input.Valid() && input.InMemory()
    ensures input.Rest() == old(input.Rest())[Least(3, |old(input.Rest())|)..]
    ensures d[..i + 4] == old(d[..i]) + EncodeGroup(old(input.Rest()))
  {
    hide Chain, ReadMarks, Behind, Letter, At;
    ghost var front := d[..i];
    var b0, b1, b2, len := ReadThree(input);
    var n := b0 as int * 65536 + b1 as int * 256 + b2 as int;
    d[i] := Letter(n / 262144 % 64);
    d[i + 1] := Letter(n / 4096 % 64);
    d[i + 2] := if len > 1 then Letter(n / 64 % 64) else PAD;
    d[i + 3] := if len > 2 then Letter(n % 64) else PAD;
    assert d[..i + 4] == front + [d[i], d[i + 1], d[i + 2], d[i + 3]];
  }

  lemma EncodedStep(s: seq<byte>)
    ensures s == [] ==> Encoded(s) == []
    ensures s != [] ==> Encoded(s) == EncodeGroup(s) + Encoded(s[Least(3, |s|)..])
  {
  }

  /** base64_encode. */
  method Encode(str: seq<byte>) returns (dest: Option<seq<byte>>)
    ensures dest == if |str| <= (U32_MAX - 1) / 4 * 3 then Some(Encoded(str)) else None
  {
    hide Chain, ReadMarks, Behind, EncodeGroup, Encoded, Buf.Rest, Buf.Valid, Least;
    EncodedStep([]);
    if |str| == 0 { return Some([]); }
    if |str| > (U32_MAX - 1) / 4 * 3 { return None; }
    var d := new byte[(|str| + 2) / 3 * 4 + 1];
    var input := new Buf.Const(str);
    var i := 0;
    input.MemoryRest();
    while input.rpos < input.wpos
      invariant input.Valid() && input.InMemory() && fresh(input) && fresh(input.data) && d != input.data
      invariant 0 <= i <= d.Length && d[..i] + Encoded(input.Rest()) == Encoded(str)
      decreases |input.Rest()|
    {
      input.MemoryRest();
      ghost var s, done := input.Rest(), d[..i];
      EncodedStep(s);
      assert i + |Encoded(s)| == |Encoded(str)|;
      EncodeRound(input, d, i);
      i := i + 4;
      assert done + (EncodeGroup(s) + Encoded(input.Rest())) == d[..i] + Encoded(input.Rest());
    }
    input.MemoryRest();
    EncodedStep(input.Rest());
    assert d[..i] + [] == d[..i];
    d[i] := 0;
    return Some(d[..i]);
  }

  /** One character of a group: its value, and whether it is a letter. */
  method ReadLetter(input: Buf) returns (v: nat, counts: bool)
    requires input.Valid() && input.InMemory()
    modifies input`rpos, input`wpos, input`saves, input`unread, input.data
    ensures input.Valid() && input.InMemory()
    ensures input.Rest() == old(input.Rest())[Least(1, |old(input.Rest())|)..]
    ensures v == Code(old(input.Rest()), 0)
    ensures counts <==> old(input.Rest()) != [] && LetterValue(old(input.Rest())[0]).Some?
  {
    hide Chain, ReadMarks, Behind, LetterValue;
    v, counts := 0, false;
    input.MemoryRest();
    if input.rpos < input.wpos {
      var c := Next(input);
      var r := LetterValue(c);
      if r.Some? {
        v, counts := r.value, true;
      }
    }
  }

  lemma NextLetter(s: seq<byte>, i: nat)
    ensures var t := s[Least(i, |s|)..];
            && t[Least(1, |t|)..] == s[Least(i + 1, |s|)..] && Code(t, 0) == Code(s, i)
            && Letters(s, i + 1) == Letters(s, i) + if t != [] && LetterValue(t[0]).Some? then 1 else 0
  {
    hide LetterValue;
  }

  /** The inner loop of base64_decode. */
  method ReadLetters(input: Buf) returns (buf: seq<nat>, len: nat)
    requires input.Valid() && input.InMemory()
    modifies input`rpos, input`wpos, input`saves, input`unread, input.data
    ensures input.Valid() && input.InMemory()
    ensures input.Rest() == old(input.Rest())[Least(4, |old(input.Rest())|)..]
    ensures buf == Codes(old(input.Rest()), 4)
    ensures len == Letters(old(input.Rest()), 4)
  {
    ghost var s := input.Rest();
    assert s[Least(0, |s|)..] == s && Letters(s, 0) == 0;
    hide Chain, ReadMarks, Behind, LetterValue, Code, Letters, Least;
    buf, len := [], 0;
    var i := 0;
    while i < 4
      invariant 0 <= i <= 4 && buf == Codes(s, i) && len == Letters(s, i)
      invariant input.Valid() && input.InMemory() && input.Rest() == s[Least(i, |s|)..]
    {
      NextLetter(s, i);
      var v, counts := ReadLetter(input);
      buf := buf + [v];
      if counts {
        len := len + 1;
      }
      i := i + 1;
    }
  }

  /** The writes of one round of base64_decode. */
  method EmitGroup(output: Buf, a: nat, b: nat, c: nat, d: nat, len: nat)
    requires a < 64 && b < 64 && c < 64 && d < 64
    requires output.Valid() && output.sent == [] && output.wpos + 3 <= output.data.Length
    modifies output`wpos, output`saves, output`sent, output`failed, output`spilled, output.data
    ensures output.Valid() && output.sent == [] && output.wpos <= old(output.wpos) + 3
    ensures output.Window() == old(output.Window()) + GroupBytes(a, b, c, d, len)
  {
    hide Chain, First, Second, Third;
    ghost var w := output.Window();
    if len > 1 {
      Emit(output, First(a, b));
    }
    if len > 2 {
      Emit(output, Second(b, c));
    }
    if len > 3 {
      Emit(output, Third(c, d));
    }
    Regroup(w, First(a, b), Second(b, c), Third(c, d));
  }

  lemma Regroup(w: seq<byte>, x: byte, y: byte, z: byte)
    ensures w == w + ([] + [] + []) && w + [x] == w + ([x] + [] + [])
    ensures w + [x] + [y] == w + ([x] + [y] + []) && w + [x] + [y] + [z] == w + ([x] + [y] + [z])
  {
  }

  /** One round of base64_decode. */
  method DecodeRound(input: Buf, output: Buf)
    requires input != output && input.data != output.data
    requires input.Valid() && input.InMemory() && output.Valid() && output.sent == []
    requires output.wpos + 3 <= output.data.Length
    modifies input`rpos, input`wpos, input`saves, input`unread, input.data
    modifies output`wpos, output`saves, output`sent, output`failed, output`spilled, output.data
    ensures input.Valid() && input.InMemory() && output.Valid() && output.sent == []
    ensures input.Rest() == old(input.Rest())[Least(4, |old(input.Rest())|)..]
    ensures output.Window() == old(output.Window()) + DecodeGroup(old(input.Rest()))
    ensures output.wpos <= old(output.wpos) + 3
  {
    hide Chain, ReadMarks, Behind, Code, Codes, Letters, GroupBytes, Least;
    FourCodes(input.Rest());
    var buf, len := ReadLetters(input);
    EmitGroup(output, buf[0], buf[1], buf[2], buf[3], len);
  }

  lemma DecodedStep(s: seq<byte>)
    ensures s == [] ==> Decoded(s) == []
    ensures s != [] ==> Decoded(s) == DecodeGroup(s) + Decoded(s[Least(4, |s|)..])
  {
  }

  /** base64_decode; the buffer it allocates is always large enough. */
  method Decode(str: seq<byte>) returns (dest: seq<byte>)
    ensures dest == Decoded(str)
  {
    hide Chain, ReadMarks, Behind, DecodeGroup, Decoded, MinRpos, MinWpos, Buf.Marks, Buf.OutputMarks, Buf.Ample;
    var output := new Buf.Alloc(|str| * 3 / 4 + 3, NoCallback, NoCallback, []);
    var input := new Buf.Const(str);
    assert output.Window() == [];
    ghost var rounds := 0;
    while input.rpos < input.wpos
      invariant fresh(input) && fresh(input.data) && fresh(output) && fresh(output.data)
      invariant input != output && input.data != output.data
      invariant input.Valid() && input.InMemory() && output.Valid() && output.sent == []
      invariant output.Window() + Decoded(input.Rest()) == Decoded(str)
      invariant output.wpos <= 3 * rounds && output.data.Length == |str| * 3 / 4 + 3
      invariant input.Rest() != [] ==> |str| == 4 * rounds + |input.Rest()|
      decreases |input.Rest()|
    {
      input.MemoryRest();
      ghost var s, done := input.Rest(), output.Window();
      DecodedStep(s);
      DecodeRound(input, output);
      rounds := rounds + 1;
      assert done + (DecodeGroup(s) + Decoded(input.Rest())) == output.Window() + Decoded(input.Rest());
    }
    input.MemoryRest();
    DecodedStep(input.Rest());
    assert output.Window() + [] == output.Window();
    return output.data[..output.wpos];
  }
}
