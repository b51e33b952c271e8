/**
Percent-encoding (http/url.c, url_encode_component, url_unescape, url_unescape_size;
sections 2.1 and 2.3 of RFC 3986). The encoder works on bytes; the decoder reads
characters, writes them in their shortest form, and works on a size computed beforehand.
 */
module Url {
  import opened Bytes
  import Utf8
  import opened Buffer
  import opened CodecIo

  const PERCENT: byte := 0x25
  const PLUS: byte := 0x2B
  const SPACE: byte := 0x20

  /** url_encode_component_unreserved. */
  predicate Unreserved(b: byte) {
    || 0x41 <= b <= 0x5A || 0x61 <= b <= 0x7A || 0x30 <= b <= 0x39
    || b == 0x2D || b == 0x2E || b == 0x5F || b == 0x7E
  }

  function EncodeByte(b: byte): (r: seq<byte>)
    ensures 1 <= |r| <= 3
  {
    if Unreserved(b) then [b] else [PERCENT, HexDigit(b as int / 16), HexDigit(b as int % 16)]
  }

  function Encoded(s: seq<byte>): (r: seq<byte>)
    ensures s == [] <==> r == []
  {
    if s == [] then [] else EncodeByte(s[0]) + Encoded(s[1..])
  }

  // The alphabets, character by character.

  predicate UpperDigitIs(b: byte, v: nat) {
    v < 16 && b as char == "0123456789ABCDEF"[v]
  }

  /** A hexadecimal digit of either case. */
  predicate DigitIs(b: byte, v: nat) {
    UpperDigitIs(b, v) || (v < 16 && b as char == "0123456789abcdef"[v])
  }

  /** The unreserved characters stand for themselves; every other byte is two upper-case digits. */
  lemma EncodedByteIs(b: byte)
    ensures var c, r := b as char, EncodeByte(b);
            if 'A' <= c <= 'Z' || 'a' <= c <= 'z' || '0' <= c <= '9' || c in {'-', '.', '_', '~'} then r == [b]
            else && |r| == 3 && r[0] as char == '%'
                 && UpperDigitIs(r[1], b as int / 16) && UpperDigitIs(r[2], b as int % 16)
  {
    HexDigitIs(b as int / 16);
    HexDigitIs(b as int % 16);
  }

  lemma HexDigitIs(v: nat)
    requires v < 16
    ensures UpperDigitIs(HexDigit(v), v)
  {
    if v < 10 {
      assert "0123456789ABCDEF"[v] as int == 48 + v;
    } else {
      assert "0123456789ABCDEF"[v] as int == 55 + v;
    }
  }

  // ---------- decoding ----------

  /** buf_parse_digit_hex: a digit, the end of the input, or anything else. */
  datatype Hex = HexFound(v: nat, rest: seq<byte>) | HexEnd | HexNone

  predicate IsHex(c: nat) {
    0x30 <= c <= 0x39 || 0x61 <= c <= 0x66 || 0x41 <= c <= 0x46
  }

  function HexValue(c: nat): (v: nat)
    requires IsHex(c)
    ensures v < 16
  {
    if c <= 0x39 then c - 0x30 else if c <= 0x46 then c - 0x41 + 10 else c - 0x61 + 10
  }

  function HexAt(s: seq<byte>): (h: Hex)
    ensures h.HexFound? ==> h.v < 16 && |h.rest| < |s|
  {
    match Utf8.Decode(s)
    case Short => HexEnd
    case Bad => HexNone
    case Char(c, size) => if IsHex(c) then HexFound(HexValue(c), s[size..]) else HexNone
  }

  /** The lower-case digit of g_kc3_base_hexadecimal. */
  function LowerDigit(v: nat): byte
    requires v < 16
  {
    if v < 10 then (0x30 + v) as byte else (0x61 + v - 10) as byte
  }

  /**
  One round of the decoding loops: the end, or the bytes to put out (if they can be), what
  follows, the size that is counted for them, and whether that size is theirs.
   */
  datatype Step = Stop | Put(writable: bool, bytes: seq<byte>, rest: seq<byte>, counted: nat)

  function StepOf(s: seq<byte>): (step: Step)
    ensures step.Put? ==> |step.rest| < |s| && |step.bytes| <= step.counted && step.counted > 0
  {
    var d := Utf8.Decode(s);
    if !d.Char? then Stop
    else
      var t := s[d.size..];
      if d.c == PLUS as int then Put(true, [SPACE], t, d.size)
      else if d.c == PERCENT as int then Escape(t)
      else if d.c < 0x110000 then
        Utf8.DecodedIsNotShorter(s);
        Put(true, Utf8.Encode(d.c), t, d.size)
      else Put(false, [], t, d.size)
  }

  /** The part of an escape behind the percent sign; an incomplete one is put out as it stands. */
  function Escape(t: seq<byte>): (step: Step)
    ensures step.Put? ==> step.writable && |step.rest| <= |t| && |step.bytes| == step.counted > 0
  {
    match HexAt(t)
    case HexEnd => Stop
    case HexNone => Put(true, [PERCENT], t, 1)
    case HexFound(high, u) =>
      match HexAt(u)
      case HexEnd => Stop
      case HexNone => Put(true, [PERCENT, LowerDigit(high)], u, 2)
      case HexFound(low, rest) => Put(true, [(high * 16 + low) as byte], rest, 1)
  }

  /** Bytes put in front of a result. */
  function Prepend(a: seq<byte>, b: Option<seq<byte>>): Option<seq<byte>> {
    if b.None? then None else Some(a + b.value)
  }

  /** The bytes that url_unescape writes, or none when a character cannot be written. */
  function Unescaped(s: seq<byte>): Option<seq<byte>>
    decreases |s|
  {
    var step := StepOf(s);
    if step.Stop? then Some([])
    else if !step.writable then None
    else Prepend(step.bytes, Unescaped(step.rest))
  }

  /** url_unescape_size. */
  function UnescapedSize(s: seq<byte>): nat
    decreases |s|
  {
    var step := StepOf(s);
    if step.Stop? then 0 else step.counted + UnescapedSize(step.rest)
  }

  lemma DigitHasValue(b: byte, v: nat)
    requires DigitIs(b, v)
    ensures v < 16 && b < 0x80 && IsHex(b as int) && HexValue(b as int) == v
  {
    if v < 10 {
      assert "0123456789ABCDEF"[v] as int == 48 + v && "0123456789abcdef"[v] as int == 48 + v;
    } else {
      assert "0123456789ABCDEF"[v] as int == 55 + v && "0123456789abcdef"[v] as int == 87 + v;
    }
  }

  lemma LowerDigitIs(v: nat)
    requires v < 16
    ensures LowerDigit(v) as char == "0123456789abcdef"[v]
  {
    if v < 10 {
      assert "0123456789abcdef"[v] as int == 48 + v;
    } else {
      assert "0123456789abcdef"[v] as int == 87 + v;
    }
  }

  ghost predicate NoDigit(z: byte) {
    z < 0x80 && forall v: nat :: !DigitIs(z, v)
  }

  lemma HexAtDigit(a: byte, v: nat, rest: seq<byte>)
    requires DigitIs(a, v)
    ensures HexAt([a] + rest) == HexFound(v, rest)
  {
    hide Utf8.Decode, DigitIs;
    DigitHasValue(a, v);
    AsciiDecode(a, rest);
  }

  lemma HexAtOther(z: byte, rest: seq<byte>)
    requires NoDigit(z)
    ensures HexAt([z] + rest) == HexNone
  {
    hide Utf8.Decode;
    AsciiDecode(z, rest);
    if IsHex(z as int) { HexIsDigit(z); }
  }

  lemma HexIsDigit(b: byte)
    requires IsHex(b as int)
    ensures DigitIs(b, HexValue(b as int))
  {
    var v := HexValue(b as int);
    if v < 10 {
      assert "0123456789ABCDEF"[v] as int == 48 + v;
    } else {
      assert "0123456789ABCDEF"[v] as int == 55 + v && "0123456789abcdef"[v] as int == 87 + v;
    }
  }

  /**
  What the decoder makes of its two special characters: a plus is a space, a percent sign
  with two digits of either case is their byte, and with fewer it is put out, the one digit
  it may have in lower case.
   */
  lemma SpecialsAre(a: byte, b: byte, z: byte, high: nat, low: nat, rest: seq<byte>)
    requires DigitIs(a, high) && DigitIs(b, low) && NoDigit(z)
    ensures Unescaped(['+' as byte] + rest) == Prepend([' ' as byte], Unescaped(rest))
    ensures Unescaped(['%' as byte] + ([a] + ([b] + rest))) == Prepend([(high * 16 + low) as byte], Unescaped(rest))
    ensures Unescaped(['%' as byte] + ([z] + rest)) == Prepend(['%' as byte], Unescaped([z] + rest))
    ensures LowerDigit(high) as char == "0123456789abcdef"[high]
    ensures Unescaped(['%' as byte] + ([a] + ([z] + rest))) ==
            Prepend(['%' as byte, LowerDigit(high)], Unescaped([z] + rest))
  {
    hide Utf8.Decode, Utf8.Encode, DigitIs, HexAt, Unescaped, NoDigit;
    DigitHasValue(a, high);
    DigitHasValue(b, low);
    LowerDigitIs(high);
    HexAtDigit(a, high, [b] + rest);
    HexAtDigit(a, high, [z] + rest);
    HexAtDigit(b, low, rest);
    HexAtOther(z, rest);
    SpecialRound('+' as byte, rest);
    SpecialRound('%' as byte, [a] + ([b] + rest));
    SpecialRound('%' as byte, [z] + rest);
    SpecialRound('%' as byte, [a] + ([z] + rest));
  }

  /** One round that begins with a plus or a percent sign. */
  lemma SpecialRound(b: byte, t: seq<byte>)
    requires b == PLUS || b == PERCENT
    ensures StepOf([b] + t) == if b == PLUS then Put(true, [SPACE], t, 1) else Escape(t)
    ensures var step := StepOf([b] + t);
            Unescaped([b] + t) == if step.Stop? then Some([]) else Prepend(step.bytes, Unescaped(step.rest))
  {
    hide Utf8.Decode, Escape;
    AsciiDecode(b, t);
  }

  // ---------- round trip ----------

  lemma AsciiDecode(b: byte, rest: seq<byte>)
    requires b < 0x80
    ensures Utf8.Decode([b] + rest) == Utf8.Char(b as int, 1) && ([b] + rest)[1..] == rest
    ensures Utf8.Encode(b as int) == [b]
  {
    assert ([b] + rest)[0] == b;
  }

  lemma HexOfDigit(v: nat, rest: seq<byte>)
    requires v < 16
    ensures HexAt([HexDigit(v)] + rest) == HexFound(v, rest)
  {
    AsciiDecode(HexDigit(v), rest);
  }

  lemma EncodedByteStep(b: byte, rest: seq<byte>)
    ensures var step := StepOf(EncodeByte(b) + rest);
            step == Put(true, [b], rest, 1)
  {
    hide Utf8.Decode, Utf8.Encode;
    if Unreserved(b) {
      AsciiDecode(b, rest);
    } else {
      var high, low := b as int / 16, b as int % 16;
      var t := [HexDigit(high)] + ([HexDigit(low)] + rest);
      assert EncodeByte(b) + rest == [PERCENT] + t;
      AsciiDecode(PERCENT, t);
      HexOfDigit(high, [HexDigit(low)] + rest);
      HexOfDigit(low, rest);
      assert high * 16 + low == b as int;
    }
  }

  /** Unescaping an encoded component gives its bytes back, and their number beforehand. */
  lemma {:induction false} UnescapedOfEncoded(s: seq<byte>)
    ensures Unescaped(Encoded(s)) == Some(s) && UnescapedSize(Encoded(s)) == |s|
  {
    hide StepOf, EncodeByte;
    if s == [] {
      NothingLeft();
    } else {
      EncodedByteStep(s[0], Encoded(s[1..]));
      UnescapedOfEncoded(s[1..]);
      assert s == [s[0]] + s[1..];
    }
  }

  lemma NothingLeft()
    ensures StepOf([]) == Stop
  {
  }

  // ---------- the size beforehand ----------

  /**
  Every character with which a round begins, other than a percent sign, was written in its
  shortest form. The digits of an escape do not matter.
   */
  predicate ShortestButPercents(s: seq<byte>)
    decreases |s|
  {
    var d := Utf8.Decode(s);
    && (d.Char? && d.c != PERCENT as int ==> Utf8.EncodedSize(d.c) == d.size)
    && (StepOf(s).Put? ==> ShortestButPercents(StepOf(s).rest))
  }

  /** In one round the size is that of the bytes exactly when such a character is not overlong. */
  lemma RoundIsExactIff(s: seq<byte>)
    requires StepOf(s).Put? && StepOf(s).writable
    ensures var d := Utf8.Decode(s);
            && d.Char? && d.c < 0x110000
            && (|StepOf(s).bytes| == StepOf(s).counted <==> d.c == PERCENT as int || Utf8.EncodedSize(d.c) == d.size)
  {
    hide Utf8.Decode, Utf8.Encode, HexAt;
  }

  /**
  The size computed beforehand is never too small, and it is the number of bytes written
  exactly when no round begins with an overlong character other than a percent sign.
   */
  lemma {:induction false} SizeIsExactIffShortest(s: seq<byte>)
    requires Unescaped(s).Some?
    ensures |Unescaped(s).value| <= UnescapedSize(s)
    ensures |Unescaped(s).value| == UnescapedSize(s) <==> ShortestButPercents(s)
    decreases |s|
  {
    hide StepOf, Utf8.Decode, Utf8.EncodedSize;
    var step := StepOf(s);
    if step.Put? {
      RoundIsExactIff(s);
      SizeIsExactIffShortest(step.rest);
    } else {
      LastRound(s);
    }
  }

  /** The decoding stops at a percent sign or where no character stands. */
  lemma LastRound(s: seq<byte>)
    requires StepOf(s).Stop?
    ensures Utf8.Decode(s).Char? ==> Utf8.Decode(s).c == PERCENT as int
  {
    hide Utf8.Decode, Utf8.Encode, HexAt;
  }

  /** An overlong form of the letter A: one byte is written, two are counted. */
  lemma OverlongIsCountedTwice()
    ensures Unescaped([0xC1, 0x81]) == Some([0x41]) && UnescapedSize([0xC1, 0x81]) == 2
  {
    var s: seq<byte> := [0xC1, 0x81];
    assert Utf8.Decode(s) == Utf8.Char(0x41, 2);
    assert s[2..] == [];
    assert StepOf(s) == Put(true, [0x41], [], 2);
    NothingLeft();
    hide StepOf;
    assert [0x41] + [] == [0x41 as byte];
  }

  /** An overlong plus sign: one space is written, two bytes are counted. */
  lemma OverlongPlusIsCountedTwice()
    ensures Unescaped([0xC0, 0xAB]) == Some([SPACE]) && UnescapedSize([0xC0, 0xAB]) == 2
  {
    var s: seq<byte> := [0xC0, 0xAB];
    assert Utf8.Decode(s) == Utf8.Char(PLUS as int, 2);
    assert s[2..] == [];
    assert StepOf(s) == Put(true, [SPACE], [], 2);
    NothingLeft();
    hide StepOf;
    assert [SPACE] + [] == [SPACE];
  }

  /** An overlong percent sign in front of no digit: it is put out, and counted, as one byte. */
  lemma OverlongPercentIsExact()
    ensures Unescaped([0xC0, 0xA5, 0x7A]) == Some([PERCENT, 0x7A]) && UnescapedSize([0xC0, 0xA5, 0x7A]) == 2
  {
    var s: seq<byte> := [0xC0, 0xA5, 0x7A];
    var z: seq<byte> := [0x7A];
    assert Utf8.Decode(s) == Utf8.Char(PERCENT as int, 2) && s[2..] == z;
    assert Utf8.Decode(z) == Utf8.Char(0x7A, 1) && z[1..] == [];
    assert HexAt(z) == HexNone;
    assert StepOf(s) == Put(true, [PERCENT], z, 1) && StepOf(z) == Put(true, z, [], 1);
    NothingLeft();
    hide StepOf;
    assert Unescaped([]) == Some([]) && z + [] == z;
    assert Unescaped(z) == Some(z) && UnescapedSize(z) == 1;
    assert [PERCENT] + z == [PERCENT, 0x7A];
  }

  /** Scalars in their shortest form from beginning to end. */
  predicate WellFormed(s: seq<byte>)
    decreases |s|
  {
    s == [] || (var d := Utf8.Decode(s);
                d.Char? && d.c < 0x110000 && Utf8.EncodedSize(d.c) == d.size && WellFormed(s[d.size..]))
  }

  lemma HexKeepsWellFormed(t: seq<byte>)
    requires WellFormed(t)
    ensures HexAt(t).HexFound? ==> WellFormed(HexAt(t).rest)
  {
    hide Utf8.Decode, Utf8.EncodedSize;
  }

  lemma StepOfWellFormed(s: seq<byte>)
    requires WellFormed(s) && s != []
    ensures StepOf(s).Put? ==>
              StepOf(s).writable && |StepOf(s).bytes| == StepOf(s).counted && WellFormed(StepOf(s).rest)
  {
    hide Utf8.Decode, Utf8.Encode, HexAt;
    var t := s[Utf8.Decode(s).size..];
    HexKeepsWellFormed(t);
    if HexAt(t).HexFound? {
      HexKeepsWellFormed(HexAt(t).rest);
    }
  }

  /** On well-formed UTF-8 unescaping always succeeds and the size is exact. */
  lemma {:induction false} WellFormedIsExact(s: seq<byte>)
    requires WellFormed(s)
    ensures Unescaped(s).Some? && |Unescaped(s).value| == UnescapedSize(s)
    decreases |s|
  {
    hide StepOf;
    if s == [] {
      NothingLeft();
    } else {
      StepOfWellFormed(s);
      if StepOf(s).Put? {
        WellFormedIsExact(StepOf(s).rest);
      }
    }
  }

  // ---------- the loops ----------

  /** url_encode_component; the buffer of the size counted first is filled exactly. */
  method EncodeComponent(src: seq<byte>) returns (dest: seq<byte>)
    ensures dest == Encoded(src)
  {
    hide *;
    var size := EncodedSize(src);
    if size == 0 { return []; }
    var output := new Buf.Alloc(size, NoCallback, NoCallback, []);
    EmptyOutput(output);
    var i := 0;
    assert src[0..] == src;
    while i < |src|
      invariant 0 <= i <= |src| && fresh(output) && fresh(output.data)
      invariant output.Valid() && output.rpos == 0 && output.sent == [] && output.data.Length == |Encoded(src)|
      invariant output.Window() + Encoded(src[i..]) == Encoded(src)
    {
      ghost var done := output.Window();
      EncodedStep(src, i);
      WindowSize(output);
      Room(done, EncodeByte(src[i]), Encoded(src[i + 1..]));
      PutEncoded(output, src[i]);
      i := i + 1;
    }
    EncodedEnd(src);
    WindowSize(output);
    assert output.Window() + [] == output.Window();
    dest := output.data[..];
    WholeWindow(output);
  }

  /** The first loop of url_encode_component. */
  method EncodedSize(src: seq<byte>) returns (size: nat)
    ensures size == |Encoded(src)|
    ensures size == 0 <==> Encoded(src) == []
  {
    var i := 0;
    size := 0;
    assert src[0..] == src;
    while i < |src|
      invariant 0 <= i <= |src| && size + |Encoded(src[i..])| == |Encoded(src)|
    {
      EncodedStep(src, i);
      if Unreserved(src[i]) {
        size := size + 1;
      } else {
        size := size + 3;
      }
      i := i + 1;
    }
    EncodedEnd(src);
  }

  lemma EncodedStep(s: seq<byte>, i: nat)
    requires i < |s|
    ensures Encoded(s[i..]) == EncodeByte(s[i]) + Encoded(s[i + 1..])
  {
    assert s[i..][1..] == s[i + 1..];
  }

  lemma EncodedEnd(s: seq<byte>)
    ensures Encoded(s[|s|..]) == []
  {
  }

  lemma Room(done: seq<byte>, next: seq<byte>, left: seq<byte>)
    ensures done + (next + left) == done + next + left
    ensures |done + (next + left)| >= |done| + |next|
  {
  }

  lemma EmptyOutput(output: Buf)
    requires output.Valid() && output.wpos == 0
    ensures output.Window() == []
  {
  }

  lemma WindowSize(output: Buf)
    requires output.Valid()
    ensures |output.Window()| == output.wpos <= output.data.Length
  {
  }

  lemma WholeWindow(output: Buf)
    requires output.Valid() && output.wpos == output.data.Length
    ensures output.Window() == output.data[..]
  {
  }

  /** One round of the second loop: the writes cannot fail. */
  method PutEncoded(output: Buf, b: byte)
    requires output.Valid() && output.rpos == 0 && output.sent == []
    requires output.wpos + |EncodeByte(b)| <= output.data.Length
    modifies output`wpos, output`saves, output`sent, output`failed, output`spilled, output.data
    ensures output.Valid() && output.sent == []
    ensures output.Window() == old(output.Window()) + EncodeByte(b)
  {
    hide Chain, HexDigit, ReadMarks, WriteMarks, MinWpos, MinRpos, Buf.Rest, Buf.Marks, Buf.OutputMarks;
    ghost var w := output.Window();
    if Unreserved(b) {
      Emit(output, b);
    } else {
      Emit(output, PERCENT);
      EmitHex(output, b);
      assert w + [PERCENT] + [HexDigit(b as int / 16), HexDigit(b as int % 16)] == w + EncodeByte(b);
    }
  }

  /** buf_parse_digit_hex. */
  method ParseDigitHex(input: Buf) returns (r: int, digit: nat)
    requires input.Valid() && input.InMemory()
    modifies input`rpos, input`wpos, input`saves, input`unread, input.data
    ensures input.Valid() && input.InMemory()
    ensures r > 0 ==> HexAt(old(input.Rest())) == HexFound(digit, input.Rest())
    ensures r <= 0 ==> input.Rest() == old(input.Rest())
    ensures r == 0 ==> HexAt(input.Rest()) == HexNone
    ensures r < 0 ==> HexAt(input.Rest()) == HexEnd
  {
    hide Chain, ReadMarks, Behind, Utf8.Decode;
    var c;
    digit := 0;
    r, c := input.PeekCharacterUtf8();
    if r <= 0 { return; }
    if 0x30 <= c <= 0x39 {
      digit := c - 0x30;
    } else if 0x61 <= c <= 0x66 {
      digit := c - 0x61 + 10;
    } else if 0x41 <= c <= 0x46 {
      digit := c - 0x41 + 10;
    } else {
      return 0, digit;
    }
    SkipOneCharacter(input.Rest());
    r := input.Ignore(r);
  }

  /** Ignoring the size of a character ignores the character. */
  lemma SkipOneCharacter(s: seq<byte>)
    requires Utf8.Decode(s).Char?
    ensures Utf8.SkipEnd(s, 0, Utf8.Decode(s).size) == Utf8.Decode(s).size
  {
    hide Utf8.Decode;
    assert s[0..] == s;
    assert Utf8.SkipEnd(s, Utf8.Decode(s).size, Utf8.Decode(s).size) == Utf8.Decode(s).size;
  }

  /** One round of url_unescape_size. */
  method SizeRound(input: Buf) returns (more: bool, n: nat)
    requires input.Valid() && input.InMemory()
    modifies input`rpos, input`wpos, input`saves, input`unread, input.data
    ensures input.Valid() && input.InMemory()
    ensures !more <==> StepOf(old(input.Rest())).Stop?
    ensures more ==> StepOf(old(input.Rest())).counted == n && StepOf(old(input.Rest())).rest == input.Rest()
  {
    hide Chain, ReadMarks, Behind, Utf8.Decode, Utf8.Encode, HexAt;
    n := 0;
    var r, c := input.ReadCharacterUtf8();
    if r <= 0 { return false, 0; }
    if c != PERCENT as int { return true, r; }
    var digit;
    r, digit := ParseDigitHex(input);
    if r < 0 { return false, 0; }
    if r == 0 { return true, 1; }
    r, digit := ParseDigitHex(input);
    if r < 0 { return false, 0; }
    if r == 0 { return true, 2; }
    return true, 1;
  }

  /** url_unescape_size. */
  method UnescapeSize(url: seq<byte>) returns (size: nat)
    ensures size == UnescapedSize(url)
  {
    hide *;
    var input := new Buf.Const(url);
    size := 0;
    while true
      invariant input.Valid() && input.InMemory() && fresh(input) && fresh(input.data)
      invariant size + UnescapedSize(input.Rest()) == UnescapedSize(url)
      decreases |input.Rest()|
    {
      SizeStep(input.Rest());
      var more, n := SizeRound(input);
      if !more { return; }
      size := size + n;
    }
  }

  lemma SizeStep(s: seq<byte>)
    ensures UnescapedSize(s) == if StepOf(s).Stop? then 0 else StepOf(s).counted + UnescapedSize(StepOf(s).rest)
    ensures StepOf(s).Put? ==> |StepOf(s).rest| < |s| && |StepOf(s).bytes| <= StepOf(s).counted
  {
    hide StepOf;
  }

  lemma UnescapedStep(done: seq<byte>, s: seq<byte>)
    ensures var step := StepOf(s);
            Prepend(done, Unescaped(s)) ==
            if step.Stop? then Some(done)
            else if !step.writable then None
            else Prepend(done + step.bytes, Unescaped(step.rest))
  {
    hide StepOf;
    var step := StepOf(s);
    assert done + [] == done;
    if step.Put? && step.writable && Unescaped(step.rest).Some? {
      var t := Unescaped(step.rest).value;
      assert done + (step.bytes + t) == done + step.bytes + t;
    }
  }

  /** What follows a percent sign. */
  method UnescapeEscape(input: Buf, output: Buf) returns (r: int)
    requires input != output && input.data != output.data
    requires input.Valid() && input.InMemory() && output.Valid() && output.sent == []
    requires Escape(input.Rest()).Put? ==> output.wpos + Escape(input.Rest()).counted <= output.data.Length
    modifies input`rpos, input`wpos, input`saves, input`unread, input.data
    modifies output`wpos, output`saves, output`sent, output`failed, output`spilled, output.data
    ensures input.Valid() && input.InMemory() && output.Valid() && output.sent == []
    ensures r == if Escape(old(input.Rest())).Stop? then 0 else 1
    ensures r == 0 ==> output.Window() == old(output.Window())
    ensures r == 1 ==> output.Window() == old(output.Window()) + Escape(old(input.Rest())).bytes
    ensures r == 1 ==> input.Rest() == Escape(old(input.Rest())).rest
    ensures old(output.wpos) <= output.wpos
    ensures output.data[output.wpos..] == old(output.data[output.wpos..])[output.wpos - old(output.wpos)..]
  {
    hide Chain, ReadMarks, Behind, HexAt, MinRpos, MinWpos, Buf.Marks, Buf.OutputMarks, Buf.Ample;
    var high, low;
    r, high := ParseDigitHex(input);
    if r < 0 { return 0; }
    if r == 0 {
      EmitAll(output, [PERCENT]);
      return 1;
    }
    r, low := ParseDigitHex(input);
    if r < 0 { return 0; }
    if r == 0 {
      EmitAll(output, [PERCENT, LowerDigit(high)]);
      return 1;
    }
    EmitAll(output, [(high * 16 + low) as byte]);
    r := 1;
  }

  /** One round of url_unescape: 1 to go on, 0 at the end, -1 for a character that cannot be written. */
  method UnescapeRound(input: Buf, output: Buf) returns (r: int)
    requires input != output && input.data != output.data
    requires input.Valid() && input.InMemory() && output.Valid() && output.sent == []
    requires StepOf(input.Rest()).Put? ==> output.wpos + StepOf(input.Rest()).counted <= output.data.Length
    modifies input`rpos, input`wpos, input`saves, input`unread, input.data
    modifies output`wpos, output`saves, output`sent, output`failed, output`spilled, output.data
    ensures input.Valid() && input.InMemory() && output.Valid() && output.sent == []
    ensures r == 0 <==> StepOf(old(input.Rest())).Stop?
    ensures r == -1 <==> StepOf(old(input.Rest())).Put? && !StepOf(old(input.Rest())).writable
    ensures r == 0 || r == -1 ==> output.Window() == old(output.Window())
    ensures r == 1 || r == 0 || r == -1
    ensures r == 1 ==> output.Window() == old(output.Window()) + StepOf(old(input.Rest())).bytes
    ensures r == 1 ==> input.Rest() == StepOf(old(input.Rest())).rest
    ensures old(output.wpos) <= output.wpos
    ensures output.data[output.wpos..] == old(output.data[output.wpos..])[output.wpos - old(output.wpos)..]
  {
    hide Chain, ReadMarks, Behind, Utf8.Decode, Utf8.Encode, Escape, MinRpos, MinWpos, Buf.Marks, Buf.OutputMarks;
    var c;
    r, c := input.ReadCharacterUtf8();
    if r <= 0 { return 0; }
    if c == PLUS as int {
      EmitAll(output, [SPACE]);
      return 1;
    }
    if c != PERCENT as int {
      if c >= 0x110000 { return -1; }
      EmitAll(output, Utf8.Encode(c));
      return 1;
    }
    r := UnescapeEscape(input, output);
  }

  function Zeros(n: nat): seq<byte> {
    seq(n, _ => 0)
  }

  /** The bytes written, filled up with zeros to a size. */
  function Filled(written: seq<byte>, size: nat): seq<byte> {
    written + Zeros(if |written| <= size then size - |written| else 0)
  }

  /**
  url_unescape: the string is the bytes written, filled up with zeros to the size computed
  beforehand; nothing is returned when a character cannot be written.
   */
  method Unescape(url: seq<byte>) returns (dest: Option<seq<byte>>)
    ensures dest == if Unescaped(url).None? then None else Some(Filled(Unescaped(url).value, UnescapedSize(url)))
  {
    hide *;
    var size := UnescapeSize(url);
    if size == 0 {
      NothingWritten(url);
      NothingFilled();
      return Some([]);
    }
    var output := new Buf.Alloc(size, NoCallback, NoCallback, []);
    var input := new Buf.Const(url);
    EmptyOutput(output);
    AllZeros(output);
    AtStart(url);
    while true
      invariant fresh(input) && fresh(input.data) && fresh(output) && fresh(output.data)
      invariant input != output && input.data != output.data && output.data.Length == size == UnescapedSize(url)
      invariant input.Valid() && input.InMemory() && output.Valid() && output.sent == []
      invariant |output.Window()| + UnescapedSize(input.Rest()) <= size
      invariant output.wpos <= size && output.data[output.wpos..] == Zeros(size - output.wpos)
      invariant Prepend(output.Window(), Unescaped(input.Rest())) == Unescaped(url)
      decreases |input.Rest()|
    {
      ghost var done := output.Window();
      SizeStep(input.Rest());
      UnescapedStep(done, input.Rest());
      WindowSize(output);
      ghost var at, tail := output.wpos, output.data[output.wpos..];
      var r := UnescapeRound(input, output);
      if r < 0 { return None; }
      if r == 0 { break; }
      WindowSize(output);
      ZerosLeft(tail, size - at, output.wpos - at);
    }
    WindowSize(output);
    WindowAndTail(output);
    return Some(output.data[..]);
  }

  lemma AtStart(s: seq<byte>)
    ensures Prepend([], Unescaped(s)) == Unescaped(s)
  {
    hide Unescaped;
    if Unescaped(s).Some? { assert [] + Unescaped(s).value == Unescaped(s).value; }
  }

  lemma NothingFilled()
    ensures Filled([], 0) == []
  {
  }

  lemma NothingWritten(s: seq<byte>)
    requires UnescapedSize(s) == 0
    ensures Unescaped(s) == Some([])
  {
    hide StepOf;
  }

  /** The allocated buffer: what has been written, and the zeros behind it. */
  lemma WindowAndTail(output: Buf)
    requires output.Valid() && output.data[output.wpos..] == Zeros(output.data.Length - output.wpos)
    ensures output.data[..] == Filled(output.Window(), output.data.Length)
  {
  }

  lemma AllZeros(output: Buf)
    requires output.wpos == 0 && output.data[..] == seq(output.data.Length, _ => 0)
    ensures output.data[output.wpos..] == Zeros(output.data.Length)
  {
    assert output.data[0..] == output.data[..];
  }

  lemma ZerosLeft(tail: seq<byte>, n: nat, k: nat)
    requires tail == Zeros(n) && k <= n
    ensures tail[k..] == Zeros(n - k)
  {
  }
}
