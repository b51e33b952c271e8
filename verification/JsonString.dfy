/**
JSON strings (json/json.c, json_buf_parse_str and its helpers): what one character of the
body stands for, what a whole body decodes to, and the legal spellings of a scalar
(section 7 of RFC 8259, section 4 of RFC 3629).
 */
module JsonString {
  import opened Bytes
  import opened Utf8

  const STR_MAX := 16 * 1024 * 1024
  const QUOTE: byte := 0x22
  const BACKSLASH: byte := 0x5C

  /** A parse result: nothing, or a value and what follows it. */
  datatype Read<+T> = Fail | Got(value: T, rest: seq<byte>)

  predicate IsScalar(c: nat) {
    c <= 0x10FFFF && !(0xD800 <= c <= 0xDFFF)
  }

  predicate IsHex(b: byte) {
    0x30 <= b <= 0x39 || 0x41 <= b <= 0x46 || 0x61 <= b <= 0x66
  }

  function HexValue(b: byte): (d: nat)
    requires IsHex(b)
    ensures d < 16
  {
    if b <= 0x39 then b as int - 0x30 else if b <= 0x46 then b as int - 0x41 + 10 else b as int - 0x61 + 10
  }

  /** json_buf_parse_str_hex4. */
  function Hex4(s: seq<byte>): (r: Read<nat>)
    ensures r.Got? ==> r.value < 0x10000 && |r.rest| == |s| - 4
  {
    if |s| >= 4 && IsHex(s[0]) && IsHex(s[1]) && IsHex(s[2]) && IsHex(s[3]) then
      Got(((HexValue(s[0]) * 16 + HexValue(s[1])) * 16 + HexValue(s[2])) * 16 + HexValue(s[3]), s[4..])
    else
      Fail
  }

  /** The character of a one-letter escape. */
  function ShortEscape(b: byte): Option<nat> {
    if b == QUOTE || b == BACKSLASH || b == 0x2F then Some(b as int)
    else if b == 0x62 then Some(8)
    else if b == 0x66 then Some(12)
    else if b == 0x6E then Some(10)
    else if b == 0x72 then Some(13)
    else if b == 0x74 then Some(9)
    else None
  }

  /** The character of two surrogates. */
  function Paired(high: nat, low: nat): nat
    requires 0xD800 <= high && 0xDC00 <= low
  {
    0x10000 + (high - 0xD800) * 1024 + low - 0xDC00
  }

  /** The escape that must follow the one of a high surrogate. */
  function LowSurrogate(s: seq<byte>, high: nat): (r: Read<nat>)
    requires 0xD800 <= high <= 0xDBFF
    ensures r.Got? ==> |r.rest| < |s|
  {
    if |s| < 2 || s[0] != BACKSLASH || s[1] != 0x75 then Fail
    else
      match Hex4(s[2..])
      case Fail => Fail
      case Got(low, after) => if 0xDC00 <= low <= 0xDFFF then Got(Paired(high, low), after) else Fail
  }

  /** The part of an escape after a backslash and a `u`. */
  function Unicode(s: seq<byte>): (r: Read<nat>)
    ensures r.Got? ==> |r.rest| < |s|
  {
    match Hex4(s)
    case Fail => Fail
    case Got(c, rest) =>
      if 0xD800 <= c <= 0xDBFF then LowSurrogate(rest, c)
      else if 0xDC00 <= c <= 0xDFFF then Fail
      else Got(c, rest)
  }

  /** The part of an escape after the backslash. */
  function Escape(s: seq<byte>): (r: Read<nat>)
    ensures r.Got? ==> |r.rest| < |s|
  {
    if s == [] then Fail
    else if s[0] == 0x75 then Unicode(s[1..])
    else if ShortEscape(s[0]).Some? then Got(ShortEscape(s[0]).value, s[1..])
    else Fail
  }

  /** Continuation bytes that a first byte asks for, and the least number they may stand for. */
  function Lead(b: byte): (nat, nat) {
    if 0xC2 <= b <= 0xDF then (1, 0x80)
    else if 0xE0 <= b <= 0xEF then (2, 0x800)
    else if 0xF0 <= b <= 0xF4 then (3, 0x10000)
    else (0, 0)
  }

  /** A character of several bytes. */
  function Raw(s: seq<byte>): (r: Read<nat>)
    requires s != []
    ensures r.Got? ==> |r.rest| < |s|
  {
    var (count, min) := Lead(s[0]);
    if count == 0 || |s| <= count || exists i :: 1 <= i <= count && !IsContinuation(s[i]) then Fail
    else
      var c := Value(s, count + 1);
      if c < min || !IsScalar(c) then Fail else Got(c, s[count + 1..])
  }

  /** json_buf_parse_str_character. */
  function StrCharacter(s: seq<byte>): (r: Read<nat>)
    ensures r.Got? ==> |r.rest| < |s|
  {
    if s == [] || s[0] < 0x20 then Fail
    else if s[0] == BACKSLASH then Escape(s[1..])
    else if s[0] < 0x80 then Got(s[0] as int, s[1..])
    else Raw(s)
  }

  /** Every character read is a scalar, so it can be written. */
  lemma ReadsScalars(s: seq<byte>)
    requires StrCharacter(s).Got?
    ensures IsScalar(StrCharacter(s).value)
  {
    hide Value;
    hide Hex4;
  }

  /** The body of a string after its opening quote: the bytes it decodes to, given those before. */
  function Body(s: seq<byte>, done: seq<byte>): (r: Read<seq<byte>>)
    ensures r.Got? ==> |r.rest| < |s|
    ensures r.Got? ==> |r.value| >= |done|
  {
    if s == [] then Fail
    else if s[0] == QUOTE then Got(done, s[1..])
    else
      match StrCharacter(s)
      case Fail => Fail
      case Got(c, rest) =>
        ReadsScalars(s);
        if |done| + EncodedSize(c) > STR_MAX then Fail else Body(rest, done + Encode(c))
  }

  /** json_buf_parse_str. */
  function Str(s: seq<byte>): (r: Read<seq<byte>>)
    ensures r.Got? ==> |r.rest| < |s|
  {
    if s == [] || s[0] != QUOTE then Fail else Body(s[1..], [])
  }

  // ---------- raw characters ----------

  lemma RawOfEncoded(c: nat, rest: seq<byte>)
    requires IsScalar(c) && c >= 0x80
    ensures Raw(Encode(c) + rest) == Got(c, rest)
  {
    var s := Encode(c) + rest;
    var n := EncodedSize(c);
    EncodeCarries(c);
    assert forall i :: 0 <= i < n ==> s[i] == Encode(c)[i];
    assert Value(s, n) == c;
    LeadOfEncoded(c);
    hide Value, Encode;
    assert s[n..] == rest;
  }

  lemma LeadOfEncoded(c: nat)
    requires IsScalar(c) && c >= 0x80
    ensures var (count, min) := Lead(Encode(c)[0]); count == EncodedSize(c) - 1 && count > 0 && min <= c
  {
  }

  /** A raw character of several bytes is accepted iff it is the shortest form of a scalar. */
  lemma RawIffShortest(s: seq<byte>, c: nat, rest: seq<byte>)
    requires s != [] && s[0] >= 0x80
    ensures Raw(s) == Got(c, rest) <==> IsScalar(c) && c >= 0x80 && s == Encode(c) + rest
  {
    if Raw(s) == Got(c, rest) {
      var (count, min) := Lead(s[0]);
      var front := s[..count + 1];
      assert Value(front, |front|) == Value(s, |front|) == c;
      assert EncodedSize(c) >= |front|;
      hide Value, Encode;
      EncodeOfValue(front, c);
      assert s == front + rest;
    }
    if IsScalar(c) && c >= 0x80 && s == Encode(c) + rest {
      RawOfEncoded(c, rest);
    }
  }

  // ---------- legal spellings ----------

  // The spellings are written down character by character, apart from the tables of the reader.

  /** A hexadecimal digit of either case. */
  predicate Spelt16(b: byte, d: nat) {
    d < 16 && (b as char == "0123456789abcdef"[d] || b as char == "0123456789ABCDEF"[d])
  }

  /** Four hexadecimal digits of a number. */
  predicate Digits4(w: seq<byte>, v: nat) {
    && |w| == 4 && v < 0x10000
    && Spelt16(w[0], v / 4096) && Spelt16(w[1], v / 256 % 16)
    && Spelt16(w[2], v / 16 % 16) && Spelt16(w[3], v % 16)
  }

  predicate IsRaw(w: seq<byte>, c: nat) {
    32 <= c <= 0x10FFFF && c != 34 && c != 92 && w == Encode(c)
  }

  /** The eight one-letter escapes: backspace, form feed, newline, return and tab have letters. */
  predicate IsShortEscape(w: seq<byte>, c: nat) {
    && |w| == 2 && w[0] == '\\' as byte
    && var e := w[1] as char;
       || (e == '"' && c == 34) || (e == '\\' && c == 92) || (e == '/' && c == 47)
       || (e == 'b' && c == 8) || (e == 'f' && c == 12) || (e == 'n' && c == 10)
       || (e == 'r' && c == 13) || (e == 't' && c == 9)
  }

  predicate IsUnicodeEscape(w: seq<byte>, c: nat) {
    |w| == 6 && w[0] == '\\' as byte && w[1] == 'u' as byte && Digits4(w[2..], c)
  }

  /** Two escapes, for the surrogates that UTF-16 gives a scalar above U+FFFF. */
  predicate IsPairEscape(w: seq<byte>, c: nat) {
    && |w| == 12 && 0x10000 <= c
    && IsUnicodeEscape(w[..6], 0xD800 + (c - 0x10000) / 1024)
    && IsUnicodeEscape(w[6..], 0xDC00 + (c - 0x10000) % 1024)
  }

  /** The bytes are one of the ways to write a scalar inside a string. */
  predicate Spells(w: seq<byte>, c: nat) {
    IsScalar(c) && (IsRaw(w, c) || IsShortEscape(w, c) || IsUnicodeEscape(w, c) || IsPairEscape(w, c))
  }

  lemma HexIsSpelt(b: byte, d: nat)
    ensures Spelt16(b, d) <==> IsHex(b) && HexValue(b) == d
  {
    if d < 10 {
      assert "0123456789abcdef"[d] as int == 48 + d && "0123456789ABCDEF"[d] as int == 48 + d;
    } else if d < 16 {
      assert "0123456789abcdef"[d] as int == 87 + d && "0123456789ABCDEF"[d] as int == 55 + d;
    }
  }

  lemma Hex4IffDigits(s: seq<byte>, v: nat)
    ensures Hex4(s).Got? && Hex4(s).value == v <==> |s| >= 4 && Digits4(s[..4], v)
  {
    hide Spelt16, IsHex, HexValue;
    if |s| >= 4 && IsHex(s[0]) && IsHex(s[1]) && IsHex(s[2]) && IsHex(s[3]) {
      var a, b, c, d := HexValue(s[0]), HexValue(s[1]), HexValue(s[2]), HexValue(s[3]);
      HexPlacesIff(a, b, c, d, v);
      var w := s[..4];
      assert w[0] == s[0] && w[1] == s[1] && w[2] == s[2] && w[3] == s[3];
      HexIsSpelt(s[0], v / 4096);
      HexIsSpelt(s[1], v / 256 % 16);
      HexIsSpelt(s[2], v / 16 % 16);
      HexIsSpelt(s[3], v % 16);
    } else if |s| >= 4 {
      var w := s[..4];
      assert w[0] == s[0] && w[1] == s[1] && w[2] == s[2] && w[3] == s[3];
      HexIsSpelt(s[0], v / 4096);
      HexIsSpelt(s[1], v / 256 % 16);
      HexIsSpelt(s[2], v / 16 % 16);
      HexIsSpelt(s[3], v % 16);
    }
  }

  lemma HexPlacesIff(a: nat, b: nat, c: nat, d: nat, v: nat)
    requires a < 16 && b < 16 && c < 16 && d < 16
    ensures v == ((a * 16 + b) * 16 + c) * 16 + d <==>
            v < 0x10000 && a == v / 4096 && b == v / 256 % 16 && c == v / 16 % 16 && d == v % 16
  {
    if v == ((a * 16 + b) * 16 + c) * 16 + d {
      HexPlaces(a, b, c, d);
    }
    if v < 0x10000 && a == v / 4096 && b == v / 256 % 16 && c == v / 16 % 16 && d == v % 16 {
      var v1 := v / 16;
      var v2 := v1 / 16;
      assert v2 == v / 256 && v2 / 16 == v / 4096;
      assert v == v1 * 16 + d && v1 == v2 * 16 + c && v2 == a * 16 + b;
    }
  }

  lemma HexPlaces(a: nat, b: nat, c: nat, d: nat)
    requires a < 16 && b < 16 && c < 16 && d < 16
    ensures var v := ((a * 16 + b) * 16 + c) * 16 + d;
            v / 4096 == a && v / 256 % 16 == b && v / 16 % 16 == c && v % 16 == d
  {
    var v := ((a * 16 + b) * 16 + c) * 16 + d;
    assert v == (a * 256 + b * 16 + c) * 16 + d;
    assert v / 16 == a * 256 + b * 16 + c;
    assert v == (a * 16 + b) * 256 + (c * 16 + d);
    assert v / 256 == a * 16 + b;
    assert v == a * 4096 + (b * 256 + c * 16 + d);
  }

  lemma PairedIff(c: nat, high: nat, low: nat)
    requires 0xD800 <= high <= 0xDBFF && 0xDC00 <= low <= 0xDFFF
    ensures Paired(high, low) == c <==>
            c >= 0x10000 && high == 0xD800 + (c - 0x10000) / 1024 && low == 0xDC00 + (c - 0x10000) % 1024
    ensures IsScalar(Paired(high, low))
  {
  }

  lemma SurrogatesOf(c: nat)
    requires 0x10000 <= c <= 0x10FFFF
    ensures 0xD800 <= 0xD800 + (c - 0x10000) / 1024 <= 0xDBFF
    ensures 0xDC00 <= 0xDC00 + (c - 0x10000) % 1024 <= 0xDFFF
  {
  }

  /** A spelling is read as its scalar, whatever follows, and does not end the string. */
  lemma SpellingIsRead(w: seq<byte>, c: nat, rest: seq<byte>)
    requires Spells(w, c)
    ensures w != [] && w[0] != QUOTE && IsScalar(c) && StrCharacter(w + rest) == Got(c, rest)
  {
    hide Encode, Value, Hex4, Digits4, Paired;
    var s := w + rest;
    if IsRaw(w, c) {
      EncodedFront(c);
      if c >= 0x80 {
        RawOfEncoded(c, rest);
        hide Raw;
      } else {
        assert s[1..] == rest;
      }
    } else if IsShortEscape(w, c) {
      assert s[1..][1..] == rest && s[1..][0] == w[1];
    } else if IsUnicodeEscape(w, c) {
      EscapeIsRead(w, c, rest);
    } else {
      PairIsRead(w, c, rest);
    }
  }

  lemma EncodedFront(c: nat)
    requires c <= 0x10FFFF
    ensures c < 0x80 ==> Encode(c) == [c as byte]
    ensures c >= 0x80 ==> Encode(c)[0] >= 0xC0
  {
  }

  lemma EscapeDigits(w: seq<byte>, v: nat, rest: seq<byte>)
    requires IsUnicodeEscape(w, v)
    ensures Hex4((w + rest)[2..]) == Got(v, rest)
  {
    var t := (w + rest)[2..];
    Hex4IffDigits(t, v);
    assert t[..4] == w[2..];
    hide Digits4;
    assert t[4..] == rest;
  }

  lemma EscapeIsRead(w: seq<byte>, c: nat, rest: seq<byte>)
    requires IsScalar(c) && IsUnicodeEscape(w, c)
    ensures StrCharacter(w + rest) == Got(c, rest)
  {
    EscapeDigits(w, c, rest);
    hide Hex4, Digits4;
    assert (w + rest)[1..][1..] == (w + rest)[2..];
  }

  lemma PairIsRead(w: seq<byte>, c: nat, rest: seq<byte>)
    requires IsScalar(c) && IsPairEscape(w, c)
    ensures StrCharacter(w + rest) == Got(c, rest)
  {
    hide Hex4, Digits4, Paired, Raw, Value, ShortEscape;
    var high, low := 0xD800 + (c - 0x10000) / 1024, 0xDC00 + (c - 0x10000) % 1024;
    SurrogatesOf(c);
    PairedIff(c, high, low);
    assert w + rest == w[..6] + (w[6..] + rest);
    EscapeDigits(w[..6], high, w[6..] + rest);
    EscapeDigits(w[6..], low, rest);
    assert (w + rest)[1..][1..] == (w + rest)[2..];
    assert w[..6][1] == 0x75;
    assert (w + rest)[1] == 0x75;
    assert (w[6..] + rest)[0] == w[6..][0] && (w[6..] + rest)[1] == w[6..][1];
  }

  /** The bytes that a read character took. */
  function Taken(s: seq<byte>, rest: seq<byte>): seq<byte>
    requires |rest| <= |s|
  {
    s[..|s| - |rest|]
  }

  /** What is read, short of the closing quote, is a legal spelling of a scalar. */
  lemma ReadIsSpelling(s: seq<byte>)
    requires StrCharacter(s).Got? && s[0] != QUOTE
    ensures var r := StrCharacter(s); Spells(Taken(s, r.rest), r.value) && s == Taken(s, r.rest) + r.rest
  {
    var r := StrCharacter(s);
    ReadsScalars(s);
    if s[0] == BACKSLASH {
      EscapeIsSpelling(s);
    } else if s[0] < 0x80 {
      assert Taken(s, r.rest) == [s[0]];
    } else {
      RawIffShortest(s, r.value, r.rest);
      hide Raw, Encode;
      assert Taken(s, r.rest) == Encode(r.value);
    }
  }

  lemma EscapeIsSpelling(s: seq<byte>)
    requires s != [] && s[0] == BACKSLASH && Escape(s[1..]).Got?
    ensures var r := Escape(s[1..]);
            IsScalar(r.value) ==> Spells(Taken(s, r.rest), r.value) && s == Taken(s, r.rest) + r.rest
  {
    hide Encode;
    var r := Escape(s[1..]);
    if s[1] == 0x75 {
      var t := s[2..];
      assert s[1..][1..] == t;
      var v := Hex4(t).value;
      if 0xD800 <= v <= 0xDBFF {
        PairIsSpelling(s);
      } else {
        Hex4IffDigits(t, v);
        assert t[..4] == s[..6][2..];
        assert r.rest == s[6..] && Taken(s, r.rest) == s[..6];
      }
    } else {
      assert Taken(s, r.rest) == s[..2] && r.rest == s[2..];
    }
  }

  lemma PairIsSpelling(s: seq<byte>)
    requires |s| >= 2 && s[0] == BACKSLASH && s[1] == 0x75 && Unicode(s[2..]).Got?
    requires 0xD800 <= Hex4(s[2..]).value <= 0xDBFF
    ensures var r := Unicode(s[2..]); IsPairEscape(Taken(s, r.rest), r.value) && s == Taken(s, r.rest) + r.rest
  {
    hide Digits4, Spelt16, Paired, HexValue;
    var r := Unicode(s[2..]);
    var t := s[2..];
    var v := Hex4(t).value;
    Hex4IffDigits(t, v);
    assert t[..4] == s[..6][2..];
    var u := t[4..][2..];
    var low := Hex4(u).value;
    Hex4IffDigits(u, low);
    PairedIff(r.value, v, low);
    var w := Taken(s, r.rest);
    assert r.rest == s[12..] && w == s[..12];
    assert u[..4] == w[6..][2..];
    assert w[..6] == s[..6];
    assert w[6..][0] == t[4..][0] && w[6..][1] == t[4..][1];
  }

  /** A scalar with one of its spellings. */
  datatype Spelled = Spelled(bytes: seq<byte>, c: nat)

  predicate Spelt(ws: seq<Spelled>) {
    forall w :: w in ws ==> Spells(w.bytes, w.c)
  }

  /** The body as written, and the UTF-8 of its scalars. */
  function Written(ws: seq<Spelled>): seq<byte> {
    if ws == [] then [] else ws[0].bytes + Written(ws[1..])
  }

  function Meant(ws: seq<Spelled>): seq<byte>
    requires Spelt(ws)
  {
    if ws == [] then [] else Encode(ws[0].c) + Meant(ws[1..])
  }

  /** A written body decodes to the UTF-8 of its scalars, unless that is too long. */
  lemma {:induction false} BodyOfWritten(ws: seq<Spelled>, done: seq<byte>, rest: seq<byte>)
    requires Spelt(ws) && |done| <= STR_MAX
    ensures Body(Written(ws) + [QUOTE] + rest, done) ==
            if |done| + |Meant(ws)| <= STR_MAX then Got(done + Meant(ws), rest) else Fail
  {
    hide Spells, StrCharacter, Encode;
    var s := Written(ws) + [QUOTE] + rest;
    if ws == [] {
      assert s[1..] == rest && done + [] == done;
    } else {
      var w := ws[0];
      var after := Written(ws[1..]) + [QUOTE] + rest;
      assert s == w.bytes + after;
      SpellingIsRead(w.bytes, w.c, after);
      if |done| + EncodedSize(w.c) <= STR_MAX {
        BodyOfWritten(ws[1..], done + Encode(w.c), rest);
        assert done + Encode(w.c) + Meant(ws[1..]) == done + Meant(ws);
      }
    }
  }

  /** A body that is accepted was written in legal spellings of the scalars it decodes to. */
  lemma {:induction false} BodyIsWritten(s: seq<byte>, done: seq<byte>) returns (ws: seq<Spelled>)
    requires Body(s, done).Got?
    ensures Spelt(ws) && s == Written(ws) + [QUOTE] + Body(s, done).rest
    ensures Body(s, done).value == done + Meant(ws)
    ensures |done| <= STR_MAX ==> |done + Meant(ws)| <= STR_MAX
    decreases |s|
  {
    hide Spells, StrCharacter, Encode;
    var r := Body(s, done);
    ws := [];
    if s[0] == QUOTE {
      assert s == [QUOTE] + r.rest && done + [] == done;
    } else {
      ReadIsSpelling(s);
      ReadsScalars(s);
      var got := StrCharacter(s);
      var w := Spelled(Taken(s, got.rest), got.value);
      assert r == Body(got.rest, done + Encode(got.value));
      var tail := BodyIsWritten(got.rest, done + Encode(got.value));
      hide Body, Taken;
      ws := [w] + tail;
      assert ws[1..] == tail;
      Regroup(w.bytes, Written(tail), [QUOTE], r.rest);
      Regroup(done, Encode(got.value), Meant(tail), []);
    }
  }

  /** Some legal spelling of the string value stands in front of `rest`. */
  ghost predicate WrittenAs(s: seq<byte>, v: seq<byte>, rest: seq<byte>) {
    exists ws: seq<Spelled> :: Spelt(ws) && s == [QUOTE] + (Written(ws) + [QUOTE] + rest) && v == Meant(ws)
  }

  /**
  A string is read exactly when it is written with legal spellings of scalars and is not
  too long, and it is read as the UTF-8 of those scalars.
   */
  lemma StrIffWritten(s: seq<byte>, v: seq<byte>, rest: seq<byte>)
    ensures Str(s) == Got(v, rest) <==> WrittenAs(s, v, rest) && |v| <= STR_MAX
  {
    hide Spells, Encode, Body, Meant, Written;
    if Str(s) == Got(v, rest) {
      var ws := BodyIsWritten(s[1..], []);
      assert [] + Meant(ws) == Meant(ws);
      assert s == [QUOTE] + s[1..];
    }
    if WrittenAs(s, v, rest) && |v| <= STR_MAX {
      var ws :| Spelt(ws) && s == [QUOTE] + (Written(ws) + [QUOTE] + rest) && v == Meant(ws);
      BodyOfWritten(ws, [], rest);
      assert [] + Meant(ws) == Meant(ws);
      assert s[1..] == Written(ws) + [QUOTE] + rest;
    }
  }

  lemma Regroup(a: seq<byte>, b: seq<byte>, c: seq<byte>, d: seq<byte>)
    ensures a + (b + c + d) == a + b + c + d
    ensures a + b + c == a + (b + c)
  {
  }
}
