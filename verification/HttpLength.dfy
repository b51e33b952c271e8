/**
Content-Length (http/http_request.c): the decimal parser with its overflow test, and how
the header fields of a request settle the length of its body (section 6.2 of RFC 9112).
 */
module HttpLength {
  import opened Bytes

  const CONTENT_LENGTH_MAX := 64 * 1024 * 1024

  predicate IsOws(b: byte) {
    b == 0x20 || b == 0x09
  }

  predicate IsDigit(b: byte) {
    0x30 <= b <= 0x39
  }

  predicate Digits(s: seq<byte>) {
    s != [] && forall i :: 0 <= i < |s| ==> IsDigit(s[i])
  }

  /** White space from one position to another. */
  predicate BlankFrom(s: seq<byte>, i: nat, j: nat)
    requires i <= j <= |s|
  {
    forall k :: i <= k < j ==> s[k] == ' ' as byte || s[k] == '\t' as byte
  }

  function DigitValue(b: byte): nat
    requires IsDigit(b)
  {
    b as int - 0x30
  }

  /** The number written in decimal, most significant digit first. */
  function Decimal(s: seq<byte>): nat
    requires forall i :: 0 <= i < |s| ==> IsDigit(s[i])
  {
    if s == [] then 0 else Decimal(s[..|s| - 1]) * 10 + DigitValue(s[|s| - 1])
  }

  /** More digits never make the number smaller. */
  lemma {:induction false} DecimalGrows(s: seq<byte>, n: nat)
    requires (forall i :: 0 <= i < |s| ==> IsDigit(s[i])) && n <= |s|
    ensures Decimal(s[..n]) <= Decimal(s)
    decreases |s|
  {
    if n < |s| {
      var front := s[..|s| - 1];
      assert front[..n] == s[..n];
      DecimalGrows(front, n);
    } else {
      assert s[..n] == s;
    }
  }

  /** White space, a number in decimal, white space. */
  ghost predicate Padded(value: seq<byte>, before: nat, end: nat) {
    && before < end <= |value| && BlankFrom(value, 0, before) && BlankFrom(value, end, |value|)
    && forall k :: before <= k < end ==> IsDigit(value[k])
  }

  /** The field value is legal and says this length. */
  ghost predicate Says(value: seq<byte>, length: nat) {
    exists before: nat, end: nat :: Padded(value, before, end) && Decimal(value[before..end]) == length
  }

  lemma PaddedOnce(value: seq<byte>, a: nat, b: nat, c: nat, d: nat)
    requires Padded(value, a, b) && Padded(value, c, d)
    ensures a == c && b == d
  {
    assert IsDigit(value[a]) && IsDigit(value[c]) && IsDigit(value[b - 1]) && IsDigit(value[d - 1]);
  }

  /** A field value says at most one length. */
  lemma SaysOnce(value: seq<byte>, m: nat, n: nat)
    requires Says(value, m) && Says(value, n)
    ensures m == n
  {
    var a: nat, b: nat :| Padded(value, a, b) && Decimal(value[a..b]) == m;
    var c: nat, d: nat :| Padded(value, c, d) && Decimal(value[c..d]) == n;
    PaddedOnce(value, a, b, c, d);
  }

  /** The two loops that narrow a value to what is between its white space. */
  method Strip(value: seq<byte>) returns (i: nat, end: nat)
    ensures i <= end <= |value| && BlankFrom(value, 0, i) && BlankFrom(value, end, |value|)
    ensures i < end ==> !IsOws(value[i]) && !IsOws(value[end - 1])
  {
    i, end := 0, |value|;
    while i < end && (value[i] == 0x20 || value[i] == 0x09)
      invariant 0 <= i <= end && BlankFrom(value, 0, i)
    {
      i := i + 1;
    }
    while end > i && (value[end - 1] == 0x20 || value[end - 1] == 0x09)
      invariant i <= end <= |value| && BlankFrom(value, end, |value|)
      invariant i < end ==> !IsOws(value[i])
    {
      end := end - 1;
    }
  }

  /** A legal value narrows to its digits. */
  lemma StripFindsDigits(value: seq<byte>, i: nat, end: nat, length: nat)
    requires i <= end <= |value| && BlankFrom(value, 0, i) && BlankFrom(value, end, |value|)
    requires i < end ==> !IsOws(value[i]) && !IsOws(value[end - 1])
    ensures Says(value, length) <==> Digits(value[i..end]) && Decimal(value[i..end]) == length
  {
    if Says(value, length) {
      var a: nat, b: nat :| Padded(value, a, b) && Decimal(value[a..b]) == length;
      assert IsDigit(value[a]) && IsDigit(value[b - 1]);
      assert a == i && b == end;
    }
    if Digits(value[i..end]) && Decimal(value[i..end]) == length {
      assert forall k :: i <= k < end ==> value[i..end][k - i] == value[k];
      assert Padded(value, i, end);
    }
  }

  /** The digit loop; its overflow test refuses exactly the numbers that do not fit. */
  method ParseDigits(s: seq<byte>) returns (length: Option<nat>)
    requires s != []
    ensures length.Some? <==> Digits(s) && Decimal(s) <= UW_MAX
    ensures length.Some? ==> length.value == Decimal(s)
  {
    var i: nat, n: nat := 0, 0;
    while i < |s|
      invariant 0 <= i <= |s| && forall k :: 0 <= k < i ==> IsDigit(s[k])
      invariant n == Decimal(s[..i]) <= UW_MAX
    {
      if s[i] < 0x30 || s[i] > 0x39 { return None; }
      var digit := s[i] as int - 0x30;
      assert s[..i + 1][..i] == s[..i];
      assert Decimal(s[..i + 1]) == n * 10 + digit;
      if n > (UW_MAX - digit) / 10 {
        if Digits(s) { DecimalGrows(s, i + 1); }
        return None;
      }
      n := n * 10 + digit;
      i := i + 1;
    }
    assert s[..i] == s;
    return Some(n);
  }

  /** http_request_content_length_parse: exactly the decimal values that fit a word. */
  method ContentLengthParse(value: seq<byte>) returns (length: Option<nat>)
    ensures forall n: nat :: length == Some(n) <==> Says(value, n) && n <= UW_MAX
  {
    hide Says, Decimal;
    var i, end := Strip(value);
    forall n: nat ensures Says(value, n) <==> Digits(value[i..end]) && Decimal(value[i..end]) == n {
      StripFindsDigits(value, i, end, n);
    }
    if i == end { return None; }
    length := ParseDigits(value[i..end]);
  }

  // ---------- every length can be written ----------

  function Written(n: nat): (s: seq<byte>)
    ensures Digits(s)
  {
    if n < 10 then [(0x30 + n) as byte] else Written(n / 10) + [(0x30 + n % 10) as byte]
  }

  lemma {:induction false} WrittenSays(n: nat)
    ensures Decimal(Written(n)) == n
  {
    var s := Written(n);
    if n < 10 {
      assert s[..0] == [];
    } else {
      WrittenSays(n / 10);
      assert s[..|s| - 1] == Written(n / 10);
    }
  }

  /** With white space on either side, and any number of zeros in front, the length is said. */
  lemma PaddedWrittenSays(before: seq<byte>, zeros: nat, n: nat, after: seq<byte>)
    requires BlankFrom(before, 0, |before|) && BlankFrom(after, 0, |after|)
    ensures Says(before + seq(zeros, _ => 0x30) + Written(n) + after, n)
  {
    var zs := seq(zeros, _ => 0x30);
    var value := before + zs + Written(n) + after;
    var a, b := |before|, |before| + zeros + |Written(n)|;
    WrittenSays(n);
    LeadingZeros(zeros, Written(n));
    hide Decimal;
    assert value[..a] == before && value[b..] == after && value[a..b] == zs + Written(n);
    assert Padded(value, a, b);
  }

  lemma {:induction false} LeadingZeros(zeros: nat, s: seq<byte>)
    requires forall i :: 0 <= i < |s| ==> IsDigit(s[i])
    ensures Decimal(seq(zeros, _ => 0x30) + s) == Decimal(s)
    decreases zeros + |s|
  {
    var t := seq(zeros, _ => 0x30) + s;
    if s != [] {
      assert t[..|t| - 1] == seq(zeros, _ => 0x30) + s[..|s| - 1];
      LeadingZeros(zeros, s[..|s| - 1]);
    } else if zeros > 0 {
      assert t[..|t| - 1] == seq(zeros - 1, _ => 0x30) + s;
      LeadingZeros(zeros - 1, s);
    }
  }

  // ---------- the fields of a request ----------

  /** The fields that matter for framing. */
  datatype Field = ContentLength(value: seq<byte>) | TransferEncoding | Other

  /** Every field agrees that the body has this length. */
  ghost predicate Agree(fields: seq<Field>, length: nat) {
    forall f :: f in fields && f.ContentLength? ==> Says(f.value, length)
  }

  /** The fields settle the length: none of them asks for another framing, and all agree. */
  ghost predicate Settled(fields: seq<Field>, length: nat) {
    && TransferEncoding !in fields && Agree(fields, length) && length <= 67_108_864
    && ((forall f :: f in fields ==> !f.ContentLength?) ==> length == 0)
  }

  lemma SettledOnce(fields: seq<Field>, m: nat, n: nat)
    requires Settled(fields, m) && Settled(fields, n)
    ensures m == n
  {
    hide Says;
    if f :| f in fields && f.ContentLength? {
      SaysOnce(f.value, m, n);
    }
  }

  /**
  The header loop of http_request_buf_parse: refused are a Transfer-Encoding, a length that
  is not a number, two different lengths and a length above the maximum. Without a field
  the body is empty.
   */
  method BodyLength(fields: seq<Field>) returns (length: Option<nat>)
    ensures length.Some? ==> Settled(fields, length.value)
    ensures length.Some? <==>
            TransferEncoding !in fields && exists n: nat :: n <= 67_108_864 && Agree(fields, n)
  {
    hide Says;
    var known, n: nat, i := false, 0, 0;
    while i < |fields|
      invariant 0 <= i <= |fields| && n <= CONTENT_LENGTH_MAX
      invariant TransferEncoding !in fields[..i] && Agree(fields[..i], n)
      invariant known ==> exists f :: f in fields[..i] && f.ContentLength?
      decreases |fields| - i
      invariant !known ==> n == 0 && forall f :: f in fields[..i] ==> !f.ContentLength?
    {
      assert fields[..i + 1] == fields[..i] + [fields[i]];
      assert fields[i] in fields[..i + 1] && forall f :: f in fields[..i] ==> f in fields[..i + 1];
      match fields[i] {
        case ContentLength(value) =>
          var parsed := ContentLengthParse(value);
          if parsed.None? || (known && n != parsed.value) || parsed.value > CONTENT_LENGTH_MAX {
            Refused(fields, i, n, known, parsed);
            return None;
          }
          assert Says(value, parsed.value);
          known, n := true, parsed.value;
        case TransferEncoding => return None;
        case Other =>
      }
      i := i + 1;
    }
    assert fields[..i] == fields;
    return Some(n);
  }

  /** What the loop has seen rules out every length. */
  lemma Refused(fields: seq<Field>, i: nat, n: nat, known: bool, parsed: Option<nat>)
    requires i < |fields| && fields[i].ContentLength?
    requires Agree(fields[..i], n) && (known ==> exists f :: f in fields[..i] && f.ContentLength?)
    requires forall m: nat :: parsed == Some(m) <==> Says(fields[i].value, m) && m <= UW_MAX
    requires parsed.None? || (known && n != parsed.value) || parsed.value > CONTENT_LENGTH_MAX
    ensures forall m: nat :: m <= CONTENT_LENGTH_MAX ==> !Agree(fields, m)
  {
    hide Says;
    forall m: nat | m <= CONTENT_LENGTH_MAX && Agree(fields, m) ensures false {
      assert Says(fields[i].value, m);
      assert parsed == Some(m);
      var f :| f in fields[..i] && f.ContentLength?;
      assert f in fields;
      SaysOnce(f.value, n, m);
    }
  }
}
