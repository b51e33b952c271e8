/**
Serialized git trees (git/log.c, log_tree_entry_object): the format as an encoder, the
scanner that looks one name up in the bytes, and the proof that the scanner answers
exactly for what was encoded.
 */
module GitTree {
  import opened Bytes

  const OID_RAWSZ := 20
  const FILEMODE_TREE := 16384  // octal 0040000

  type Oid = s: seq<byte> | |s| == 20 witness seq(20, _ => 0)

  datatype Node = Node(mode: u32, oid: Oid)
  datatype Found = Malformed | Absent | Present(node: Node)
  datatype Object = TreeObject(data: seq<byte>) | OtherObject
  datatype TreeEntry = TreeEntry(digits: seq<byte>, name: seq<byte>, oid: Oid)

  // ---------- the format ----------

  predicate IsOctal(b: byte) {
    '0' as byte <= b <= '7' as byte
  }

  predicate ValidEntry(e: TreeEntry) {
    && (forall i :: 0 <= i < |e.digits| ==> IsOctal(e.digits[i]))
    && 0 !in e.name
  }

  predicate AllValid(es: seq<TreeEntry>) {
    forall i :: 0 <= i < |es| ==> ValidEntry(es[i])
  }

  function EncodeEntry(e: TreeEntry): seq<byte> {
    e.digits + [' ' as byte] + e.name + [0] + e.oid
  }

  function EncodeTree(es: seq<TreeEntry>): seq<byte> {
    if es == [] then [] else EncodeEntry(es[0]) + EncodeTree(es[1..])
  }

  /** The value of an octal string in the 32-bit mode variable. */
  function Mode(digits: seq<byte>): u32
    requires forall i :: 0 <= i < |digits| ==> IsOctal(digits[i])
  {
    if digits == [] then 0
    else (Mode(digits[..|digits| - 1]) * 8 + digits[|digits| - 1] as int - 48) % U32_MODULUS
  }

  /** The first entry with a name: what a lookup in the tree is supposed to answer. */
  function First(es: seq<TreeEntry>, name: seq<byte>): Found
    requires AllValid(es)
  {
    if es == [] then Absent else
    assert ValidEntry(es[0]);
    if es[0].name == name then Present(Node(Mode(es[0].digits), es[0].oid))
    else First(es[1..], name)
  }

  // ---------- reading one entry ----------

  /** Length of the leading run of octal digits. */
  function OctalLength(s: seq<byte>): (n: nat)
    ensures n <= |s|
    ensures forall i :: 0 <= i < n ==> IsOctal(s[i])
    ensures n < |s| ==> !IsOctal(s[n])
  {
    if s == [] || !IsOctal(s[0]) then 0 else 1 + OctalLength(s[1..])
  }

  /** Distance to the first zero byte, or the whole length when there is none. */
  function ZeroOffset(s: seq<byte>): (n: nat)
    ensures n <= |s|
    ensures forall i :: 0 <= i < n ==> s[i] != 0
    ensures n < |s| ==> s[n] == 0
  {
    if s == [] || s[0] == 0 then 0 else 1 + ZeroOffset(s[1..])
  }

  datatype Parsed = Parsed(entry: TreeEntry, rest: seq<byte>)

  function ParseEntry(s: seq<byte>): (r: Option<Parsed>)
    ensures r.Some? ==> ValidEntry(r.value.entry) && |r.value.rest| < |s|
  {
    var space := OctalLength(s);
    if space >= |s| || s[space] != ' ' as byte then None else
    var name := s[space + 1..];
    var length := ZeroOffset(name);
    if length >= |name| || |name| - length - 1 < OID_RAWSZ then None else
    var after := name[length + 1..];
    Some(Parsed(TreeEntry(s[..space], name[..length], after[..OID_RAWSZ]), after[OID_RAWSZ..]))
  }

  /** An entry that was read is what the bytes start with. */
  lemma ParseSound(s: seq<byte>)
    requires ParseEntry(s).Some?
    ensures s == EncodeEntry(ParseEntry(s).value.entry) + ParseEntry(s).value.rest
  {
    hide OctalLength, ZeroOffset;
  }

  /** The scan of log_tree_entry_object over the bytes that remain. */
  function Scan(s: seq<byte>, name: seq<byte>): Found
    decreases |s|
  {
    if s == [] then Absent else
    match ParseEntry(s)
    case None => Malformed
    case Some(p) =>
      if p.entry.name == name then Present(Node(Mode(p.entry.digits), p.entry.oid))
      else Scan(p.rest, name)
  }

  /** Reading an encoded entry gives that entry and leaves what follows it. */
  lemma ParseEncoded(e: TreeEntry, rest: seq<byte>)
    requires ValidEntry(e)
    ensures ParseEntry(EncodeEntry(e) + rest) == Some(Parsed(e, rest))
  {
    hide OctalLength, ZeroOffset;
    var s := EncodeEntry(e) + rest;
    assert s[|e.digits|] == ' ' as byte;
    assert forall i :: 0 <= i < |e.digits| ==> s[i] == e.digits[i];
    assert OctalLength(s) == |e.digits|;
    var name := s[|e.digits| + 1..];
    assert name == e.name + [0] + e.oid + rest;
    assert forall i :: 0 <= i < |e.name| ==> name[i] == e.name[i];
    assert name[|e.name|] == 0;
    assert ZeroOffset(name) == |e.name|;
    assert name[|e.name| + 1..] == e.oid + rest;
    assert s[..|e.digits|] == e.digits && name[..|e.name|] == e.name;
  }

  /**
  A name is found in a serialized tree iff an entry with that name was encoded, and the
  answer carries the mode and id of the first such entry.
   */
  lemma {:induction false} ScanOfEncodedTree(es: seq<TreeEntry>, name: seq<byte>)
    requires AllValid(es)
    ensures Scan(EncodeTree(es), name) == First(es, name)
  {
    if es != [] {
      ParseEncoded(es[0], EncodeTree(es[1..]));
      ScanOfEncodedTree(es[1..], name);
    }
  }

  lemma EncodeCons(e: TreeEntry, es: seq<TreeEntry>)
    ensures EncodeTree([e] + es) == EncodeEntry(e) + EncodeTree(es)
  {
    assert ([e] + es)[1..] == es;
  }

  ghost predicate NoneNamed(es: seq<TreeEntry>, name: seq<byte>) {
    forall i :: 0 <= i < |es| ==> ValidEntry(es[i]) && es[i].name != name
  }

  ghost predicate HitAfter(s: seq<byte>, es: seq<TreeEntry>, hit: TreeEntry, tail: seq<byte>) {
    s == EncodeTree(es) + (EncodeEntry(hit) + tail)
  }

  lemma HitFirst(hit: TreeEntry, tail: seq<byte>)
    ensures HitAfter(EncodeEntry(hit) + tail, [], hit, tail)
  {
  }

  lemma HitAfterCons(e: TreeEntry, rest: seq<byte>, es: seq<TreeEntry>, hit: TreeEntry, tail: seq<byte>)
    requires HitAfter(rest, es, hit, tail)
    ensures HitAfter(EncodeEntry(e) + rest, [e] + es, hit, tail)
  {
    EncodeCons(e, es);
    var first, middle, last := EncodeEntry(e), EncodeTree(es), EncodeEntry(hit) + tail;
    assert first + (middle + last) == (first + middle) + last;
  }

  /**
  Conversely, on arbitrary bytes every answer other than an error exhibits the encoding
  it was read from: entries that do not match, then for a hit the matching one.
   */
  lemma {:induction false} ScanDecodes(s: seq<byte>, name: seq<byte>)
      returns (es: seq<TreeEntry>, hit: TreeEntry, tail: seq<byte>)
    ensures NoneNamed(es, name)
    ensures Scan(s, name).Absent? ==> s == EncodeTree(es)
    ensures Scan(s, name).Present? ==>
              && ValidEntry(hit) && hit.name == name
              && HitAfter(s, es, hit, tail)
              && Scan(s, name).node == Node(Mode(hit.digits), hit.oid)
    decreases |s|
  {
    hide ParseEntry, EncodeEntry;
    es, hit, tail := [], TreeEntry([], [], seq(20, _ => 0)), [];
    if s != [] && ParseEntry(s).Some? {
      var p := ParseEntry(s).value;
      ParseSound(s);
      if p.entry.name == name {
        hit, tail := p.entry, p.rest;
        HitFirst(hit, tail);
      } else {
        var es';
        es', hit, tail := ScanDecodes(p.rest, name);
        EncodeCons(p.entry, es');
        if Scan(s, name).Present? {
          HitAfterCons(p.entry, p.rest, es', hit, tail);
        }
        hide HitAfter, EncodeTree, Mode;
        es := [p.entry] + es';
      }
    }
  }

  // ---------- log_tree_entry_object ----------

  /** What ParseEntry answers at an offset, in terms of the two cursors of the C loop. */
  lemma ParseAt(data: seq<byte>, p: nat, space: nat, zero: nat)
    requires p <= space <= |data|
    requires forall i :: p <= i < space ==> IsOctal(data[i])
    requires space < |data| ==> !IsOctal(data[space])
    requires space < |data| && data[space] == ' ' as byte ==>
               && space < zero <= |data|
               && (forall i :: space < i < zero ==> data[i] != 0)
               && (zero < |data| ==> data[zero] == 0)
    ensures ParseEntry(data[p..]) ==
            if space >= |data| || data[space] != ' ' as byte || zero + OID_RAWSZ >= |data| then None
            else Some(Parsed(TreeEntry(data[p..space], data[space + 1..zero],
                                       data[zero + 1..zero + 1 + OID_RAWSZ]),
                             data[zero + 1 + OID_RAWSZ..]))
  {
    hide OctalLength, ZeroOffset, Mode, EncodeEntry;
    var s := data[p..];
    assert OctalLength(s) == space - p by {
      assert forall i :: 0 <= i < space - p ==> s[i] == data[p + i];
    }
    if space < |data| && data[space] == ' ' as byte {
      var name := s[space - p + 1..];
      assert name == data[space + 1..];
      assert ZeroOffset(name) == zero - space - 1 by {
        assert forall i :: 0 <= i < zero - space - 1 ==> name[i] == data[space + 1 + i];
      }
      if zero + OID_RAWSZ < |data| {
        var after := name[zero - space..];
        assert after == data[zero + 1..];
        assert s[..space - p] == data[p..space];
        assert name[..zero - space - 1] == data[space + 1..zero];
        assert after[..OID_RAWSZ] == data[zero + 1..zero + 1 + OID_RAWSZ];
        assert after[OID_RAWSZ..] == data[zero + 1 + OID_RAWSZ..];
      }
    }
  }

  /** One round of the C loop, as a step of Scan. */
  lemma ScanAt(data: seq<byte>, p: nat, space: nat, zero: nat, name: seq<byte>)
    requires p < |data| && p <= space <= |data|
    requires forall i :: p <= i < space ==> IsOctal(data[i])
    requires space < |data| ==> !IsOctal(data[space])
    requires space < |data| && data[space] == ' ' as byte ==>
               && space < zero <= |data|
               && (forall i :: space < i < zero ==> data[i] != 0)
               && (zero < |data| ==> data[zero] == 0)
    ensures Scan(data[p..], name) ==
            if space >= |data| || data[space] != ' ' as byte || zero + OID_RAWSZ >= |data| then Malformed
            else if data[space + 1..zero] == name
            then Present(Node(Mode(data[p..space]), data[zero + 1..zero + 1 + OID_RAWSZ]))
            else Scan(data[zero + 1 + OID_RAWSZ..], name)
  {
    ParseAt(data, p, space, zero);
  }

  /** The digit loop: the end of the octal run and its value. */
  method ReadMode(data: seq<byte>, p: nat) returns (space: nat, mode: u32)
    requires p <= |data|
    ensures p <= space <= |data|
    ensures forall i :: p <= i < space ==> IsOctal(data[i])
    ensures space < |data| ==> !IsOctal(data[space])
    ensures mode == Mode(data[p..space])
  {
    mode := 0;
    space := p;
    while space < |data| && IsOctal(data[space])
      invariant p <= space <= |data|
      invariant forall i :: p <= i < space ==> IsOctal(data[i])
      invariant mode == Mode(data[p..space])
    {
      assert data[p..space + 1][..space - p] == data[p..space];
      mode := (mode * 8 + data[space] as int - 48) % U32_MODULUS;
      space := space + 1;
    }
  }

  /** The name loop: the first zero byte from an offset on, or the end. */
  method FindZero(data: seq<byte>, start: nat) returns (zero: nat)
    requires start <= |data|
    ensures start <= zero <= |data|
    ensures forall i :: start <= i < zero ==> data[i] != 0
    ensures zero < |data| ==> data[zero] == 0
  {
    zero := start;
    while zero < |data| && data[zero] != 0
      invariant start <= zero <= |data|
      invariant forall i :: start <= i < zero ==> data[i] != 0
    {
      zero := zero + 1;
    }
  }

  lemma ScanNothing(name: seq<byte>)
    ensures Scan([], name) == Absent
  {
  }

  /**
  The scanner with its cursors. The C function returns -1 where this answers Malformed,
  and 0 with `*exists` set or cleared otherwise.
   */
  method TreeEntryObject(tree: Option<Object>, name: seq<byte>) returns (r: Found)
    ensures r == (if tree.Some? && tree.value.TreeObject? then Scan(tree.value.data, name)
                  else Malformed)
  {
    hide Scan, Mode, OctalLength, ZeroOffset;
    if tree.None? || tree.value.OtherObject? {
      return Malformed;
    }
    var data := tree.value.data;
    ScanNothing(name);
    assert data[|data|..] == [];
    var end := |data|;
    var p := 0;
    assert data[0..] == data;
    while p < end
      invariant 0 <= p <= end
      invariant Scan(data, name) == Scan(data[p..], name)
    {
      var space, mode := ReadMode(data, p);
      if space >= end || data[space] != ' ' as byte {
        ScanAt(data, p, space, space, name);
        return Malformed;
      }
      var zero := FindZero(data, space + 1);
      ScanAt(data, p, space, zero, name);
      if zero >= end || end - zero - 1 < OID_RAWSZ {
        return Malformed;
      }
      if zero - space - 1 == |name| && data[space + 1..zero] == name {
        return Present(Node(mode, data[zero + 1..zero + 1 + OID_RAWSZ]));
      }
      p := zero + 1 + OID_RAWSZ;
    }
    return Absent;
  }
}
