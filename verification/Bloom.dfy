/**
The changed-path Bloom filters of a commit-graph (git/log.c, log_graph_bloom_contains and
log_graph_entry_path_maybe_changed). A filter answers "maybe" or "certainly not"; the
module proves that it never answers "certainly not" for a path that did change, whatever
the hash functions are.
 */
module Bloom {
  import opened Bytes
  import opened GitTree
  import opened GitPath
  import opened GraphFile

  /** murmur3 with its seed, data and version: any fixed function to 32-bit words. */
  type Hasher = (u32, seq<byte>, u32) -> u32

  const SEED_0: u32 := 0x293ae76f
  const SEED_1: u32 := 0x7e646e2c

  datatype Filter = Filter(bits: seq<byte>, hashCount: u32, version: u32)

  // ---------- bits ----------

  /** Binary digit k of a number. */
  predicate Digit(n: nat, k: nat) {
    if k == 0 then n % 2 == 1 else Digit(n / 2, k - 1)
  }

  /** The number with binary digit k set. */
  function WithDigit(n: nat, k: nat): nat {
    if k == 0 then n / 2 * 2 + 1 else WithDigit(n / 2, k - 1) * 2 + n % 2
  }

  lemma {:induction false} WithDigitEffect(n: nat, k: nat, j: nat)
    ensures Digit(WithDigit(n, k), j) <==> Digit(n, j) || j == k
  {
    if k > 0 && j > 0 { WithDigitEffect(n / 2, k - 1, j - 1); }
  }

  lemma WithDigitStep(n: nat, k: nat)
    requires k > 0
    ensures WithDigit(n, k) == WithDigit(n / 2, k - 1) * 2 + n % 2
  {
  }

  /** Setting a digit below the width keeps the number within the width. */
  lemma {:induction false} WithDigitFits(n: nat, k: nat, width: nat, bound: nat)
    requires k < width && n < bound && bound == TwoTo(width)
    ensures WithDigit(n, k) < bound
  {
    var half := TwoTo(width - 1);
    assert bound == 2 * half;
    if k > 0 {
      WithDigitFits(n / 2, k - 1, width - 1, half);
      WithDigitStep(n, k);
    } else {
      assert WithDigit(n, k) == n / 2 * 2 + 1;
    }
  }

  function TwoTo(width: nat): nat {
    if width == 0 then 1 else 2 * TwoTo(width - 1)
  }

  predicate ByteHas(b: byte, k: nat) {
    Digit(b as int, k)
  }

  function ByteWith(b: byte, k: nat): byte
    requires k < 8
  {
    assert TwoTo(8) == 256 by { assert TwoTo(4) == 16; }
    WithDigitFits(b as int, k, 8, 256);
    WithDigit(b as int, k) as byte
  }

  predicate BitSet(bits: seq<byte>, bit: nat)
    requires bit < |bits| * 8
  {
    ByteHas(bits[bit / 8], bit % 8)
  }

  function SetBit(bits: seq<byte>, bit: nat): (r: seq<byte>)
    requires bit < |bits| * 8
    ensures |r| == |bits|
  {
    bits[bit / 8 := ByteWith(bits[bit / 8], bit % 8)]
  }

  /** Setting a bit sets that bit and keeps all others as they were. */
  lemma SetBitEffect(bits: seq<byte>, bit: nat, other: nat)
    requires bit < |bits| * 8 && other < |bits| * 8
    ensures BitSet(SetBit(bits, bit), other) <==> BitSet(bits, other) || other == bit
  {
    WithDigitEffect(bits[bit / 8] as int, bit % 8, other % 8);
    hide Digit, WithDigit, TwoTo;
  }

  // ---------- keys ----------

  /** The bit of the i-th probe for a key, in wrapping 32-bit arithmetic. */
  function Probe(hash: Hasher, size: nat, version: u32, key: seq<byte>, i: nat): (bit: nat)
    requires size > 0
    ensures bit < size * 8
  {
    (hash(SEED_0, key, version) + i * hash(SEED_1, key, version)) % U32_MODULUS % (size * 8)
  }

  ghost predicate Contains(hash: Hasher, f: Filter, key: seq<byte>)
    requires f.bits != []
  {
    forall i :: 0 <= i < f.hashCount ==> BitSet(f.bits, Probe(hash, |f.bits|, f.version, key, i))
  }

  /** log_graph_bloom_contains. */
  method BloomContains(hash: Hasher, f: Filter, key: seq<byte>) returns (r: bool)
    requires f.bits != []
    ensures r <==> Contains(hash, f, key)
  {
    hide Probe, BitSet;
    var i := 0;
    while i < f.hashCount
      invariant 0 <= i <= f.hashCount
      invariant forall j :: 0 <= j < i ==> BitSet(f.bits, Probe(hash, |f.bits|, f.version, key, j))
    {
      if !BitSet(f.bits, Probe(hash, |f.bits|, f.version, key, i)) {
        return false;
      }
      i := i + 1;
    }
    return true;
  }

  const WEIGHTS: seq<nat> := [1, 2, 4, 8, 16, 32, 64, 128]

  /** Digit k of a number is the one of weight 2^k. */
  lemma {:induction false} DigitByWeight(n: nat, k: nat)
    requires k < 8
    ensures Digit(n, k) <==> n / WEIGHTS[k] % 2 == 1
  {
    if k > 0 {
      DigitByWeight(n / 2, k - 1);
      HalvedWeight(n, k);
    }
  }

  lemma HalvedWeight(n: nat, k: nat)
    requires 0 < k < 8
    ensures n / 2 / WEIGHTS[k - 1] == n / WEIGHTS[k]
  {
    assert n / 2 / 2 == n / 4 && n / 2 / 4 == n / 8 && n / 2 / 8 == n / 16;
    assert n / 2 / 16 == n / 32 && n / 2 / 32 == n / 64 && n / 2 / 64 == n / 128;
  }

  /** Bit number b of a filter has weight 2^(b mod 8) in byte b / 8. */
  ghost predicate WeightSet(bits: seq<byte>, b: nat)
    requires b < 8 * |bits|
  {
    bits[b / 8] as int / [1, 2, 4, 8, 16, 32, 64, 128][b % 8] % 2 == 1
  }

  /** Probe i of a key, written out: the two seeds, and a sum that wraps at 2^32. */
  ghost function AskedBit(hash: Hasher, f: Filter, key: seq<byte>, i: nat): nat
    requires f.bits != []
  {
    (hash(0x293a_e76f, key, f.version) + i * hash(0x7e64_6e2c, key, f.version)) % 4294967296 % (8 * |f.bits|)
  }

  /** The query asks these bits and no others. */
  lemma ContainsByWeights(hash: Hasher, f: Filter, key: seq<byte>)
    requires f.bits != []
    ensures Contains(hash, f, key) <==>
            forall i :: 0 <= i < f.hashCount ==> WeightSet(f.bits, AskedBit(hash, f, key, i))
  {
    hide ByteHas, WeightSet, BitSet;
    forall i: nat | i < f.hashCount
      ensures AskedBit(hash, f, key, i) == Probe(hash, |f.bits|, f.version, key, i)
      ensures BitSet(f.bits, Probe(hash, |f.bits|, f.version, key, i)) <==>
              WeightSet(f.bits, AskedBit(hash, f, key, i))
    {
      BitByWeight(f.bits, Probe(hash, |f.bits|, f.version, key, i));
    }
  }

  lemma BitByWeight(bits: seq<byte>, bit: nat)
    requires bit < 8 * |bits|
    ensures BitSet(bits, bit) <==> WeightSet(bits, bit)
  {
    hide Digit;
    DigitByWeight(bits[bit / 8] as int, bit % 8);
  }

  // ---------- building a filter ----------

  function AddProbes(hash: Hasher, f: Filter, key: seq<byte>, n: nat): (r: Filter)
    requires f.bits != []
    ensures |r.bits| == |f.bits| && r.hashCount == f.hashCount && r.version == f.version
  {
    if n == 0 then f
    else
      var g := AddProbes(hash, f, key, n - 1);
      g.(bits := SetBit(g.bits, Probe(hash, |f.bits|, f.version, key, n - 1)))
  }

  function Build(hash: Hasher, empty: Filter, keys: seq<seq<byte>>): (r: Filter)
    requires empty.bits != []
    ensures |r.bits| == |empty.bits| && r.hashCount == empty.hashCount && r.version == empty.version
  {
    if keys == [] then empty
    else
      var f := Build(hash, empty, keys[..|keys| - 1]);
      AddProbes(hash, f, keys[|keys| - 1], f.hashCount)
  }

  lemma {:induction false} AddProbesSets(hash: Hasher, f: Filter, key: seq<byte>, n: nat, bit: nat)
    requires f.bits != [] && bit < |f.bits| * 8
    ensures BitSet(f.bits, bit) ==> BitSet(AddProbes(hash, f, key, n).bits, bit)
    ensures (exists i :: 0 <= i < n && Probe(hash, |f.bits|, f.version, key, i) == bit) ==>
              BitSet(AddProbes(hash, f, key, n).bits, bit)
  {
    hide Probe, BitSet, SetBit;
    if n > 0 {
      AddProbesSets(hash, f, key, n - 1, bit);
      SetBitEffect(AddProbes(hash, f, key, n - 1).bits, Probe(hash, |f.bits|, f.version, key, n - 1), bit);
    }
  }

  /** A filter contains every key that was added to it, however many were added later. */
  lemma {:induction false} BuildContains(hash: Hasher, empty: Filter, keys: seq<seq<byte>>, k: nat)
    requires empty.bits != [] && k < |keys|
    ensures Contains(hash, Build(hash, empty, keys), keys[k])
    decreases |keys|
  {
    hide Probe, BitSet, AddProbes;
    var last := |keys| - 1;
    var f := Build(hash, empty, keys[..last]);
    if k < last { BuildContains(hash, empty, keys[..last], k); }
    forall i | 0 <= i < f.hashCount
      ensures BitSet(Build(hash, empty, keys).bits, Probe(hash, |f.bits|, f.version, keys[k], i))
    {
      AddProbesSets(hash, f, keys[last], f.hashCount, Probe(hash, |f.bits|, f.version, keys[k], i));
    }
  }

  // ---------- leading directories ----------

  /** One past the last '/', or 0. */
  function AfterLastSlash(path: seq<byte>): (n: nat)
    ensures n <= |path|
    ensures n > 0 ==> path[n - 1] == '/' as byte
    ensures forall i :: n <= i < |path| ==> path[i] != '/' as byte
  {
    if path == [] then 0
    else if path[|path| - 1] == '/' as byte then |path|
    else AfterLastSlash(path[..|path| - 1])
  }

  /** The keys the query loop looks up, longest first. */
  function Leading(path: seq<byte>): seq<seq<byte>>
    decreases |path|
  {
    if path == [] then []
    else if AfterLastSlash(path) == 0 then [path]
    else [path] + Leading(path[..AfterLastSlash(path) - 1])
  }

  ghost predicate IsLeading(path: seq<byte>, p: seq<byte>) {
    && p != []
    && (p == path || (|p| < |path| && p == path[..|p|] && path[|p|] == '/' as byte))
  }

  /** The loop visits exactly the path and its non-empty leading directories. */
  lemma {:induction false} LeadingIsExact(path: seq<byte>, p: seq<byte>)
    ensures p in Leading(path) <==> IsLeading(path, p)
    decreases |path|
  {
    hide AfterLastSlash;
    var n := AfterLastSlash(path);
    if path != [] && n > 0 {
      var front := path[..n - 1];
      LeadingIsExact(front, p);
      if |p| < n - 1 { assert front[..|p|] == path[..|p|]; }
    }
  }

  // ---------- the query ----------

  /** The filter of a commit, when the file has one that this version understands. */
  function FilterOf(f: File, index: nat): (r: Option<Filter>)
    requires Bounded(f) && index < f.commitCount
    ensures r.Some? ==> r.value.bits != []
  {
    if f.bloomIndex.None? then None else
    var bits := f.bloomData.value;
    var version, hashCount := Be32(f.data, bits.at), Be32(f.data, bits.at + 4);
    if (version != 1 && version != 2) || hashCount == 0 || hashCount > 32 then None else
    var end := Be32(f.data, f.bloomIndex.value.at + index * 4);
    var start := if index == 0 then 0 else Be32(f.data, f.bloomIndex.value.at + (index - 1) * 4);
    if end < start || end > bits.size - 12 || end == start then None else
    Some(Filter(f.data[bits.at + 12 + start..bits.at + 12 + end], hashCount, version))
  }

  /** log_graph_entry_path_maybe_changed. */
  method PathMaybeChanged(hash: Hasher, f: File, index: nat, path: seq<byte>) returns (r: bool)
    requires Bounded(f) && index < f.commitCount
    ensures r <==> FilterOf(f, index).None?
                   || forall p :: p in Leading(path) ==> Contains(hash, FilterOf(f, index).value, p)
  {
    LeadingEmpty();
    hide Bounded, Be32, Contains, Leading, AfterLastSlash, FilterOf;
    var found := FilterOf(f, index);
    if found.None? { return true; }
    var filter := found.value;
    var size := |path|;
    assert path[..size] == path;
    while size > 0
      invariant 0 <= size <= |path|
      invariant (forall p :: p in Leading(path) ==> Contains(hash, filter, p))
                <==> (forall p :: p in Leading(path[..size]) ==> Contains(hash, filter, p))
    {
      var key := path[..size];
      var maybe := BloomContains(hash, filter, key);
      LeadingHead(key);
      if !maybe { return false; }
      var i := size;
      while i > 0 && path[i - 1] != '/' as byte
        invariant 0 <= i <= size
        invariant forall j :: i <= j < size ==> path[j] != '/' as byte
      {
        i := i - 1;
      }
      assert AfterLastSlash(key) == i;
      if i == 0 { return true; }
      assert key[..i - 1] == path[..i - 1];
      size := i - 1;
    }
    return true;
  }

  lemma LeadingEmpty()
    ensures Leading([]) == []
  {
  }

  lemma LeadingHead(key: seq<byte>)
    requires key != []
    ensures forall p :: p in Leading(key) <==>
                        p == key || (AfterLastSlash(key) > 0 && p in Leading(key[..AfterLastSlash(key) - 1]))
  {
    hide AfterLastSlash;
  }

  /** Every non-empty path that differs between the two trees was put into the filter. */
  ghost predicate HoldsChanges(hash: Hasher, odb: Odb, a: Option<Oid>, b: Option<Oid>, f: Filter)
    requires f.bits != []
  {
    forall p :: p != [] && Differs(odb, a, b, p) ==> Contains(hash, f, p)
  }

  /** A filter built from a list of keys that covers the changed paths holds them. */
  lemma BuiltFilterHoldsChanges(hash: Hasher, odb: Odb, a: Option<Oid>, b: Option<Oid>,
                                empty: Filter, keys: seq<seq<byte>>)
    requires empty.bits != []
    requires forall p :: p != [] && Differs(odb, a, b, p) ==> p in keys
    ensures HoldsChanges(hash, odb, a, b, Build(hash, empty, keys))
  {
    forall p | p != [] && Differs(odb, a, b, p) ensures Contains(hash, Build(hash, empty, keys), p) {
      var k :| 0 <= k < |keys| && keys[k] == p;
      BuildContains(hash, empty, keys, k);
    }
  }

  /** So a changed path passes every probe of the query: "certainly not" is never wrong. */
  lemma ChangedPathPasses(hash: Hasher, odb: Odb, a: Option<Oid>, b: Option<Oid>, f: Filter, path: seq<byte>)
    requires f.bits != [] && HoldsChanges(hash, odb, a, b, f)
    requires Differs(odb, a, b, path)
    ensures forall p :: p in Leading(path) ==> Contains(hash, f, p)
  {
    hide Differs, Contains, Leading;
    forall p | p in Leading(path) ensures Contains(hash, f, p) {
      LeadingIsExact(path, p);
      if p != path {
        LeadingDirectoryDiffers(odb, a, b, path, |p|);
      }
    }
  }
}
