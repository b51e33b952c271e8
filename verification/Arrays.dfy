/**
Multi-dimensional arrays (libkc3/array.c): the strides and their overflow checks, the
address calculation, and the linear walk that copies an array.
 */
module Arrays {
  import opened Bytes

  const SIZEOF_DIMENSION := 16

  datatype Dimension = Dimension(count: nat, itemSize: nat)
  datatype Layout = Layout(dimensions: seq<Dimension>, size: nat, count: nat)

  /** The number of cells. */
  function Product(ds: seq<nat>): nat {
    if ds == [] then 1 else ds[0] * Product(ds[1..])
  }

  /** The dimensions with the bytes that one step in each skips, innermost last. */
  function Strides(ds: seq<nat>, element: nat): (r: seq<Dimension>)
    ensures |r| == |ds|
  {
    if ds == [] then [] else [Dimension(ds[0], element * Product(ds[1..]))] + Strides(ds[1..], element)
  }

  /** What array_init stores. */
  function LayoutOf(ds: seq<nat>, element: nat): Layout {
    if ds == [] then Layout([], 0, 0) else Layout(Strides(ds, element), element * Product(ds), Product(ds))
  }

  /** Every partial product, from the innermost dimension outwards, fits a word. */
  predicate Fits(ds: seq<nat>, element: nat) {
    ds == [] || (element * Product(ds) <= UW_MAX && Fits(ds[1..], element))
  }

  lemma Mul(a: nat, b: nat, c: nat)
    ensures a * (b * c) == (a * b) * c == b * (a * c)
    ensures a > 0 ==> b <= a * b
  {
  }

  /** The test by division is exact. */
  lemma DivisionTest(a: nat, d: nat)
    ensures d > 0 ==> (a > UW_MAX / d <==> a * d > UW_MAX)
  {
    if d > 0 {
      var q := UW_MAX / d;
      assert q * d <= UW_MAX < (q + 1) * d by { QuotientBounds(UW_MAX, d); }
      if a <= q { Monotone(a, q, d); } else { Monotone(q + 1, a, d); }
    }
  }

  lemma QuotientBounds(n: nat, d: nat)
    requires d > 0
    ensures n / d * d <= n < (n / d + 1) * d
  {
  }

  lemma Monotone(a: nat, b: nat, d: nat)
    requires a <= b
    ensures a * d <= b * d
  {
  }

  /**
  array_init: the layout, or nothing when the elements have no size or some product would
  wrap.
   */
  method Init(ds: seq<nat>, element: nat) returns (layout: Option<Layout>)
    requires element <= UW_MAX && |ds| <= UW_MAX && forall i :: 0 <= i < |ds| ==> ds[i] <= UW_MAX
    ensures layout == if ds == [] || (|ds| <= UW_MAX / SIZEOF_DIMENSION && element > 0 && Fits(ds, element))
                      then Some(LayoutOf(ds, element)) else None
  {
    if |ds| == 0 { return Some(Layout([], 0, 0)); }
    if |ds| > UW_MAX / SIZEOF_DIMENSION { return None; }
    if element == 0 { return None; }
    var dimensions: seq<Dimension>, count, itemSize := [], 1, element;
    var i := |ds|;
    while i > 0
      invariant 0 <= i <= |ds| && count == Product(ds[i..]) && itemSize == element * count
      invariant dimensions == Strides(ds[i..], element) && Fits(ds[i..], element)
      invariant itemSize <= UW_MAX
      invariant Fits(ds, element) ==> Fits(ds[i..], element)
    {
      i := i - 1;
      InitStep(ds, i, element, count, itemSize);
      if ds[i] > 0 && (count > UW_MAX / ds[i] || itemSize > UW_MAX / ds[i]) {
        return None;
      }
      dimensions := [Dimension(ds[i], itemSize)] + dimensions;
      count := count * ds[i];
      itemSize := itemSize * ds[i];
    }
    assert ds[0..] == ds;
    return Some(Layout(dimensions, itemSize, count));
  }

  /** The checks refuse exactly the step whose size would not fit. */
  lemma CheckIsExact(count: nat, itemSize: nat, d: nat)
    requires count <= itemSize
    ensures d > 0 && (count > UW_MAX / d || itemSize > UW_MAX / d) <==> itemSize * d > UW_MAX
  {
    DivisionTest(count, d);
    DivisionTest(itemSize, d);
    Monotone(count, itemSize, d);
  }

  lemma InitStep(ds: seq<nat>, i: nat, element: nat, count: nat, itemSize: nat)
    requires i < |ds| && element > 0 && count == Product(ds[i + 1..]) && itemSize == element * count <= UW_MAX
    requires Fits(ds[i + 1..], element)
    ensures Product(ds[i..]) == count * ds[i] && itemSize * ds[i] == element * Product(ds[i..])
    ensures Strides(ds[i..], element) == [Dimension(ds[i], itemSize)] + Strides(ds[i + 1..], element)
    ensures var refused := ds[i] > 0 && (count > UW_MAX / ds[i] || itemSize > UW_MAX / ds[i]);
            (Fits(ds[i..], element) <==> !refused) && (refused ==> !Fits(ds, element))
  {
    assert ds[i..][1..] == ds[i + 1..];
    Mul(element, count, ds[i]);
    CheckIsExact(count, itemSize, ds[i]);
    hide *;
    UnfoldProduct(ds, i);
    UnfoldStrides(ds, i, element);
    UnfoldFits(ds, i, element);
    FitsInside(ds, i, element);
  }

  lemma UnfoldProduct(ds: seq<nat>, i: nat)
    requires i < |ds|
    ensures Product(ds[i..]) == ds[i] * Product(ds[i + 1..]) == Product(ds[i + 1..]) * ds[i]
  {
    assert ds[i..][1..] == ds[i + 1..];
  }

  lemma UnfoldStrides(ds: seq<nat>, i: nat, element: nat)
    requires i < |ds|
    ensures Strides(ds[i..], element) ==
            [Dimension(ds[i], element * Product(ds[i + 1..]))] + Strides(ds[i + 1..], element)
  {
    assert ds[i..][1..] == ds[i + 1..];
  }

  lemma UnfoldFits(ds: seq<nat>, i: nat, element: nat)
    requires i < |ds|
    ensures Fits(ds[i..], element) <==> element * Product(ds[i..]) <= UW_MAX && Fits(ds[i + 1..], element)
  {
    assert ds[i..][1..] == ds[i + 1..];
  }

  lemma {:induction false} FitsInside(ds: seq<nat>, i: nat, element: nat)
    requires i <= |ds|
    ensures Fits(ds, element) ==> Fits(ds[i..], element)
  {
    if i > 0 {
      assert ds[1..][i - 1..] == ds[i..];
      FitsInside(ds[1..], i - 1, element);
    } else {
      assert ds[0..] == ds;
    }
  }

  // ---------- addresses ----------

  predicate InRange(ds: seq<nat>, address: seq<nat>) {
    |address| == |ds| && forall i :: 0 <= i < |ds| ==> address[i] < ds[i]
  }

  /** The position of an address in row-major order. */
  function Rank(ds: seq<nat>, address: seq<nat>): nat
    requires |address| == |ds|
  {
    if ds == [] then 0 else address[0] * Product(ds[1..]) + Rank(ds[1..], address[1..])
  }

  /** The address at a position in row-major order. */
  function AddressAt(ds: seq<nat>, rank: nat): (address: seq<nat>)
    ensures |address| == |ds|
  {
    if ds == [] then []
    else
      var p := Product(ds[1..]);
      if p == 0 then [0] + AddressAt(ds[1..], 0) else [rank / p] + AddressAt(ds[1..], rank % p)
  }

  /** An address comes before another: the first place where they differ decides. */
  predicate Before(a: seq<nat>, b: seq<nat>)
    requires |a| == |b|
  {
    a != [] && (a[0] < b[0] || (a[0] == b[0] && Before(a[1..], b[1..])))
  }

  lemma TailInRange(ds: seq<nat>, address: seq<nat>)
    requires InRange(ds, address) && ds != []
    ensures address[0] < ds[0] && InRange(ds[1..], address[1..])
  {
  }

  lemma {:induction false} RankInside(ds: seq<nat>, address: seq<nat>)
    requires InRange(ds, address)
    ensures Rank(ds, address) < Product(ds)
  {
    if ds != [] {
      TailInRange(ds, address);
      RankInside(ds[1..], address[1..]);
      RowInside(address[0], ds[0], Product(ds[1..]), Rank(ds[1..], address[1..]));
    }
  }

  lemma RowInside(a: nat, d: nat, p: nat, r: nat)
    requires a < d && r < p
    ensures a * p + r < d * p
  {
    Monotone(a + 1, d, p);
    assert (a + 1) * p == a * p + p;
  }

  lemma RowOf(a: nat, p: nat, r: nat)
    requires r < p
    ensures (a * p + r) / p == a && (a * p + r) % p == r
  {
    var n := a * p + r;
    QuotientBounds(n, p);
    var q := n / p;
    assert (a + 1) * p == a * p + p;
    if q < a { Monotone(q + 1, a, p); }
    if q > a { Monotone(a + 1, q, p); }
    assert n == q * p + n % p;
  }

  /** Rank and address are inverse to each other. */
  lemma {:induction false} AddressOfRank(ds: seq<nat>, address: seq<nat>)
    requires InRange(ds, address)
    ensures AddressAt(ds, Rank(ds, address)) == address
  {
    if ds != [] {
      TailInRange(ds, address);
      RankInside(ds[1..], address[1..]);
      RowOf(address[0], Product(ds[1..]), Rank(ds[1..], address[1..]));
      AddressOfRank(ds[1..], address[1..]);
    }
  }

  lemma {:induction false} RankOfAddress(ds: seq<nat>, rank: nat)
    requires rank < Product(ds)
    ensures InRange(ds, AddressAt(ds, rank)) && Rank(ds, AddressAt(ds, rank)) == rank
  {
    if ds != [] {
      var p := Product(ds[1..]);
      PositiveFactor(ds[0], p);
      QuotientBounds(rank, p);
      if rank / p >= ds[0] { Monotone(ds[0], rank / p, p); }
      assert rank == rank / p * p + rank % p;
      RankOfAddress(ds[1..], rank % p);
      var address := AddressAt(ds, rank);
      assert address[1..] == AddressAt(ds[1..], rank % p);
      InRangeTail(ds, address);
    }
  }

  lemma PositiveFactor(d: nat, p: nat)
    ensures d * p > 0 ==> d > 0 && p > 0
  {
  }

  lemma InRangeTail(ds: seq<nat>, address: seq<nat>)
    requires |ds| == |address| && ds != [] && address[0] < ds[0] && InRange(ds[1..], address[1..])
    ensures InRange(ds, address)
  {
    forall i | 0 <= i < |ds| ensures address[i] < ds[i] {
      if i > 0 { assert address[1..][i - 1] < ds[1..][i - 1]; }
    }
  }

  /** Ranks grow in row-major order. */
  lemma {:induction false} RankIsRowMajor(ds: seq<nat>, a: seq<nat>, b: seq<nat>)
    requires InRange(ds, a) && InRange(ds, b)
    ensures Rank(ds, a) < Rank(ds, b) <==> Before(a, b)
  {
    if ds != [] {
      TailInRange(ds, a);
      TailInRange(ds, b);
      RankInside(ds[1..], a[1..]);
      RankInside(ds[1..], b[1..]);
      RankIsRowMajor(ds[1..], a[1..], b[1..]);
      var p := Product(ds[1..]);
      if a[0] < b[0] {
        RowInside(a[0], b[0], p, Rank(ds[1..], a[1..]));
      } else if b[0] < a[0] {
        RowInside(b[0], a[0], p, Rank(ds[1..], b[1..]));
      }
    }
  }

  /** The sum that array_data computes. */
  function Offset(dimensions: seq<Dimension>, address: seq<nat>): nat
    requires |address| == |dimensions|
  {
    if dimensions == [] then 0
    else address[0] * dimensions[0].itemSize + Offset(dimensions[1..], address[1..])
  }

  /** The offset of an address is its rank, counted in elements. */
  lemma {:induction false} OffsetIsRank(ds: seq<nat>, element: nat, address: seq<nat>)
    requires |address| == |ds|
    ensures Offset(Strides(ds, element), address) == element * Rank(ds, address)
  {
    if ds != [] {
      OffsetIsRank(ds[1..], element, address[1..]);
      var p, r := Product(ds[1..]), Rank(ds[1..], address[1..]);
      assert Strides(ds, element)[1..] == Strides(ds[1..], element);
      Mul(address[0], element, p);
      assert element * (address[0] * p + r) == element * (address[0] * p) + element * r;
    }
  }

  /** The bytes from an offset are those of a cell. */
  predicate CellsApart(a: nat, b: nat, element: nat) {
    a + element <= b || b + element <= a
  }

  /** Different addresses have cells that do not overlap. */
  lemma CellsAreDisjoint(ds: seq<nat>, element: nat, a: seq<nat>, b: seq<nat>)
    requires InRange(ds, a) && InRange(ds, b) && a != b
    ensures CellsApart(Offset(Strides(ds, element), a), Offset(Strides(ds, element), b), element)
  {
    OffsetIsRank(ds, element, a);
    OffsetIsRank(ds, element, b);
    AddressOfRank(ds, a);
    AddressOfRank(ds, b);
    var m, n := Rank(ds, a), Rank(ds, b);
    hide *;
    assert m != n;
    if m < n { NextCell(m, n, element); } else { NextCell(n, m, element); }
    Apart(element * m, element * n, element);
  }

  lemma NextCell(m: nat, n: nat, element: nat)
    requires m < n
    ensures element * m + element <= element * n
  {
    Monotone(m + 1, n, element);
  }

  lemma Apart(a: nat, b: nat, element: nat)
    ensures CellsApart(a, b, element) <==> a + element <= b || b + element <= a
  {
  }

  /**
  array_data: the offset of the cell, inside the data, for every address in range; nothing
  for any other address and for an array without dimensions. No sum wraps.
   */
  method Data(layout: Layout, address: seq<nat>, ghost ds: seq<nat>, ghost element: nat) returns (offset: Option<nat>)
    requires layout == LayoutOf(ds, element) && layout.size <= UW_MAX && |address| == |ds|
    ensures offset.Some? <==> ds != [] && InRange(ds, address) && element > 0
    ensures offset.Some? ==> offset.value == element * Rank(ds, address)
    ensures offset.Some? ==> offset.value + element <= layout.size
  {
    hide *;
    var i, sum := 0, 0;
    DataStart(ds, element, address);
    while i < |layout.dimensions|
      invariant 0 <= i <= |ds| == |layout.dimensions| == |address|
      invariant forall k :: 0 <= k < i ==> address[k] < ds[k]
      invariant sum + element * Rank(ds[i..], address[i..]) == element * Rank(ds, address)
      invariant ds != [] ==> sum + element * Product(ds[i..]) <= layout.size <= UW_MAX
      invariant layout == LayoutOf(ds, element)
    {
      DataStep(ds, element, address, i);
      if address[i] >= layout.dimensions[i].count {
        NotInRange(ds, address, i);
        return None;
      }
      sum := sum + address[i] * layout.dimensions[i].itemSize;
      i := i + 1;
    }
    DataEnd(ds, element, address);
    if sum >= layout.size { return None; }
    return Some(sum);
  }

  lemma DataStart(ds: seq<nat>, element: nat, address: seq<nat>)
    requires |address| == |ds|
    ensures |LayoutOf(ds, element).dimensions| == |ds|
    ensures ds[0..] == ds && address[0..] == address
    ensures ds != [] ==> LayoutOf(ds, element).size == element * Product(ds)
  {
  }

  lemma DataStep(ds: seq<nat>, element: nat, address: seq<nat>, i: nat)
    requires i < |ds| == |address|
    ensures var d := LayoutOf(ds, element).dimensions;
            && |d| == |ds| && d[i].count == ds[i] && d[i].itemSize == element * Product(ds[i + 1..])
            && element * Rank(ds[i..], address[i..]) ==
               address[i] * d[i].itemSize + element * Rank(ds[i + 1..], address[i + 1..])
            && (address[i] < ds[i] ==>
                  address[i] * d[i].itemSize + element * Product(ds[i + 1..]) <= element * Product(ds[i..]))
  {
    var p, r := Product(ds[i + 1..]), Rank(ds[i + 1..], address[i + 1..]);
    assert ds[i..][1..] == ds[i + 1..] && address[i..][1..] == address[i + 1..];
    StrideAt(ds, element, i);
    UnfoldProduct(ds, i);
    assert Rank(ds[i..], address[i..]) == address[i] * p + r;
    hide *;
    Mul(address[i], element, p);
    Mul(ds[i], element, p);
    Distribute(element, address[i] * p, r);
    if address[i] < ds[i] {
      Monotone(address[i] + 1, ds[i], element * p);
      Distribute(element * p, address[i], 1);
    }
  }

  lemma Distribute(a: nat, b: nat, c: nat)
    ensures a * (b + c) == a * b + a * c
    ensures (b + c) * a == b * a + c * a
  {
  }

  lemma {:induction false} StrideAt(ds: seq<nat>, element: nat, i: nat)
    requires i < |ds|
    ensures Strides(ds, element)[i] == Dimension(ds[i], element * Product(ds[i + 1..]))
  {
    if i > 0 {
      StrideAt(ds[1..], element, i - 1);
      assert ds[1..][i - 1 + 1..] == ds[i + 1..];
    }
  }

  lemma NotInRange(ds: seq<nat>, address: seq<nat>, i: nat)
    requires i < |ds| == |address| && address[i] >= ds[i]
    ensures !InRange(ds, address)
  {
  }

  lemma DataEnd(ds: seq<nat>, element: nat, address: seq<nat>)
    requires |address| == |ds|
    ensures Rank(ds[|ds|..], address[|ds|..]) == 0 && Product(ds[|ds|..]) == 1
    ensures (forall k :: 0 <= k < |ds| ==> address[k] < ds[k]) ==> InRange(ds, address)
    ensures ds == [] ==> LayoutOf(ds, element).size == 0
  {
  }

  // ---------- the copying walk ----------

  /** The step of the walk is the innermost stride, which is one element. */
  lemma InnermostStride(ds: seq<nat>, element: nat)
    requires ds != []
    ensures Strides(ds, element)[|ds| - 1].itemSize == element
  {
    StrideAt(ds, element, |ds| - 1);
    assert ds[|ds|..] == [];
    hide Strides;
    assert Product(ds[|ds|..]) == 1;
  }

  /** The walk stands at every address once, in row-major order. */
  lemma WalkIsRowMajor(ds: seq<nat>, element: nat, i: nat, j: nat)
    requires i < Product(ds) && j < Product(ds)
    ensures InRange(ds, AddressAt(ds, i)) && Offset(Strides(ds, element), AddressAt(ds, i)) == element * i
    ensures i < j <==> Before(AddressAt(ds, i), AddressAt(ds, j))
    ensures i == j <==> AddressAt(ds, i) == AddressAt(ds, j)
  {
    RankOfAddress(ds, i);
    RankOfAddress(ds, j);
    OffsetIsRank(ds, element, AddressAt(ds, i));
    RankIsRowMajor(ds, AddressAt(ds, i), AddressAt(ds, j));
  }

  /** The bytes of a cell. */
  function Cell(data: seq<byte>, at: nat, element: nat): seq<byte>
    requires at + element <= |data|
  {
    data[at..at + element]
  }

  lemma WalkSetup(ds: seq<nat>, element: nat)
    requires ds != []
    ensures var l := LayoutOf(ds, element);
            && |l.dimensions| == |ds| && l.dimensions[|ds| - 1].itemSize == element
            && l.count == Product(ds) && l.size == element * l.count
  {
    InnermostStride(ds, element);
  }

  /** A position of the walk, and the next one, lie inside the data. */
  lemma WalkStep(i: nat, count: nat, element: nat)
    requires i < count
    ensures element * i + element == element * (i + 1) <= element * count
  {
    NextCell(i, count, element);
    Distribute(element, i, 1);
  }

  /** The copies of the first n cells, one behind the other. */
  ghost function Copies(data: seq<byte>, copy: seq<byte> -> seq<byte>, element: nat, n: nat): (r: seq<byte>)
    requires element * n <= |data| && forall x :: |copy(x)| == |x|
    ensures |r| == element * n
    decreases n
  {
    if n == 0 then []
    else
      WalkStep(n - 1, n, element);
      Copies(data, copy, element, n - 1) + copy(Cell(data, element * (n - 1), element))
  }

  lemma {:induction false} CellOfCopies(data: seq<byte>, copy: seq<byte> -> seq<byte>, element: nat, n: nat, k: nat)
    requires element * n <= |data| && k < n && forall x :: |copy(x)| == |x|
    ensures element * k + element <= element * n
    ensures Cell(Copies(data, copy, element, n), element * k, element) == copy(Cell(data, element * k, element))
    decreases n
  {
    NextCell(k, n, element);
    WalkStep(n - 1, n, element);
    var front := Copies(data, copy, element, n - 1);
    if k < n - 1 {
      CellOfCopies(data, copy, element, n - 1, k);
      assert Cell(Copies(data, copy, element, n), element * k, element) == Cell(front, element * k, element);
    }
  }

  /** data_init_copy on one element. */
  method CopyCell(data: array<byte>, dest: array<byte>, at: nat, element: nat, copy: seq<byte> -> seq<byte>)
    requires data != dest && at + element <= data.Length == dest.Length && |copy(data[at..at + element])| == element
    modifies dest
    ensures dest[..at + element] == old(dest[..at]) + copy(data[at..at + element])
  {
    var cell := copy(data[at..at + element]);
    forall i | 0 <= i < element {
      dest[at + i] := cell[i];
    }
    assert dest[..at + element] == dest[..at] + dest[at..at + element];
    assert dest[..at] == old(dest[..at]) && dest[at..at + element] == cell;
    assert data[at..at + element] == old(data[at..at + element]);
  }

  /**
  The element loop of array_init_copy: every cell of the copy is the copy of the cell of
  the source at the same address.
   */
  method InitCopy(data: array<byte>, layout: Layout, copy: seq<byte> -> seq<byte>, ghost ds: seq<nat>,
                  ghost element: nat)
    returns (dest: array<byte>)
    requires ds != [] && layout == LayoutOf(ds, element) && data.Length == layout.size
    requires forall x :: |copy(x)| == |x|
    ensures fresh(dest) && dest.Length == layout.size
    ensures forall address :: |address| == |ds| && InRange(ds, address) ==>
              CellCopied(data[..], dest[..], copy, element, element * Rank(ds, address))
  {
    hide *;
    WalkSetup(ds, element);
    dest := new byte[layout.size];
    ghost var src := data[..];
    var itemSize := layout.dimensions[|layout.dimensions| - 1].itemSize;
    var i, at := 0, 0;
    NoCopies(src, copy, element);
    while i < layout.count
      invariant 0 <= i <= layout.count && at == element * i <= layout.size
      invariant fresh(dest) && dest.Length == layout.size && data[..] == src
      invariant dest[..at] == Copies(src, copy, element, i)
    {
      WalkStep(i, layout.count, element);
      NextCopy(src, copy, element, i);
      assert data[at..at + itemSize] == src[at..at + itemSize];
      CopyCell(data, dest, at, itemSize, copy);
      at := at + itemSize;
      i := i + 1;
    }
    assert dest[..at] == dest[..];
    AllCopied(src, dest[..], copy, ds, element, i);
  }

  /** The cell at an offset lies inside both arrays and has been copied. */
  ghost predicate CellCopied(data: seq<byte>, dest: seq<byte>, copy: seq<byte> -> seq<byte>, element: nat, at: nat) {
    at + element <= |data| == |dest| && Cell(dest, at, element) == copy(Cell(data, at, element))
  }

  lemma NoCopies(data: seq<byte>, copy: seq<byte> -> seq<byte>, element: nat)
    requires forall x :: |copy(x)| == |x|
    ensures element * 0 == 0 && Copies(data, copy, element, 0) == []
  {
  }

  lemma NextCopy(data: seq<byte>, copy: seq<byte> -> seq<byte>, element: nat, i: nat)
    requires element * (i + 1) <= |data| && forall x :: |copy(x)| == |x|
    ensures element * i + element <= |data| && element * i <= |data|
    ensures Copies(data, copy, element, i + 1) ==
            Copies(data, copy, element, i) + copy(data[element * i..element * i + element])
  {
    WalkStep(i, i + 1, element);
  }

  lemma OneCopied(data: seq<byte>, dest: seq<byte>, copy: seq<byte> -> seq<byte>, ds: seq<nat>, element: nat,
                  count: nat, address: seq<nat>)
    requires count == Product(ds) && |data| == |dest| == element * count && forall x :: |copy(x)| == |x|
    requires dest == Copies(data, copy, element, count) && |address| == |ds| && InRange(ds, address)
    ensures CellCopied(data, dest, copy, element, element * Rank(ds, address))
  {
    hide InRange, Product, Rank, Copies, Cell;
    RankInside(ds, address);
    CellOfCopies(data, copy, element, count, Rank(ds, address));
  }

  lemma AllCopied(data: seq<byte>, dest: seq<byte>, copy: seq<byte> -> seq<byte>, ds: seq<nat>, element: nat,
                  count: nat)
    requires count == Product(ds) && |data| == |dest| == element * count && forall x :: |copy(x)| == |x|
    requires dest == Copies(data, copy, element, count)
    ensures forall address :: |address| == |ds| && InRange(ds, address) ==>
              CellCopied(data, dest, copy, element, element * Rank(ds, address))
  {
    hide *;
    forall address | |address| == |ds| && InRange(ds, address)
      ensures CellCopied(data, dest, copy, element, element * Rank(ds, address))
    {
      OneCopied(data, dest, copy, ds, element, count, address);
    }
  }
}
