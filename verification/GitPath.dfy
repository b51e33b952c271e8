/**
Comparing one path in two git trees (git/log.c, log_tree_path_changed). The plain meaning
is two independent lookups; the C code walks both trees in lock step and stops as soon as
the two entries are equal. The module proves that both give the same answer.
 */
module GitPath {
  import opened Bytes
  import opened GitTree

  type Odb = map<Oid, Object>

  /** Offset of the first '/', or the length of the path. */
  function SlashOffset(path: seq<byte>): (n: nat)
    ensures n <= |path|
    ensures forall i :: 0 <= i < n ==> path[i] != '/' as byte
    ensures n < |path| ==> path[n] == '/' as byte
  {
    if path == [] || path[0] == '/' as byte then 0 else 1 + SlashOffset(path[1..])
  }

  /** git_odb_read followed by the scan of one name. */
  function ReadEntry(odb: Odb, tree: Option<Oid>, name: seq<byte>): Found {
    if tree.None? then Absent
    else if tree.value in odb && odb[tree.value].TreeObject? then Scan(odb[tree.value].data, name)
    else Malformed
  }

  /** The tree an entry leads to, if it is one. */
  function Subtree(found: Found): Option<Oid> {
    if found.Present? && found.node.mode == FILEMODE_TREE then Some(found.node.oid) else None
  }

  /** The independent lookup of a path: Malformed when any object on the way cannot be read. */
  function LookupPath(odb: Odb, tree: Option<Oid>, path: seq<byte>): Found
    decreases |path|
  {
    var size := SlashOffset(path);
    var found := ReadEntry(odb, tree, path[..size]);
    if size == |path| || found.Malformed? then found
    else LookupPath(odb, Subtree(found), path[size + 1..])
  }

  lemma LookupStep(odb: Odb, tree: Option<Oid>, path: seq<byte>)
    ensures var size := SlashOffset(path);
            var found := ReadEntry(odb, tree, path[..size]);
            LookupPath(odb, tree, path) ==
            if size == |path| || found.Malformed? then found
            else LookupPath(odb, Subtree(found), path[size + 1..])
  {
    hide ReadEntry, SlashOffset, Subtree, Scan;
  }

  /** Below no tree at all there is no entry. */
  lemma {:induction false} NoTreeHasNoEntry(odb: Odb, path: seq<byte>)
    ensures LookupPath(odb, None, path).Absent?
    decreases |path|
  {
    if SlashOffset(path) < |path| { NoTreeHasNoEntry(odb, path[SlashOffset(path) + 1..]); }
  }

  /**
  A lookup goes on in the tree that the first component leads to, and only there: an entry
  whose mode is not 0040000 leads nowhere, whatever stands behind the slash.
   */
  lemma LookupBelow(odb: Odb, tree: Option<Oid>, name: seq<byte>, rest: seq<byte>)
    requires '/' as byte !in name
    ensures var top := LookupPath(odb, tree, name);
            LookupPath(odb, tree, name + ['/' as byte] + rest) ==
            if top.Malformed? then Malformed
            else if top.Present? && top.node.mode == 16384 then LookupPath(odb, Some(top.node.oid), rest)
            else Absent
  {
    hide ReadEntry, LookupPath, SlashOffset;
    var path := name + ['/' as byte] + rest;
    var size := SlashOffset(path);
    assert size == |name| by {
      assert forall i :: 0 <= i < |name| ==> path[i] == name[i];
      assert path[|name|] == '/' as byte;
    }
    assert path[..size] == name && path[size + 1..] == rest;
    assert SlashOffset(name) == |name| && name[..|name|] == name;
    LookupStep(odb, tree, name);
    LookupStep(odb, tree, path);
    NoTreeHasNoEntry(odb, rest);
  }

  /** A tree in which a name is no directory: below it the lookup finds nothing, and no error. */
  lemma NotADirectory(odb: Odb, tree: Oid, es: seq<TreeEntry>, name: seq<byte>, rest: seq<byte>)
    requires tree in odb && AllValid(es) && odb[tree] == TreeObject(EncodeTree(es))
    requires '/' as byte !in name && First(es, name).Present? && First(es, name).node.mode != 16384
    ensures LookupPath(odb, Some(tree), name + ['/' as byte] + rest) == Absent
  {
    hide EncodeTree, Scan, SlashOffset, LookupPath;
    ScanOfEncodedTree(es, name);
    assert SlashOffset(name) == |name| && name[..|name|] == name;
    LookupStep(odb, Some(tree), name);
    LookupBelow(odb, Some(tree), name, rest);
  }

  /** Both lookups succeed and the entries are not the same. */
  predicate Differs(odb: Odb, a: Option<Oid>, b: Option<Oid>, path: seq<byte>) {
    var fa, fb := LookupPath(odb, a, path), LookupPath(odb, b, path);
    !fa.Malformed? && !fb.Malformed? && fa != fb
  }

  /** The lock-step descent; None is the error return -1. */
  function Descend(odb: Odb, a: Option<Oid>, b: Option<Oid>, path: seq<byte>): Option<bool>
    decreases |path|
  {
    var size := SlashOffset(path);
    var fa := ReadEntry(odb, a, path[..size]);
    var fb := ReadEntry(odb, b, path[..size]);
    if fa.Malformed? || fb.Malformed? then None
    else if fa == fb then Some(false)
    else if size == |path| then Some(true)
    else Descend(odb, Subtree(fa), Subtree(fb), path[size + 1..])
  }

  /**
  The descent reports a change exactly when independent lookups both succeed and differ,
  reports no change only when they agree, and fails only when one of them fails. The
  early exit can only hide an error below two equal entries, where both lookups fail alike.
   */
  lemma {:induction false} DescendAgreesWithLookups(odb: Odb, a: Option<Oid>, b: Option<Oid>, path: seq<byte>)
    ensures Descend(odb, a, b, path) == Some(true) <==> Differs(odb, a, b, path)
    ensures Descend(odb, a, b, path) == Some(false) ==> LookupPath(odb, a, path) == LookupPath(odb, b, path)
    ensures Descend(odb, a, b, path).None? ==>
              LookupPath(odb, a, path).Malformed? || LookupPath(odb, b, path).Malformed?
    decreases |path|
  {
    hide ReadEntry, SlashOffset, Subtree, Scan, LookupPath;
    var size := SlashOffset(path);
    var fa := ReadEntry(odb, a, path[..size]);
    var fb := ReadEntry(odb, b, path[..size]);
    LookupStep(odb, a, path);
    LookupStep(odb, b, path);
    if size < |path| && !fa.Malformed? && !fb.Malformed? {
      DescendAgreesWithLookups(odb, Subtree(fa), Subtree(fb), path[size + 1..]);
    }
  }

  /** Cutting a path at a later slash keeps its first component. */
  lemma FrontOfPath(path: seq<byte>, k: nat)
    requires k < |path| && path[k] == '/' as byte
    ensures var size := SlashOffset(path);
            && size <= k
            && SlashOffset(path[..k]) == size
            && path[..k][..size] == path[..size]
            && (size < k ==>
                  && path[..k][size + 1..] == path[size + 1..][..k - size - 1]
                  && path[size + 1..][k - size - 1] == '/' as byte)
  {
    hide SlashOffset;
    var size := SlashOffset(path);
    var front := path[..k];
    assert SlashOffset(front) == size by {
      assert forall i :: 0 <= i < size ==> front[i] == path[i];
    }
  }

  /** The same readable entry, present or absent, at a path in both trees. */
  predicate Agree(odb: Odb, a: Option<Oid>, b: Option<Oid>, path: seq<byte>) {
    LookupPath(odb, a, path) == LookupPath(odb, b, path) && !LookupPath(odb, a, path).Malformed?
  }

  /** The trees agree at some leading directory of the path. */
  ghost predicate AgreeAbove(odb: Odb, a: Option<Oid>, b: Option<Oid>, path: seq<byte>) {
    exists k :: 0 <= k < |path| && path[k] == '/' as byte && Agree(odb, a, b, path[..k])
  }

  /** Agreement at a leading directory is agreement at the first component or further down. */
  lemma AgreeAboveStep(odb: Odb, a: Option<Oid>, b: Option<Oid>, path: seq<byte>)
    requires SlashOffset(path) < |path|
    ensures var size := SlashOffset(path);
            var fa, fb := ReadEntry(odb, a, path[..size]), ReadEntry(odb, b, path[..size]);
            !fa.Malformed? && !fb.Malformed? ==>
              (AgreeAbove(odb, a, b, path) <==>
               fa == fb || AgreeAbove(odb, Subtree(fa), Subtree(fb), path[size + 1..]))
  {
    hide *;
    var size := SlashOffset(path);
    var fa, fb := ReadEntry(odb, a, path[..size]), ReadEntry(odb, b, path[..size]);
    if !fa.Malformed? && !fb.Malformed? {
      if AgreeAbove(odb, a, b, path) {
        AgreeAboveDown(odb, a, b, path);
      }
      if fa == fb || AgreeAbove(odb, Subtree(fa), Subtree(fb), path[size + 1..]) {
        AgreeAboveUp(odb, a, b, path);
      }
    }
  }

  lemma AgreeAboveDown(odb: Odb, a: Option<Oid>, b: Option<Oid>, path: seq<byte>)
    requires SlashOffset(path) < |path| && AgreeAbove(odb, a, b, path)
    ensures var size := SlashOffset(path);
            var fa, fb := ReadEntry(odb, a, path[..size]), ReadEntry(odb, b, path[..size]);
            !fa.Malformed? && !fb.Malformed? ==>
              fa == fb || AgreeAbove(odb, Subtree(fa), Subtree(fb), path[size + 1..])
  {
    hide ReadEntry, SlashOffset, Subtree, LookupPath, Agree, Scan;
    var size := SlashOffset(path);
    var k :| 0 <= k < |path| && path[k] == '/' as byte && Agree(odb, a, b, path[..k]);
    AgreeStep(odb, a, b, path, k);
    if k > size {
      assert path[size + 1..][k - size - 1] == '/' as byte;
    }
  }

  lemma AgreeAboveUp(odb: Odb, a: Option<Oid>, b: Option<Oid>, path: seq<byte>)
    requires SlashOffset(path) < |path|
    requires var size := SlashOffset(path);
             var fa, fb := ReadEntry(odb, a, path[..size]), ReadEntry(odb, b, path[..size]);
             && !fa.Malformed? && !fb.Malformed?
             && (fa == fb || AgreeAbove(odb, Subtree(fa), Subtree(fb), path[size + 1..]))
    ensures AgreeAbove(odb, a, b, path)
  {
    hide ReadEntry, SlashOffset, Subtree, LookupPath, Agree, Scan;
    var size := SlashOffset(path);
    var fa, fb := ReadEntry(odb, a, path[..size]), ReadEntry(odb, b, path[..size]);
    var k := size;
    if fa != fb {
      var rest := path[size + 1..];
      var j :| 0 <= j < |rest| && rest[j] == '/' as byte && Agree(odb, Subtree(fa), Subtree(fb), rest[..j]);
      k := j + size + 1;
    }
    AgreeStep(odb, a, b, path, k);
    assert path[k] == '/' as byte && Agree(odb, a, b, path[..k]);
  }

  /** Agreement at one leading directory, by its first component. */
  lemma AgreeStep(odb: Odb, a: Option<Oid>, b: Option<Oid>, path: seq<byte>, k: nat)
    requires k < |path| && path[k] == '/' as byte
    ensures var size := SlashOffset(path);
            var fa, fb := ReadEntry(odb, a, path[..size]), ReadEntry(odb, b, path[..size]);
            && size <= k
            && (!fa.Malformed? && !fb.Malformed? ==>
                  (Agree(odb, a, b, path[..k]) <==>
                   if k == size then fa == fb
                   else Agree(odb, Subtree(fa), Subtree(fb), path[size + 1..][..k - size - 1])))
  {
    hide ReadEntry, SlashOffset, Subtree, Scan, LookupPath;
    FrontOfPath(path, k);
    LookupStep(odb, a, path[..k]);
    LookupStep(odb, b, path[..k]);
  }

  /**
  The descent fails exactly when one of the lookups fails and the trees agree at no leading
  directory: below such a directory both lookups fail alike and the early exit does not look.
   */
  lemma {:induction false} DescentFailsIff(odb: Odb, a: Option<Oid>, b: Option<Oid>, path: seq<byte>)
    ensures Descend(odb, a, b, path).None? <==>
            (LookupPath(odb, a, path).Malformed? || LookupPath(odb, b, path).Malformed?)
            && !AgreeAbove(odb, a, b, path)
    decreases |path|
  {
    hide ReadEntry, SlashOffset, Subtree, LookupPath, Scan, AgreeAbove;
    var size := SlashOffset(path);
    var fa, fb := ReadEntry(odb, a, path[..size]), ReadEntry(odb, b, path[..size]);
    LookupStep(odb, a, path);
    LookupStep(odb, b, path);
    if size == |path| {
      NothingAbove(odb, a, b, path);
    } else if fa.Malformed? || fb.Malformed? {
      FailsAbove(odb, a, b, path);
    } else {
      AgreeAboveStep(odb, a, b, path);
      DescentFailsIff(odb, Subtree(fa), Subtree(fb), path[size + 1..]);
    }
  }

  lemma NothingAbove(odb: Odb, a: Option<Oid>, b: Option<Oid>, path: seq<byte>)
    requires SlashOffset(path) == |path|
    ensures !AgreeAbove(odb, a, b, path)
  {
    hide SlashOffset, LookupPath;
    assert forall k :: 0 <= k < |path| ==> path[k] != '/' as byte;
  }

  /** A first component that cannot be read leaves nothing to agree on. */
  lemma FailsAbove(odb: Odb, a: Option<Oid>, b: Option<Oid>, path: seq<byte>)
    requires var size := SlashOffset(path);
             ReadEntry(odb, a, path[..size]).Malformed? || ReadEntry(odb, b, path[..size]).Malformed?
    ensures !AgreeAbove(odb, a, b, path)
  {
    hide ReadEntry, SlashOffset, Subtree, Scan, LookupPath;
    forall k | 0 <= k < |path| && path[k] == '/' as byte ensures !Agree(odb, a, b, path[..k]) {
      FrontOfPath(path, k);
      LookupStep(odb, a, path[..k]);
      LookupStep(odb, b, path[..k]);
    }
  }

  /**
  One tree compared with itself at "d/f", where the entry "d" leads to a tree that is
  missing: the lookup fails, the descent reports no change.
   */
  lemma MissingTreeGoesUnseen(tree: Oid, missing: Oid)
    requires tree != missing
    ensures var digits := ['4' as byte, '0' as byte, '0' as byte, '0' as byte, '0' as byte];
            var entry := TreeEntry(digits, ['d' as byte], missing);
            var odb := map[tree := TreeObject(EncodeTree([entry]))];
            var path := ['d' as byte, '/' as byte, 'f' as byte];
            LookupPath(odb, Some(tree), path).Malformed? && Descend(odb, Some(tree), Some(tree), path) == Some(false)
  {
    var digits := ['4' as byte, '0' as byte, '0' as byte, '0' as byte, '0' as byte];
    var entry := TreeEntry(digits, ['d' as byte], missing);
    var odb := map[tree := TreeObject(EncodeTree([entry]))];
    var path := ['d' as byte, '/' as byte, 'f' as byte];
    FortyThousand();
    assert AllValid([entry]) by { assert ValidEntry(entry); }
    ScanOfEncodedTree([entry], ['d' as byte]);
    assert path[1..][0] == '/' as byte;
    assert SlashOffset(path) == 1 && path[..1] == ['d' as byte];
    hide Scan, EncodeTree, Mode;
    var found := ReadEntry(odb, Some(tree), path[..1]);
    assert found == Present(Node(FILEMODE_TREE, missing));
    LookupStep(odb, Some(tree), path);
    assert LookupPath(odb, Some(missing), path[2..]).Malformed?;
  }

  /** One more digit of a mode. */
  lemma ModeStep(digits: seq<byte>, d: byte)
    requires IsOctal(d) && forall i :: 0 <= i < |digits| ==> IsOctal(digits[i])
    ensures Mode(digits + [d]) == (Mode(digits) * 8 + d as int - 48) % U32_MODULUS
  {
    hide Mode;
    var s := digits + [d];
    ModeUnfold(s);
    assert s[..|s| - 1] == digits && s[|s| - 1] == d;
  }

  lemma ModeUnfold(s: seq<byte>)
    requires s != [] && forall i :: 0 <= i < |s| ==> IsOctal(s[i])
    ensures Mode(s) == (Mode(s[..|s| - 1]) * 8 + s[|s| - 1] as int - 48) % U32_MODULUS
  {
  }

  lemma ModeEmpty()
    ensures Mode([]) == 0
  {
  }

  lemma FortyThousand()
    ensures Mode(['4' as byte, '0' as byte, '0' as byte, '0' as byte, '0' as byte]) == FILEMODE_TREE
  {
    hide Mode;
    var zero := '0' as byte;
    var d1 := [] + ['4' as byte];
    var d2 := d1 + [zero];
    var d3 := d2 + [zero];
    var d4 := d3 + [zero];
    ModeEmpty();
    ModeStep([], '4' as byte);
    ModeStep(d1, zero);
    ModeStep(d2, zero);
    ModeStep(d3, zero);
    ModeStep(d4, zero);
    assert Mode(d4 + [zero]) == FILEMODE_TREE;
    assert d4 + [zero] == ['4' as byte, zero, zero, zero, zero];
  }

  /** A path that differs has every leading directory differ too. */
  lemma {:induction false} LeadingDirectoryDiffers(odb: Odb, a: Option<Oid>, b: Option<Oid>, path: seq<byte>, k: nat)
    requires Differs(odb, a, b, path)
    requires k < |path| && path[k] == '/' as byte
    ensures Differs(odb, a, b, path[..k])
    decreases |path|
  {
    var size := SlashOffset(path);
    hide ReadEntry, SlashOffset, Subtree, Scan, Descend;
    FrontOfPath(path, k);
    LookupStep(odb, a, path);
    LookupStep(odb, b, path);
    LookupStep(odb, a, path[..k]);
    LookupStep(odb, b, path[..k]);
    hide LookupPath;
    if size < k {
      var fa := ReadEntry(odb, a, path[..size]);
      var fb := ReadEntry(odb, b, path[..size]);
      LeadingDirectoryDiffers(odb, Subtree(fa), Subtree(fb), path[size + 1..], k - size - 1);
    }
  }

  /**
  log_tree_path_changed. `aRoot` is the object the caller already holds for `a`, if any;
  when `wantRoot` is set the object read for `b` is handed over on success.
   */
  method TreePathChanged(odb: Odb, a: Option<Oid>, b: Option<Oid>, path: seq<byte>,
                         aRoot: Option<Object>, wantRoot: bool)
      returns (result: Option<bool>, bRootDest: Option<Object>)
    requires aRoot.Some? ==> a.Some? && a.value in odb && odb[a.value] == aRoot.value
    ensures result == Descend(odb, a, b, path)
    ensures bRootDest == if wantRoot && result.Some? && b.Some? && b.value in odb
                         then Some(odb[b.value]) else None
  {
    hide SlashOffset, Scan, LookupPath;
    result, bRootDest := None, None;
    var aTree, bTree, aOwned, bOwned := a, b, aRoot, None;
    if a.Some? && aRoot.None? {
      if a.value !in odb { return; }
      aOwned := Some(odb[a.value]);
    }
    if b.Some? {
      if b.value !in odb { return; }
      bOwned := Some(odb[b.value]);
    }
    var first := true;
    var rest := path;
    while true
      invariant first ==> aTree == a && bTree == b
      invariant Descend(odb, a, b, path) == Descend(odb, aTree, bTree, rest)
      decreases |rest|
    {
      var size := SlashOffset(rest);
      var name := rest[..size];
      var aEntry, bEntry := Absent, Absent;
      if first {
        if aTree.Some? { aEntry := TreeEntryObject(aOwned, name); }
        if aEntry.Malformed? { return; }
        if bTree.Some? { bEntry := TreeEntryObject(bOwned, name); }
        if bEntry.Malformed? { return; }
      } else {
        aEntry := TreeEntryRead(odb, aTree, name);
        if aEntry.Malformed? { return; }
        bEntry := TreeEntryRead(odb, bTree, name);
        if bEntry.Malformed? { return; }
      }
      if aEntry.Absent? && bEntry.Absent? {
        result := Some(false);
        break;
      }
      if aEntry.Present? && bEntry.Present? && aEntry.node == bEntry.node {
        result := Some(false);
        break;
      }
      if size == |rest| {
        result := Some(true);
        break;
      }
      aTree, bTree := Subtree(aEntry), Subtree(bEntry);
      rest := rest[size + 1..];
      first := false;
    }
    if wantRoot {
      bRootDest := bOwned;
    }
  }

  /** log_tree_entry: read the object, then scan it; a missing tree has no entries. */
  method TreeEntryRead(odb: Odb, tree: Option<Oid>, name: seq<byte>) returns (r: Found)
    ensures r == ReadEntry(odb, tree, name)
  {
    if tree.None? { return Absent; }
    if tree.value !in odb { return Malformed; }
    r := TreeEntryObject(Some(odb[tree.value]), name);
  }
}
