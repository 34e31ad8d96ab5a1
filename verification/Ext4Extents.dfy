/**
 The extent tree of ext4: finding the disk block of a file block by binary search from the inode down to a
 leaf (loader/filesys/fsys_ext2fs.c).
 */
module Ext4Extents {

  /** An index entry: the subtree for blocks from `block` on lies in disk block `leaf`; `hi` are the bits of
      that number the driver does not support. */
  datatype Index = Index(block: nat, leaf: nat, hi: nat)

  /** `len` blocks of the file from `block` on lie at `start`. */
  datatype Extent = Extent(block: nat, len: nat, start: nat, hi: nat)

  datatype Node =
    | Inner(magic: bool, depth: nat, index: seq<Index>)
    | Leaf(magic: bool, depth: nat, extents: seq<Extent>)

  /** Corrupt: ERR_FSYS_CORRUPT; TooLong: ERR_FILELENGTH, a block number of more than 32 bits. */
  datatype Result = Block(b: int) | Corrupt | TooLong

  // ---------- The tree ----------

  /** A tree in which the depth falls by one per level and no node is empty. */
  ghost predicate Complete(disk: seq<Node>, n: Node, depth: nat)
    decreases depth
  {
    && n.depth == depth
    && if depth == 0 then n.Leaf? && n.extents != []
       else n.Inner? && n.index != []
            && forall i :: 0 <= i < |n.index| ==>
                 n.index[i].leaf < |disk| && Complete(disk, disk[n.index[i].leaf], depth - 1)
  }

  /** The inode and all inner nodes carry the magic number; the driver does not look at that of a leaf. */
  ghost predicate Signed(disk: seq<Node>, n: Node, depth: nat)
    requires Complete(disk, n, depth)
    decreases depth
  {
    depth > 0 ==> n.magic && forall i :: 0 <= i < |n.index| ==> Signed(disk, disk[n.index[i].leaf], depth - 1)
  }

  /** All extents of the tree. */
  ghost predicate Has(disk: seq<Node>, n: Node, depth: nat, e: Extent)
    requires Complete(disk, n, depth)
    decreases depth
  {
    if depth == 0 then e in n.extents
    else exists i :: 0 <= i < |n.index| && Has(disk, disk[n.index[i].leaf], depth - 1, e)
  }

  /** Extents lie in order, do not overlap and stay between the keys of the index entries above them. */
  ghost predicate Ordered(disk: seq<Node>, n: Node, depth: nat)
    requires Complete(disk, n, depth)
    decreases depth
  {
    if depth == 0 then
      forall i, j :: 0 <= i < j < |n.extents| ==> n.extents[i].block + n.extents[i].len <= n.extents[j].block
    else
      && (forall i, j :: 0 <= i < j < |n.index| ==> n.index[i].block <= n.index[j].block)
      && (forall i :: 0 <= i < |n.index| ==> Ordered(disk, disk[n.index[i].leaf], depth - 1))
      && (forall i, e {:trigger Has(disk, disk[n.index[i].leaf], depth - 1, e)} ::
            0 <= i < |n.index| && Has(disk, disk[n.index[i].leaf], depth - 1, e) ==>
            n.index[i].block <= e.block && (i + 1 < |n.index| ==> e.block + e.len <= n.index[i + 1].block))
  }

  predicate Covers(e: Extent, b: nat) { e.block <= b < e.block + e.len }

  // ---------- The search ----------

  /** The entry the search is meant to take: the last one that starts at or before `b`, or else the first. */
  function Pick(keys: seq<nat>, b: nat): (i: nat)
    requires keys != []
    ensures IsPick(keys, b, i)
  {
    var last := |keys| - 1;
    if last == 0 || keys[last] <= b then last else Pick(keys[..last], b)
  }

  ghost predicate IsPick(keys: seq<nat>, b: nat, i: nat) {
    && i < |keys|
    && (i == 0 || keys[i] <= b)
    && forall j :: i < j < |keys| ==> b < keys[j]
  }

  function IndexKeys(s: seq<Index>): (k: seq<nat>)
    ensures |k| == |s| && forall i :: 0 <= i < |s| ==> k[i] == s[i].block
  {
    seq<nat>(|s|, i requires 0 <= i < |s| => s[i].block)
  }

  function ExtentKeys(s: seq<Extent>): (k: seq<nat>)
    ensures |k| == |s| && forall i :: 0 <= i < |s| ==> k[i] == s[i].block
  {
    seq<nat>(|s|, i requires 0 <= i < |s| => s[i].block)
  }

  /** ext4_ext_binsearch_idx and ext4_ext_binsearch: the same search over entries of either kind. */
  method BinarySearch(keys: seq<nat>, b: nat) returns (i: nat)
    requires keys != [] && forall i, j :: 0 <= i < j < |keys| ==> keys[i] <= keys[j]
    ensures i == Pick(keys, b)
  {
    var l, r := 1, |keys| - 1;
    while l <= r
      invariant 1 <= l <= |keys| && l - 1 <= r < |keys|
      invariant l - 1 == 0 || keys[l - 1] <= b
      invariant forall j :: r < j < |keys| ==> b < keys[j]
    {
      var m := l + (r - l) / 2;
      if b < keys[m] {
        r := m - 1;
      } else {
        l := m + 1;
      }
    }
    i := l - 1;
    PickIsUnique(keys, b, Pick(keys, b), i);
  }

  lemma {:induction false} ChildBounds(disk: seq<Node>, n: Node, depth: nat, j: nat, e: Extent)
    requires Complete(disk, n, depth) && Ordered(disk, n, depth) && depth > 0
    requires j < |n.index| && Has(disk, disk[n.index[j].leaf], depth - 1, e)
    ensures n.index[j].block <= e.block
    ensures forall i :: j < i < |n.index| ==> e.block + e.len <= n.index[i].block
  {
    assert j + 1 < |n.index| ==> e.block + e.len <= n.index[j + 1].block;
  }

  /** The search descends towards the extent that covers `b`. */
  lemma {:induction false} PickLeadsToExtent(disk: seq<Node>, n: Node, depth: nat, b: nat, e: Extent, i: nat)
    requires Complete(disk, n, depth) && Ordered(disk, n, depth) && depth > 0
    requires Has(disk, n, depth, e) && Covers(e, b)
    requires IsPick(IndexKeys(n.index), b, i)
    ensures Has(disk, disk[n.index[i].leaf], depth - 1, e)
  {
    var j :| 0 <= j < |n.index| && Has(disk, disk[n.index[j].leaf], depth - 1, e);
    ChildBounds(disk, n, depth, j, e);
    PickIsUnique(IndexKeys(n.index), b, i, j);
  }

  lemma PickIsUnique(keys: seq<nat>, b: nat, i: nat, j: nat)
    requires IsPick(keys, b, i) && j < |keys| && (j == 0 || keys[j] <= b)
    requires forall k :: j < k < |keys| ==> b < keys[k]
    ensures i == j
  {
    var _ := keys[i];
  }

  lemma {:induction false} PickIsExtent(extents: seq<Extent>, b: nat, e: Extent)
    requires forall i, j :: 0 <= i < j < |extents| ==> extents[i].block + extents[i].len <= extents[j].block
    requires e in extents && Covers(e, b)
    ensures extents[Pick(ExtentKeys(extents), b)] == e
  {
    var j :| 0 <= j < |extents| && extents[j] == e;
    var keys := ExtentKeys(extents);
    assert keys[j] <= b;
    assert j <= Pick(keys, b);
  }

  // ---------- What the search finds ----------

  /** The child the search goes on in. */
  ghost function Child(disk: seq<Node>, n: Node, depth: nat, b: nat): Node
    requires Complete(disk, n, depth) && depth > 0
  {
    disk[n.index[Pick(IndexKeys(n.index), b)].leaf]
  }

  /** The extent the picks lead to. */
  ghost function Reached(disk: seq<Node>, n: Node, depth: nat, b: nat): Extent
    requires Complete(disk, n, depth)
    decreases depth
  {
    if depth == 0 then n.extents[Pick(ExtentKeys(n.extents), b)]
    else Reached(disk, Child(disk, n, depth, b), depth - 1, b)
  }

  /** No node and no index entry on the way to it stops the search. */
  ghost predicate Clear(disk: seq<Node>, n: Node, depth: nat, b: nat)
    requires Complete(disk, n, depth)
    decreases depth
  {
    depth > 0 ==>
      && n.magic && n.index[Pick(IndexKeys(n.index), b)].hi == 0
      && Clear(disk, Child(disk, n, depth, b), depth - 1, b)
  }

  /** The answer given once the search has ended at extent `e`. */
  function Answer(e: Extent, b: nat): Result {
    if e.hi != 0 then TooLong
    else if e.block + e.len < b then Corrupt
    else Block(e.start + b - e.block)
  }

  /** What the whole search answers below a node. */
  ghost function Outcome(disk: seq<Node>, n: Node, depth: nat, b: nat): Result
    requires Complete(disk, n, depth)
    decreases depth
  {
    if depth == 0 then Answer(Reached(disk, n, depth, b), b)
    else if !n.magic then Corrupt
    else if n.index[Pick(IndexKeys(n.index), b)].hi != 0 then TooLong
    else Outcome(disk, Child(disk, n, depth, b), depth - 1, b)
  }

  lemma {:induction false} OutcomeIsAnswer(disk: seq<Node>, n: Node, depth: nat, b: nat)
    requires Complete(disk, n, depth)
    ensures Clear(disk, n, depth, b) ==> Outcome(disk, n, depth, b) == Answer(Reached(disk, n, depth, b), b)
    ensures !Clear(disk, n, depth, b) ==> !Outcome(disk, n, depth, b).Block?
    ensures !Clear(disk, n, depth, b) && Signed(disk, n, depth) ==> Outcome(disk, n, depth, b) == TooLong
    ensures Has(disk, n, depth, Reached(disk, n, depth, b))
    decreases depth
  {
    if depth > 0 {
      OutcomeIsAnswer(disk, Child(disk, n, depth, b), depth - 1, b);
    }
  }

  /** An extent that covers the block is the one the search ends at. */
  lemma {:induction false} CoveringIsReached(disk: seq<Node>, n: Node, depth: nat, b: nat, e: Extent)
    requires Complete(disk, n, depth) && Ordered(disk, n, depth)
    requires Has(disk, n, depth, e) && Covers(e, b)
    ensures Reached(disk, n, depth, b) == e
    decreases depth
  {
    if depth == 0 {
      PickIsExtent(n.extents, b, e);
    } else {
      var i := Pick(IndexKeys(n.index), b);
      PickLeadsToExtent(disk, n, depth, b, e, i);
      CoveringIsReached(disk, Child(disk, n, depth, b), depth - 1, b, e);
    }
  }

  /** A covered block is found exactly if nothing on its way is too long for the driver or lacks its magic number. */
  lemma {:induction false} CoveredBlockFound(disk: seq<Node>, n: Node, depth: nat, b: nat, e: Extent)
    requires Complete(disk, n, depth) && Ordered(disk, n, depth)
    requires Has(disk, n, depth, e) && Covers(e, b)
    ensures Outcome(disk, n, depth, b) == Block(e.start + b - e.block) <==> Clear(disk, n, depth, b) && e.hi == 0
  {
    CoveringIsReached(disk, n, depth, b, e);
    OutcomeIsAnswer(disk, n, depth, b);
  }

  /** A block no extent covers should give an error.  It gets an answer if and only if it is the block just behind
      the extent its picks lead to, or lies in front of that extent. */
  lemma {:induction false} AnswerForUncoveredBlock(disk: seq<Node>, n: Node, depth: nat, b: nat)
    requires Complete(disk, n, depth)
    requires forall e :: Has(disk, n, depth, e) ==> !Covers(e, b)
    ensures var e := Reached(disk, n, depth, b);
      Outcome(disk, n, depth, b).Block? <==>
      Clear(disk, n, depth, b) && e.hi == 0 && (b == e.block + e.len || b < e.block)
  {
    OutcomeIsAnswer(disk, n, depth, b);
  }

  /** A leaf with a gap between its extents: only the first block of the gap is answered. */
  lemma {:induction false} OneBlockTooMany(b: nat)
    requires 4 <= b < 10
    ensures var leaf := Leaf(true, 0, [Extent(0, 4, 100, 0), Extent(10, 4, 200, 0)]);
      && Complete([], leaf, 0) && Ordered([], leaf, 0)
      && (forall e :: Has([], leaf, 0, e) ==> !Covers(e, b))
      && Outcome([], leaf, 0, b) == if b == 4 then Block(104) else Corrupt
  {
    var extents := [Extent(0, 4, 100, 0), Extent(10, 4, 200, 0)];
    PickIsUnique(ExtentKeys(extents), b, Pick(ExtentKeys(extents), b), 0);
  }

  /** A gap at the start of a leaf: all of its blocks are answered. */
  lemma {:induction false} AnswersBeforeLeaf(b: nat)
    requires b < 10
    ensures var leaf := Leaf(true, 0, [Extent(10, 4, 200, 0)]);
      && Complete([], leaf, 0) && Ordered([], leaf, 0)
      && (forall e :: Has([], leaf, 0, e) ==> !Covers(e, b))
      && Outcome([], leaf, 0, b) == Block(190 + b)
  {
  }

  lemma {:induction false} BlockMapFacts(disk: seq<Node>, root: Node, b: nat)
    requires Complete(disk, root, root.depth) && Ordered(disk, root, root.depth)
    ensures var (n, last) := (root.depth, Reached(disk, root, root.depth, b)); var r := Outcome(disk, root, n, b);
      && Has(disk, root, n, last)
      && (Signed(disk, root, n) ==> if Clear(disk, root, n, b) then r == Answer(last, b) else r == TooLong)
      && (forall e :: Has(disk, root, n, e) && Covers(e, b) ==> e == last)
      && (!Covers(last, b) ==>
           (r.Block? <==> Clear(disk, root, n, b) && last.hi == 0 && (b == last.block + last.len || b < last.block)))
  {
    OutcomeIsAnswer(disk, root, root.depth, b);
    forall e | Has(disk, root, root.depth, e) && Covers(e, b)
      ensures e == Reached(disk, root, root.depth, b)
    {
      CoveringIsReached(disk, root, root.depth, b, e);
    }
  }

  /** One level down nothing changes. */
  lemma OneLevel(disk: seq<Node>, n: Node, depth: nat, b: nat)
    requires Complete(disk, n, depth) && Ordered(disk, n, depth) && depth > 0
    ensures var keys := IndexKeys(n.index);
      keys != [] && forall i, j :: 0 <= i < j < |keys| ==> keys[i] <= keys[j]
    ensures var c := Child(disk, n, depth, b);
      && c.depth == depth - 1 && Complete(disk, c, depth - 1) && Ordered(disk, c, depth - 1)
      && c == disk[n.index[Pick(IndexKeys(n.index), b)].leaf]
      && Outcome(disk, n, depth, b) ==
           if !n.magic then Corrupt else if n.index[Pick(IndexKeys(n.index), b)].hi != 0 then TooLong
           else Outcome(disk, c, depth - 1, b)
  {
  }

  lemma {:induction false} LastLevel(disk: seq<Node>, n: Node, b: nat)
    requires Complete(disk, n, 0) && Ordered(disk, n, 0)
    ensures n.Leaf? && n.extents != []
    ensures forall i, j :: 0 <= i < j < |n.extents| ==> n.extents[i].block + n.extents[i].len <= n.extents[j].block
    ensures Outcome(disk, n, 0, b) == Answer(n.extents[Pick(ExtentKeys(n.extents), b)], b)
  {
  }

  /** The way from the inode to a leaf. */
  method Search(disk: seq<Node>, root: Node, b: nat) returns (r: Result)
    requires Complete(disk, root, root.depth) && Ordered(disk, root, root.depth)
    ensures r == if root.magic then Outcome(disk, root, root.depth, b) else Corrupt
  {
    if !root.magic {
      return Corrupt;
    }
    var eh, depth := root, root.depth;
    while depth != 0
      invariant Complete(disk, eh, depth) && Ordered(disk, eh, depth)
      invariant Outcome(disk, eh, depth, b) == Outcome(disk, root, root.depth, b)
      decreases depth
    {
      OneLevel(disk, eh, depth, b);
      if !eh.magic {
        return Corrupt;
      }
      var i := BinarySearch(IndexKeys(eh.index), b);
      var ei := eh.index[i];
      if ei.hi != 0 {
        return TooLong;
      }
      eh := disk[ei.leaf];
      depth := eh.depth;
    }
    LastLevel(disk, eh, b);
    var last: Extent;
    r, last := SearchLeaf(eh.extents, b);
  }

  /** ext4fs_block_map.  A block covered by an extent of the tree is found, unless a number on the way is too
      long for the driver; any other block is answered from the extent `last` at which the search ends. */
  method BlockMap(disk: seq<Node>, root: Node, b: nat) returns (r: Result, ghost last: Extent)
    requires Complete(disk, root, root.depth) && Ordered(disk, root, root.depth)
    ensures r == if root.magic then Outcome(disk, root, root.depth, b) else Corrupt
    ensures last == Reached(disk, root, root.depth, b) && Has(disk, root, root.depth, last)
    ensures root.magic && Signed(disk, root, root.depth) ==>
              r == if Clear(disk, root, root.depth, b) then Answer(last, b) else TooLong
    ensures forall e :: Has(disk, root, root.depth, e) && Covers(e, b) ==> e == last
    ensures !Covers(last, b) ==>
              (r.Block? <==> root.magic && Clear(disk, root, root.depth, b) && last.hi == 0 &&
                             (b == last.block + last.len || b < last.block))
  {
    r := Search(disk, root, b);
    last := Reached(disk, root, root.depth, b);
    BlockMapFacts(disk, root, b);
  }

  method SearchLeaf(extents: seq<Extent>, b: nat) returns (r: Result, last: Extent)
    requires extents != []
    requires forall i, j :: 0 <= i < j < |extents| ==> extents[i].block + extents[i].len <= extents[j].block
    ensures last == extents[Pick(ExtentKeys(extents), b)] && r == Answer(last, b)
    ensures forall e :: e in extents && Covers(e, b) ==> e == last
  {
    var i := BinarySearch(ExtentKeys(extents), b);
    last := extents[i];
    forall e | e in extents && Covers(e, b)
      ensures e == last
    {
      PickIsExtent(extents, b, e);
    }
    r := if last.hi != 0 then TooLong
         else if last.block + last.len < b then Corrupt
         else Block(last.start + b - last.block);
  }
}
