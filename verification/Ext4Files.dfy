/**
 An ext4 extent tree in terms of the extents it was written for, and which block the driver finds
 (loader/filesys/fsys_ext2fs.c).
 */
module Ext4Files {
  import opened Ext4Extents

  /** A leaf with its extents, or a node with its subtrees and the block each one starts at. */
  datatype Plan = Extents(extents: seq<Extent>) | Branch(keys: seq<nat>, children: seq<Plan>)

  /** The plan is on the disk, below a node of that depth; all numbers have 32 bits. */
  ghost predicate Stored(disk: seq<Node>, n: Node, depth: nat, p: Plan)
    decreases p
  {
    && n.magic && n.depth == depth
    && match p
       case Extents(extents) =>
         && depth == 0 && n.Leaf? && n.extents == extents && extents != []
         && forall i :: 0 <= i < |extents| ==> extents[i].hi == 0
       case Branch(keys, children) =>
         && depth > 0 && n.Inner? && |n.index| == |keys| == |children| > 0
         && forall i :: 0 <= i < |children| ==>
              && n.index[i].block == keys[i] && n.index[i].hi == 0 && n.index[i].leaf < |disk|
              && Stored(disk, disk[n.index[i].leaf], depth - 1, children[i])
  }

  function All(p: Plan): seq<Extent>
    decreases p, 0
  {
    match p
    case Extents(extents) => extents
    case Branch(_, children) => AllOf(children)
  }

  function AllOf(ps: seq<Plan>): seq<Extent>
    decreases ps, 1
  {
    if ps == [] then [] else All(ps[0]) + AllOf(ps[1..])
  }

  /** The extents lie behind each other, from block `from` on and up to block `to`. */
  predicate InOrder(s: seq<Extent>, from: nat, to: nat) {
    if s == [] then from <= to else from <= s[0].block && InOrder(s[1..], s[0].block + s[0].len, to)
  }

  /** Every subtree has the extents from its key up to the next. */
  predicate Divided(p: Plan, from: nat, to: nat)
    decreases p, 0
  {
    match p
    case Extents(extents) => InOrder(extents, from, to)
    case Branch(keys, children) =>
      |keys| == |children| && if children == [] then from <= to else from <= keys[0] && AllDivided(keys, children, to)
  }

  predicate AllDivided(keys: seq<nat>, ps: seq<Plan>, to: nat)
    requires |keys| == |ps|
    decreases ps, 1
  {
    ps == [] ||
    (var end := if |keys| > 1 then keys[1] else to;
     keys[0] <= end && Divided(ps[0], keys[0], end) && AllDivided(keys[1..], ps[1..], to))
  }

  lemma {:induction false} InOrderAt(s: seq<Extent>, from: nat, to: nat, i: nat)
    requires InOrder(s, from, to) && i < |s|
    ensures from <= s[i].block && s[i].block + s[i].len <= to
    ensures forall j :: i < j < |s| ==> s[i].block + s[i].len <= s[j].block
    decreases |s|
  {
    InOrderEnds(s, from, to);
    if i == 0 {
      forall j | 0 < j < |s|
        ensures s[0].block + s[0].len <= s[j].block
      {
        InOrderAt(s[1..], s[0].block + s[0].len, to, j - 1);
      }
    } else {
      InOrderAt(s[1..], s[0].block + s[0].len, to, i - 1);
      forall j | i < j < |s|
        ensures s[i].block + s[i].len <= s[j].block
      {
        assert s[j] == s[1..][j - 1];
      }
    }
  }

  lemma {:induction false} InOrderEnds(s: seq<Extent>, from: nat, to: nat)
    requires InOrder(s, from, to)
    ensures from <= to && (s != [] ==> s[0].block + s[0].len <= to)
  {
    if s != [] {
      InOrderEnds(s[1..], s[0].block + s[0].len, to);
    }
  }

  lemma {:induction false} DividedAt(keys: seq<nat>, ps: seq<Plan>, to: nat, i: nat)
    requires |keys| == |ps| && AllDivided(keys, ps, to) && i < |ps|
    ensures Divided(ps[i], keys[i], if i + 1 < |ps| then keys[i + 1] else to)
    ensures forall j :: i <= j < |keys| ==> keys[i] <= keys[j]
    decreases |ps|
  {
    if i > 0 {
      DividedAt(keys[1..], ps[1..], to, i - 1);
      assert forall j :: i <= j < |keys| ==> keys[j] == keys[1..][j - 1];
    } else if |ps| > 1 {
      DividedAt(keys[1..], ps[1..], to, 0);
      assert forall j :: 0 < j < |keys| ==> keys[j] == keys[1..][j - 1];
    }
  }

  lemma {:induction false} StoredIsComplete(disk: seq<Node>, n: Node, depth: nat, p: Plan)
    requires Stored(disk, n, depth, p)
    ensures Complete(disk, n, depth) && Signed(disk, n, depth)
    decreases p
  {
    if p.Branch? {
      forall i | 0 <= i < |p.children|
        ensures Complete(disk, disk[n.index[i].leaf], depth - 1) && Signed(disk, disk[n.index[i].leaf], depth - 1)
      {
        StoredIsComplete(disk, disk[n.index[i].leaf], depth - 1, p.children[i]);
      }
    }
  }

  lemma {:induction false} AllOfHas(ps: seq<Plan>, e: Extent)
    ensures e in AllOf(ps) <==> exists i :: 0 <= i < |ps| && e in All(ps[i])
  {
    if ps != [] {
      AllOfHas(ps[1..], e);
      assert forall i :: 0 < i < |ps| ==> ps[1..][i - 1] == ps[i];
      if e in AllOf(ps[1..]) {
        var i :| 0 <= i < |ps[1..]| && e in All(ps[1..][i]);
        assert e in All(ps[i + 1]);
      }
    }
  }

  lemma {:induction false} HasIsAll(disk: seq<Node>, n: Node, depth: nat, p: Plan, e: Extent)
    requires Stored(disk, n, depth, p) && Complete(disk, n, depth)
    ensures Has(disk, n, depth, e) <==> e in All(p)
    decreases p
  {
    if p.Branch? {
      AllOfHas(p.children, e);
      forall i | 0 <= i < |p.children|
        ensures Has(disk, disk[n.index[i].leaf], depth - 1, e) <==> e in All(p.children[i])
      {
        HasIsAll(disk, disk[n.index[i].leaf], depth - 1, p.children[i], e);
      }
    }
  }

  ghost predicate Between(p: Plan, from: nat, to: nat) {
    forall e :: e in All(p) ==> from <= e.block && e.block + e.len <= to
  }

  lemma {:induction false} LeafBetween(s: seq<Extent>, from: nat, to: nat)
    requires InOrder(s, from, to)
    ensures forall e :: e in s ==> from <= e.block && e.block + e.len <= to
    ensures forall i, j :: 0 <= i < j < |s| ==> s[i].block + s[i].len <= s[j].block
  {
    forall i | 0 <= i < |s|
      ensures from <= s[i].block && s[i].block + s[i].len <= to
      ensures forall j :: i < j < |s| ==> s[i].block + s[i].len <= s[j].block
    {
      InOrderAt(s, from, to, i);
    }
  }

  lemma {:induction false} DividedIsOrdered(disk: seq<Node>, n: Node, depth: nat, p: Plan, from: nat, to: nat)
    requires Stored(disk, n, depth, p) && Divided(p, from, to)
    ensures Complete(disk, n, depth) && Ordered(disk, n, depth) && Between(p, from, to)
    decreases p, 2
  {
    StoredIsComplete(disk, n, depth, p);
    match p
    case Extents(extents) => LeafBetween(extents, from, to);
    case Branch(keys, children) =>
      BranchIsOrdered(disk, n, depth, p, from, to);
  }

  /** The key behind subtree `i`. */
  function KeyBehind(keys: seq<nat>, to: nat, i: nat): nat { if i + 1 < |keys| then keys[i + 1] else to }

  lemma {:induction false} ChildIsOrdered(disk: seq<Node>, n: Node, depth: nat, p: Plan, from: nat, to: nat, i: nat)
    requires p.Branch? && Stored(disk, n, depth, p) && Divided(p, from, to) && Complete(disk, n, depth)
    requires i < |p.children|
    ensures Ordered(disk, disk[n.index[i].leaf], depth - 1)
    ensures Between(p.children[i], p.keys[i], KeyBehind(p.keys, to, i))
    ensures forall j :: i <= j < |p.keys| ==> p.keys[i] <= p.keys[j]
    decreases p, 0
  {
    DividedAt(p.keys, p.children, to, i);
    DividedIsOrdered(disk, disk[n.index[i].leaf], depth - 1, p.children[i], p.keys[i], KeyBehind(p.keys, to, i));
  }

  lemma {:induction false} BranchIsOrdered(disk: seq<Node>, n: Node, depth: nat, p: Plan, from: nat, to: nat)
    requires p.Branch? && Stored(disk, n, depth, p) && Divided(p, from, to) && Complete(disk, n, depth)
    ensures Ordered(disk, n, depth) && Between(p, from, to)
    decreases p, 1
  {
    hide AllDivided, All, Has, Ordered;
    var keys, children := p.keys, p.children;
    forall i, j | 0 <= i <= j < |keys|
      ensures keys[i] <= keys[j]
    {
      ChildIsOrdered(disk, n, depth, p, from, to, i);
    }
    forall i | 0 <= i < |children|
      ensures Ordered(disk, disk[n.index[i].leaf], depth - 1)
    {
      ChildIsOrdered(disk, n, depth, p, from, to, i);
    }
    forall i, e | 0 <= i < |n.index| && Has(disk, disk[n.index[i].leaf], depth - 1, e)
      ensures n.index[i].block <= e.block && (i + 1 < |n.index| ==> e.block + e.len <= n.index[i + 1].block)
    {
      HasIsAll(disk, disk[n.index[i].leaf], depth - 1, children[i], e);
      ChildIsOrdered(disk, n, depth, p, from, to, i);
    }
    OrderedBranch(disk, n, depth);
    LastKey(keys, children, to);
    AllIsAllOf(p);
    forall e | e in All(p)
      ensures from <= e.block && e.block + e.len <= to
    {
      AllOfHas(children, e);
      var i :| 0 <= i < |children| && e in All(children[i]);
      ChildIsOrdered(disk, n, depth, p, from, to, i);
    }
  }

  lemma {:induction false} AllIsAllOf(p: Plan)
    requires p.Branch?
    ensures All(p) == AllOf(p.children)
  {
  }

  lemma OrderedBranch(disk: seq<Node>, n: Node, depth: nat)
    requires Complete(disk, n, depth) && depth > 0
    requires forall i, j :: 0 <= i <= j < |n.index| ==> n.index[i].block <= n.index[j].block
    requires forall i :: 0 <= i < |n.index| ==> Ordered(disk, disk[n.index[i].leaf], depth - 1)
    requires forall i, e {:trigger Has(disk, disk[n.index[i].leaf], depth - 1, e)} ::
               0 <= i < |n.index| && Has(disk, disk[n.index[i].leaf], depth - 1, e) ==>
               n.index[i].block <= e.block && (i + 1 < |n.index| ==> e.block + e.len <= n.index[i + 1].block)
    ensures Ordered(disk, n, depth)
  {
  }

  lemma {:induction false} LastKey(keys: seq<nat>, ps: seq<Plan>, to: nat)
    requires |keys| == |ps| && AllDivided(keys, ps, to)
    ensures forall i :: 0 <= i < |keys| ==> keys[i] <= to
  {
    if ps != [] {
      LastKey(keys[1..], ps[1..], to);
      assert forall i :: 0 < i < |keys| ==> keys[i] == keys[1..][i - 1];
    }
  }

  lemma {:induction false} StoredIsClear(disk: seq<Node>, n: Node, depth: nat, p: Plan, b: nat)
    requires Stored(disk, n, depth, p) && Complete(disk, n, depth)
    ensures Clear(disk, n, depth, b) && Reached(disk, n, depth, b).hi == 0
    decreases p
  {
    if p.Branch? {
      var i := Pick(IndexKeys(n.index), b);
      StoredIsClear(disk, disk[n.index[i].leaf], depth - 1, p.children[i], b);
    }
  }

  /** A file whose extents are stored in a tree of any shape: a block that extent `e` has is found at its place behind
      the start of `e`. */
  method BlockMapStored(disk: seq<Node>, root: Node, b: nat, ghost p: Plan, ghost from: nat, ghost to: nat)
    returns (r: Result)
    requires Stored(disk, root, root.depth, p) && Divided(p, from, to)
    ensures forall e :: e in All(p) && e.block <= b < e.block + e.len ==> r == Block(e.start + (b - e.block))
    ensures (forall e :: e in All(p) ==> !(e.block <= b <= e.block + e.len) && e.block <= b) ==> r == Corrupt
  {
    hide Stored, All, Divided, Ordered, Has, Clear, Reached;
    DividedIsOrdered(disk, root, root.depth, p, from, to);
    StoredIsComplete(disk, root, root.depth, p);
    StoredIsClear(disk, root, root.depth, p, b);
    ghost var last;
    r, last := BlockMap(disk, root, b);
    forall e
      ensures Has(disk, root, root.depth, e) <==> e in All(p)
    {
      HasIsAll(disk, root, root.depth, p, e);
    }
    RootHasMagic(disk, root, p);
  }

  lemma {:induction false} RootHasMagic(disk: seq<Node>, root: Node, p: Plan)
    requires Stored(disk, root, root.depth, p)
    ensures root.magic
  {
  }
}
