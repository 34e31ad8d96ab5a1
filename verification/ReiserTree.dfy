/**
 The ReiserFS S+tree: finding the stat item of an object and stepping through the items that follow it
 (loader/filesys/fsys_reiserfs.c).

 The driver keeps one path from the root to a leaf: block numbers, for every internal level the number of
 the next child to visit, and a few cached nodes.  Slot 0 of the cache holds the root, slot d the node of
 level d, and all levels from `slots` up share the last slot.
 */
module ReiserTree {

  /** `rest` stands for offset and type; it is 0 exactly for the key of a stat item. */
  datatype Key = Key(dir: nat, obj: nat, rest: nat)

  predicate Less(a: Key, b: Key) {
    a.dir < b.dir || (a.dir == b.dir && (a.obj < b.obj || (a.obj == b.obj && a.rest < b.rest)))
  }

  datatype Item = Item(key: Key, body: seq<int>)

  /** A block as block_read delivers it, decoded. */
  datatype Node =
    | Internal(level: nat, keys: seq<Key>, children: seq<nat>)
    | Leaf(level: nat, items: seq<Item>, delim: Key)

  const MAX_HEIGHT := 7

  // ---------- The tree on disk and its in-order item sequence ----------

  /** Block `b` is the root of a complete subtree of height `level`; leaves are not empty. */
  ghost predicate Complete(disk: seq<Node>, b: nat, level: nat)
    decreases level
  {
    && 0 < b < |disk|
    && disk[b].level == level
    && if level <= 1 then level == 1 && disk[b].Leaf? && |disk[b].items| > 0
       else disk[b].Internal? && |disk[b].children| == |disk[b].keys| + 1
            && forall i :: 0 <= i < |disk[b].children| ==> Complete(disk, disk[b].children[i], level - 1)
  }

  ghost function InOrder(disk: seq<Node>, b: nat, level: nat): seq<Item>
    requires Complete(disk, b, level)
    decreases level, 0
  {
    if level == 1 then disk[b].items else InOrderAll(disk, disk[b].children, level - 1)
  }

  ghost predicate AllComplete(disk: seq<Node>, cs: seq<nat>, level: nat) {
    forall i :: 0 <= i < |cs| ==> Complete(disk, cs[i], level)
  }

  ghost function InOrderAll(disk: seq<Node>, cs: seq<nat>, level: nat): seq<Item>
    requires AllComplete(disk, cs, level)
    decreases level, |cs| + 1
  {
    if cs == [] then [] else InOrder(disk, cs[0], level) + InOrderAll(disk, cs[1..], level)
  }

  /** The search order: separator i lies above every item of child i and not above any of child i + 1. */
  ghost predicate Ordered(disk: seq<Node>, b: nat, level: nat)
    requires Complete(disk, b, level)
    decreases level
  {
    if level == 1 then
      forall i, j :: 0 <= i < j < |disk[b].items| ==> Less(disk[b].items[i].key, disk[b].items[j].key)
    else
      var n := disk[b];
      && (forall i, j :: 0 <= i <= j < |n.keys| ==> !Less(n.keys[j], n.keys[i]))
      && (forall i :: 0 <= i < |n.children| ==> Ordered(disk, n.children[i], level - 1))
      && (forall i, it :: 0 <= i < |n.keys| && it in InOrder(disk, n.children[i], level - 1) ==>
            Less(it.key, n.keys[i]))
      && (forall i, it :: 0 <= i < |n.keys| && it in InOrder(disk, n.children[i + 1], level - 1) ==>
            !Less(it.key, n.keys[i]))
  }

  ghost predicate Contains(s: seq<Item>, k: Key) { exists i :: 0 <= i < |s| && s[i].key == k }

  ghost predicate IsSuffix<T>(a: seq<T>, whole: seq<T>) { |a| <= |whole| && a == whole[|whole| - |a|..] }

  lemma {:induction false} InOrderAllFrom(disk: seq<Node>, cs: seq<nat>, level: nat, i: nat)
    requires AllComplete(disk, cs, level) && i < |cs|
    ensures AllComplete(disk, cs[i..], level) && AllComplete(disk, cs[i + 1..], level)
    ensures InOrderAll(disk, cs[i..], level) == InOrder(disk, cs[i], level) + InOrderAll(disk, cs[i + 1..], level)
  {
    assert cs[i..][1..] == cs[i + 1..];
  }

  lemma {:induction false} InOrderAllSuffix(disk: seq<Node>, cs: seq<nat>, level: nat, i: nat)
    requires AllComplete(disk, cs, level) && i <= |cs|
    ensures AllComplete(disk, cs[i..], level)
    ensures IsSuffix(InOrderAll(disk, cs[i..], level), InOrderAll(disk, cs, level))
  {
    if i == 0 {
      assert cs[0..] == cs;
    } else {
      InOrderAllSuffix(disk, cs, level, i - 1);
      InOrderAllFrom(disk, cs, level, i - 1);
    }
  }

  lemma {:induction false} InOrderAllMember(disk: seq<Node>, cs: seq<nat>, level: nat, it: Item)
    requires AllComplete(disk, cs, level) && it in InOrderAll(disk, cs, level)
    ensures exists i :: 0 <= i < |cs| && it in InOrder(disk, cs[i], level)
  {
    if it !in InOrder(disk, cs[0], level) {
      InOrderAllMember(disk, cs[1..], level, it);
      var i :| 0 <= i < |cs[1..]| && it in InOrder(disk, cs[1..][i], level);
      assert cs[i + 1] == cs[1..][i];
    }
  }

  lemma {:induction false} InOrderAllHas(disk: seq<Node>, cs: seq<nat>, level: nat, i: nat, it: Item)
    requires AllComplete(disk, cs, level) && i < |cs| && it in InOrder(disk, cs[i], level)
    ensures it in InOrderAll(disk, cs, level)
  {
    InOrderAllSuffix(disk, cs, level, i);
    InOrderAllFrom(disk, cs, level, i);
    var s, whole := InOrderAll(disk, cs[i..], level), InOrderAll(disk, cs, level);
    var d := InOrder(disk, cs[i], level);
    var p :| 0 <= p < |d| && d[p] == it;
    assert s[p] == it;
    assert whole[|whole| - |s| + p] == it;
  }

  // ---------- The order of the items ----------

  ghost predicate Sorted(s: seq<Item>) { forall i, j :: 0 <= i < j < |s| ==> Less(s[i].key, s[j].key) }

  lemma {:induction false} Across(disk: seq<Node>, b: nat, level: nat, i: nat, j: nat, x: Item, y: Item)
    requires Complete(disk, b, level) && level > 1 && Ordered(disk, b, level)
    requires i < j < |disk[b].children|
    requires x in InOrder(disk, disk[b].children[i], level - 1) && y in InOrder(disk, disk[b].children[j], level - 1)
    ensures Less(x.key, y.key)
  {
    var n := disk[b];
    assert Less(x.key, n.keys[i]) && !Less(n.keys[j - 1], n.keys[i]) && !Less(y.key, n.keys[j - 1]);
  }

  lemma SortedConcat(a: seq<Item>, b: seq<Item>)
    requires Sorted(a) && Sorted(b) && forall x, y :: x in a && y in b ==> Less(x.key, y.key)
    ensures Sorted(a + b)
  {
  }

  lemma {:induction false} ChildBelowRest(disk: seq<Node>, b: nat, level: nat, i: nat)
    requires Complete(disk, b, level) && level > 1 && Ordered(disk, b, level) && i < |disk[b].children|
    requires AllComplete(disk, disk[b].children[i + 1..], level - 1)
    ensures var head := InOrder(disk, disk[b].children[i], level - 1);
            var tail := InOrderAll(disk, disk[b].children[i + 1..], level - 1);
            forall x, y :: x in head && y in tail ==> Less(x.key, y.key)
  {
    var cs := disk[b].children;
    forall x, y | x in InOrder(disk, cs[i], level - 1) && y in InOrderAll(disk, cs[i + 1..], level - 1)
      ensures Less(x.key, y.key)
    {
      InOrderAllMember(disk, cs[i + 1..], level - 1, y);
      var j :| 0 <= j < |cs[i + 1..]| && y in InOrder(disk, cs[i + 1..][j], level - 1);
      Across(disk, b, level, i, i + 1 + j, x, y);
    }
  }

  lemma {:induction false} SortedFrom(disk: seq<Node>, b: nat, level: nat, i: nat)
    requires Complete(disk, b, level) && level > 1 && Ordered(disk, b, level) && i <= |disk[b].children|
    ensures AllComplete(disk, disk[b].children[i..], level - 1)
    ensures Sorted(InOrderAll(disk, disk[b].children[i..], level - 1))
    decreases level, 0, |disk[b].children| - i
  {
    var cs := disk[b].children;
    if i < |cs| {
      OrderedIsSorted(disk, cs[i], level - 1);
      SortedFrom(disk, b, level, i + 1);
      InOrderAllFrom(disk, cs, level - 1, i);
      ChildBelowRest(disk, b, level, i);
      SortedConcat(InOrder(disk, cs[i], level - 1), InOrderAll(disk, cs[i + 1..], level - 1));
    }
  }

  /** The items of an ordered tree follow each other in strictly ascending order. */
  lemma {:induction false} OrderedIsSorted(disk: seq<Node>, b: nat, level: nat)
    requires Complete(disk, b, level) && Ordered(disk, b, level)
    ensures Sorted(InOrder(disk, b, level))
    decreases level, 1, 0
  {
    if level > 1 {
      SortedFrom(disk, b, level, 0);
      assert disk[b].children[0..] == disk[b].children;
    }
  }

  /** So the items from one key on are determined by that key. */
  lemma {:induction false} SuffixIsUnique(disk: seq<Node>, b: nat, level: nat, s: seq<Item>, t: seq<Item>)
    requires Complete(disk, b, level) && Ordered(disk, b, level)
    requires IsSuffix(s, InOrder(disk, b, level)) && IsSuffix(t, InOrder(disk, b, level))
    requires s != [] && t != [] && s[0].key == t[0].key
    ensures s == t
  {
    OrderedIsSorted(disk, b, level);
    var all := InOrder(disk, b, level);
    assert s[0] == all[|all| - |s|] && t[0] == all[|all| - |t|];
  }

  // ---------- Searching ----------

  /** `i` is the child the search for `k` descends to: the first whose separator is greater than `k`. */
  ghost predicate IsChildFor(n: Node, k: Key, i: nat)
    requires n.Internal?
  {
    && i <= |n.keys|
    && (forall j :: 0 <= j < i ==> !Less(k, n.keys[j]))
    && (i < |n.keys| ==> Less(k, n.keys[i]))
  }

  lemma {:induction false} OtherChildrenMiss(disk: seq<Node>, b: nat, level: nat, k: Key, i: nat, j: nat, it: Item)
    requires Complete(disk, b, level) && level > 1 && Ordered(disk, b, level)
    requires IsChildFor(disk[b], k, i)
    requires j < |disk[b].children| && j != i && it in InOrder(disk, disk[b].children[j], level - 1)
    ensures it.key != k
  {
    var n := disk[b];
    if j < i {
      assert Less(it.key, n.keys[j]);
    } else {
      assert n.children[j] == n.children[(j - 1) + 1];
      assert !Less(it.key, n.keys[j - 1]);
      assert !Less(n.keys[j - 1], n.keys[i]);
    }
  }

  /** In an ordered tree the search descends to the only child that can contain the key. */
  lemma {:induction false} SearchDescends(disk: seq<Node>, b: nat, level: nat, k: Key, i: nat)
    requires Complete(disk, b, level) && level > 1 && Ordered(disk, b, level)
    requires IsChildFor(disk[b], k, i)
    ensures Contains(InOrder(disk, b, level), k) <==> Contains(InOrder(disk, disk[b].children[i], level - 1), k)
  {
    var n := disk[b];
    var below := InOrder(disk, n.children[i], level - 1);
    var all := InOrder(disk, b, level);
    if p :| 0 <= p < |below| && below[p].key == k {
      InOrderAllHas(disk, n.children, level - 1, i, below[p]);
      var q :| 0 <= q < |all| && all[q] == below[p];
    }
    if p :| 0 <= p < |all| && all[p].key == k {
      InOrderAllMember(disk, n.children, level - 1, all[p]);
      var j :| 0 <= j < |n.children| && all[p] in InOrder(disk, n.children[j], level - 1);
      if j != i {
        OtherChildrenMiss(disk, b, level, k, i, j, all[p]);
      }
      var q :| 0 <= q < |below| && below[q] == all[p];
    }
  }

  // ---------- The current path ----------

  datatype Tree = Tree(disk: seq<Node>, root: nat, depth: nat)
  {
    ghost predicate WellFormed() {
      1 <= depth < MAX_HEIGHT && Complete(disk, root, depth)
    }

    /** The block of the path at level `d`. */
    function NodeAt(blocks: seq<nat>, d: nat): nat
      requires d <= depth && |blocks| == MAX_HEIGHT
    {
      if d >= depth || d >= MAX_HEIGHT then root else blocks[d]
    }

    /** The path goes from the root down to level `d`; `next[e]` is the number of the child to visit next at
        level e, or 0 when the path runs through the last child. */
    ghost predicate Path(blocks: seq<nat>, next: seq<nat>, d: nat) {
      && |blocks| == |next| == MAX_HEIGHT && 1 <= d <= depth < MAX_HEIGHT
      && Complete(disk, NodeAt(blocks, d), d)
      && forall e :: d < e <= depth ==> Link(blocks, next, e)
    }

    ghost predicate Link(blocks: seq<nat>, next: seq<nat>, e: nat)
      requires |blocks| == |next| == MAX_HEIGHT && 1 < e <= depth < MAX_HEIGHT
    {
      var b := NodeAt(blocks, e);
      && Complete(disk, b, e)
      && next[e] <= |disk[b].keys|
      && blocks[e - 1] == disk[b].children[Current(disk[b], next[e])]
    }

    /** The items that follow the subtree at level `d` of the path. */
    ghost function After(blocks: seq<nat>, next: seq<nat>, d: nat): seq<Item>
      requires Path(blocks, next, d)
      decreases depth - d
    {
      if d == depth then []
      else
        assert Link(blocks, next, d + 1);
        var n := disk[NodeAt(blocks, d + 1)];
        RightOf(n, next[d + 1], d) + After(blocks, next, d + 1)
    }

    ghost function RightOf(n: Node, nx: nat, level: nat): seq<Item>
      requires n.Internal? && |n.children| == |n.keys| + 1 && nx <= |n.keys| && AllComplete(disk, n.children, level)
    {
      InOrderAll(disk, n.children[Current(n, nx) + 1..], level)
    }
  }

  /** The child a path with entry `nx` runs through. */
  function Current(n: Node, nx: nat): (i: nat)
    requires n.Internal? && nx <= |n.keys|
    ensures i <= |n.keys|
  {
    if nx == 0 then |n.keys| else nx - 1
  }

  /** The entry for a path through child `i`. */
  function NextOf(n: Node, i: nat): (nx: nat)
    requires n.Internal? && i <= |n.keys|
    ensures nx <= |n.keys| && Current(n, nx) == i
  {
    if i == |n.keys| then 0 else i + 1
  }

  /** What lies below level `d` does not matter to what follows the subtree at level `d`. */
  lemma {:induction false} AfterFrame(t: Tree, blocks: seq<nat>, next: seq<nat>, blocks': seq<nat>, next': seq<nat>,
                                      d: nat)
    requires t.Path(blocks, next, d) && |blocks'| == |next'| == MAX_HEIGHT
    requires forall e :: d <= e < MAX_HEIGHT ==> blocks'[e] == blocks[e]
    requires forall e :: d < e < MAX_HEIGHT ==> next'[e] == next[e]
    ensures t.Path(blocks', next', d) && t.After(blocks', next', d) == t.After(blocks, next, d)
    decreases t.depth - d
  {
    forall e | d < e <= t.depth
      ensures t.Link(blocks', next', e)
    {
      assert t.Link(blocks, next, e);
    }
    if d < t.depth {
      assert t.Link(blocks, next, d + 1);
      AfterFrame(t, blocks, next, blocks', next', d + 1);
    }
  }

  /** Moving the path from level `d` to child `i` keeps the order of everything from that child on. */
  lemma {:induction false} Descend(t: Tree, blocks: seq<nat>, next: seq<nat>, d: nat, i: nat)
    requires t.Path(blocks, next, d) && d > 1
    requires i < |t.disk[t.NodeAt(blocks, d)].children|
    ensures var n := t.disk[t.NodeAt(blocks, d)];
      var (blocks', next') := (blocks[d - 1 := n.children[i]], next[d := NextOf(n, i)]);
      && t.Path(blocks', next', d - 1)
      && AllComplete(t.disk, n.children[i..], d - 1)
      && t.NodeAt(blocks', d - 1) == n.children[i]
      && InOrder(t.disk, n.children[i], d - 1) + t.After(blocks', next', d - 1)
         == InOrderAll(t.disk, n.children[i..], d - 1) + t.After(blocks, next, d)
  {
    var n := t.disk[t.NodeAt(blocks, d)];
    var (blocks', next') := (blocks[d - 1 := n.children[i]], next[d := NextOf(n, i)]);
    AfterFrame(t, blocks, next, blocks', next', d);
    assert t.Link(blocks', next', d);
    InOrderAllFrom(t.disk, n.children, d - 1, i);
  }

  /** What is left to visit when level `d` is about to move to child number next[d]. */
  ghost function Pending(t: Tree, blocks: seq<nat>, next: seq<nat>, d: nat): seq<Item>
    requires t.Path(blocks, next, d) && d > 1 && next[d] <= |t.disk[t.NodeAt(blocks, d)].keys|
  {
    var cs := t.disk[t.NodeAt(blocks, d)].children;
    assert AllComplete(t.disk, cs[next[d]..], d - 1);
    InOrderAll(t.disk, cs[next[d]..], d - 1) + t.After(blocks, next, d)
  }

  lemma {:induction false} PendingStep(t: Tree, blocks: seq<nat>, next: seq<nat>, d: nat)
    requires t.Path(blocks, next, d) && d > 1 && next[d] <= |t.disk[t.NodeAt(blocks, d)].keys|
    requires d > 2 ==> next[d - 1] == 0
    ensures var n := t.disk[t.NodeAt(blocks, d)];
      var (blocks', next') := (blocks[d - 1 := n.children[next[d]]], next[d := NextOf(n, next[d])]);
      && t.Path(blocks', next', d - 1)
      && Pending(t, blocks, next, d) ==
         if d == 2 then t.disk[t.NodeAt(blocks', 1)].items + t.After(blocks', next', 1)
         else Pending(t, blocks', next', d - 1)
  {
    Descend(t, blocks, next, d, next[d]);
    var cs := t.disk[t.disk[t.NodeAt(blocks, d)].children[next[d]]];
    if d > 2 {
      assert cs.children[0..] == cs.children;
    }
  }

  /** Nothing remains to the right below level `d` when all entries up to `d` are 0. */
  lemma {:induction false} AfterExhausted(t: Tree, blocks: seq<nat>, next: seq<nat>, d: nat)
    requires t.Path(blocks, next, 1) && 1 <= d <= t.depth
    requires forall e :: 1 < e <= d ==> next[e] == 0
    ensures t.Path(blocks, next, d)
    ensures t.After(blocks, next, 1) == t.After(blocks, next, d)
  {
    if d > 1 {
      AfterExhausted(t, blocks, next, d - 1);
      assert t.Link(blocks, next, d);
      var n := t.disk[t.NodeAt(blocks, d)];
      assert t.RightOf(n, 0, d - 1) == [];
    }
  }

  // ---------- The driver ----------

  /** The tree part of struct fsys_reiser_info and the node cache. */
  class Cursor {
    const t: Tree
    const slots: nat            // number of cached levels; the last slot is shared
    const cache: array<Node>
    const blocks: array<nat>
    const next: array<nat>      // next_key_nr
    var current: nat            // index in the leaf of the current item head
    var atEnd: bool             // the current item head is the dummy made of the right delimiting key

    /** What holds from the mount on, whether or not a search has succeeded yet. */
    ghost predicate Mounted()
      reads this, cache, blocks, next
    {
      && t.WellFormed() && slots >= 2 && cache.Length == slots + 1
      && blocks.Length == next.Length == MAX_HEIGHT && blocks != next
      && cache[0] == t.disk[t.root] && (t.depth == 1 ==> cache[1] == t.disk[t.root])
      && forall d :: 1 <= d < slots && d < t.depth && blocks[d] != 0 ==>
           blocks[d] < |t.disk| && cache[d] == t.disk[blocks[d]]
    }

    /** The levels from `d` up, the shared one included, hold the nodes of the current path. */
    ghost predicate CachedFrom(d: nat)
      reads this, cache, blocks
    {
      && blocks.Length == MAX_HEIGHT && cache.Length == slots + 1 && t.depth < MAX_HEIGHT
      && forall e :: d <= e <= slots && 1 <= e < t.depth ==> blocks[e] < |t.disk| && cache[e] == t.disk[blocks[e]]
    }

    ghost predicate Positioned()
      reads this, cache, blocks, next
    {
      && Mounted() && t.Path(blocks[..], next[..], 1) && CachedFrom(1)
      && (!atEnd ==> current < |t.disk[t.NodeAt(blocks[..], 1)].items|)
    }

    /** The current item and everything after it, in tree order. */
    ghost function Remaining(): seq<Item>
      requires Positioned()
      reads this, cache, blocks, next
    {
      if atEnd then []
      else t.disk[t.NodeAt(blocks[..], 1)].items[current..] + t.After(blocks[..], next[..], 1)
    }

    constructor (t: Tree, slots: nat)
      requires t.WellFormed() && slots >= 2
      ensures this.t == t && this.slots == slots && Mounted()
      ensures fresh(cache) && fresh(blocks) && fresh(next)
    {
      this.t, this.slots := t, slots;
      cache := new Node[slots + 1](_ => t.disk[t.root]);
      blocks := new nat[MAX_HEIGHT](_ => 0);
      next := new nat[MAX_HEIGHT](_ => 0);
      current, atEnd := 0, true;
    }

    /** Brings block `b` of level `d` into its cache slot, unless it is known to be there. */
    method ReadTreeNode(b: nat, d: nat) returns (ok: bool, slot: nat)
      requires Mounted() && 0 < b < |t.disk| && 1 <= d < t.depth
      modifies cache, blocks
      ensures slot == (if d < slots then d else slots) && cache[slot] == t.disk[b]
      ensures forall e :: 0 <= e <= slots && e != slot ==> cache[e] == old(cache[e])
      ensures t.disk[b].level == d ==> ok
      ensures blocks[..] == if ok then old(blocks[..])[d := b] else old(blocks[..])
      ensures ok ==> Mounted()
    {
      slot := d;
      if d < slots {
        if b == blocks[d] {
          ok := true;
          assert blocks[..] == old(blocks[..])[d := b];
          return;
        }
      } else {
        slot := slots;
      }
      cache[slot] := t.disk[b];
      if cache[slot].level != d {
        ok := false;
        return;
      }
      blocks[d] := b;
      ok := true;
    }

    /** Sets the path entry of level `d` to child `i` of the node in `slot` and reads that child. */
    method Enter(d: nat, slot: nat, i: nat) returns (ok: bool, slot': nat)
      requires Mounted() && t.Path(blocks[..], next[..], d) && d > 1 && CachedFrom(d)
      requires slot <= slots && cache[slot] == t.disk[t.NodeAt(blocks[..], d)]
      requires i < |cache[slot].children|
      modifies cache, blocks, next
      ensures ok && Mounted() && t.Path(blocks[..], next[..], d - 1) && CachedFrom(d - 1)
      ensures slot' <= slots && cache[slot'] == t.disk[t.NodeAt(blocks[..], d - 1)]
      ensures var n := old(cache[slot]);
        && blocks[..] == old(blocks[..])[d - 1 := n.children[i]]
        && next[..] == old(next[..])[d := NextOf(n, i)]
    {
      ghost var bs, nx := blocks[..], next[..];
      Descend(t, bs, nx, d, i);
      next[d] := if i == |cache[slot].keys| then 0 else i + 1;
      ok, slot' := ReadTreeNode(cache[slot].children[i], d - 1);
    }

    /** The first separator greater than the stat key of (dir, obj). */
    method FindChild(n: Node, dir: nat, obj: nat) returns (i: nat)
      requires n.Internal?
      ensures IsChildFor(n, Key(dir, obj, 0), i)
    {
      i := 0;
      while i < |n.keys|
        invariant i <= |n.keys|
        invariant forall j :: 0 <= j < i ==> !Less(Key(dir, obj, 0), n.keys[j])
      {
        var key := n.keys[i];
        if key.dir > dir || (key.dir == dir && (key.obj > obj || (key.obj == obj && key.rest > 0))) {
          break;
        }
        i := i + 1;
      }
    }

    /** Descends from the root to the leaf that would hold the stat key. */
    method FindLeaf(dir: nat, obj: nat)
      requires Mounted() && Ordered(t.disk, t.root, t.depth)
      modifies cache, blocks, next
      ensures Mounted() && t.Path(blocks[..], next[..], 1) && CachedFrom(1)
      ensures var k := Key(dir, obj, 0); var leaf := t.NodeAt(blocks[..], 1);
        && Ordered(t.disk, leaf, 1)
        && (Contains(InOrder(t.disk, t.root, t.depth), k) <==> Contains(t.disk[leaf].items, k))
        && IsSuffix(t.disk[leaf].items + t.After(blocks[..], next[..], 1), InOrder(t.disk, t.root, t.depth))
      ensures cache[1] == t.disk[t.NodeAt(blocks[..], 1)]
    {
      var d := t.depth;
      var slot := 0;
      ghost var k := Key(dir, obj, 0);
      ghost var all := InOrder(t.disk, t.root, t.depth);
      while d > 1
        invariant 1 <= d <= t.depth && Mounted()
        invariant t.Path(blocks[..], next[..], d) && CachedFrom(d)
        invariant 0 <= slot <= slots && cache[slot] == t.disk[t.NodeAt(blocks[..], d)]
        invariant Ordered(t.disk, t.NodeAt(blocks[..], d), d)
        invariant Contains(all, k) <==> Contains(InOrder(t.disk, t.NodeAt(blocks[..], d), d), k)
        invariant IsSuffix(InOrder(t.disk, t.NodeAt(blocks[..], d), d) + t.After(blocks[..], next[..], d), all)
      {
        var i := FindChild(cache[slot], dir, obj);
        ghost var bs, nx := blocks[..], next[..];
        SearchDescends(t.disk, t.NodeAt(bs, d), d, k, i);
        DescendSuffix(t, bs, nx, d, i, all);
        var ok;
        ok, slot := Enter(d, slot, i);
        d := d - 1;
      }
      assert t.depth > 1 ==> cache[1] == t.disk[blocks[1]];
    }

    /** Looks for the stat item of (dir, obj) and makes it the current item. */
    method SearchStat(dir: nat, obj: nat) returns (ok: bool)
      requires Mounted() && Ordered(t.disk, t.root, t.depth)
      modifies this`current, this`atEnd, cache, blocks, next
      ensures Mounted()
      ensures ok <==> Contains(InOrder(t.disk, t.root, t.depth), Key(dir, obj, 0))
      ensures ok ==>
                && Positioned() && !atEnd
                && IsSuffix(Remaining(), InOrder(t.disk, t.root, t.depth))
                && Remaining()[0].key == Key(dir, obj, 0)
    {
      FindLeaf(dir, obj);
      ghost var after := t.After(blocks[..], next[..], 1);
      var i := 0;
      while i < |cache[1].items|
        invariant i <= |cache[1].items|
        invariant forall j :: 0 <= j < i ==> cache[1].items[j].key != Key(dir, obj, 0)
      {
        var key := cache[1].items[i].key;
        if key.dir == dir && key.obj == obj && key.rest == 0 {
          current, atEnd := i, false;
          SuffixOfSuffix(cache[1].items, i, after, InOrder(t.disk, t.root, t.depth));
          return true;
        }
        i := i + 1;
      }
      return false;
    }

    /** The lowest level above 1 with a child left to visit, or depth + 1 when there is none. */
    method Ascend() returns (d: nat)
      requires Positioned()
      ensures 2 <= d <= t.depth + 1 && (d <= t.depth ==> next[d] != 0)
      ensures forall e :: 1 < e < d ==> next[e] == 0
    {
      d := 1;
      while true
        invariant 1 <= d <= t.depth
        invariant forall e :: 1 < e <= d ==> next[e] == 0
        decreases t.depth - d
      {
        if d == t.depth {
          return t.depth + 1;
        }
        d := d + 1;
        if next[d] != 0 {
          return;
        }
      }
    }

    /** The slot holding the path's node of level `d`, reading it again if the shared slot has lost it. */
    method Reload(d: nat) returns (slot: nat)
      requires Positioned() && 2 <= d <= t.depth
      modifies cache, blocks
      ensures Mounted() && CachedFrom(d) && (d <= slots ==> CachedFrom(1))
      ensures blocks[..] == old(blocks[..]) && t.Path(blocks[..], next[..], d)
      ensures slot <= slots && cache[slot] == t.disk[t.NodeAt(blocks[..], d)]
    {
      assert t.Link(blocks[..], next[..], d);
      if d == t.depth {
        slot := 0;
      } else if d <= slots {
        slot := d;
      } else {
        var ok;
        ok, slot := ReadTreeNode(blocks[d], d);
        assert blocks[..] == old(blocks[..]);
      }
    }

    /** Visits the next child of level `d` and then the first child of every level below. */
    method DescendLeftmost(from: nat, at: nat)
      requires Mounted() && t.Path(blocks[..], next[..], from) && 2 <= from <= t.depth && CachedFrom(from)
      requires from <= slots ==> CachedFrom(1)
      requires at <= slots && cache[at] == t.disk[t.NodeAt(blocks[..], from)]
      requires next[from] <= |cache[at].keys| && forall e :: 1 < e < from ==> next[e] == 0
      modifies cache, blocks, next
      ensures Mounted() && t.Path(blocks[..], next[..], 1) && CachedFrom(1)
      ensures t.disk[t.NodeAt(blocks[..], 1)].items + t.After(blocks[..], next[..], 1)
              == Pending(t, old(blocks[..]), old(next[..]), from)
    {
      var d, slot := from, at;
      while true
        invariant 2 <= d <= from && Mounted()
        invariant t.Path(blocks[..], next[..], d) && CachedFrom(d)
        invariant 0 <= slot <= slots && cache[slot] == t.disk[t.NodeAt(blocks[..], d)]
        invariant next[d] <= |cache[slot].keys| && forall e :: 1 < e < d ==> next[e] == 0
        invariant Pending(t, blocks[..], next[..], d) == Pending(t, old(blocks[..]), old(next[..]), from)
        decreases d
      {
        var keyNr := next[d];
        PendingStep(t, blocks[..], next[..], d);
        var ok;
        ok, slot := Enter(d, slot, keyNr);
        d := d - 1;
        if d == 1 {
          break;
        }
      }
    }

    /** Goes to the first item of the next leaf; fails when the current leaf is the last one. */
    method NextLeaf() returns (found: bool)
      requires Positioned()
      modifies cache, blocks, next
      ensures Mounted() && t.Path(blocks[..], next[..], 1) && CachedFrom(1)
      ensures !found ==> unchanged(cache) && blocks[..] == old(blocks[..]) && next[..] == old(next[..])
                         && t.After(blocks[..], next[..], 1) == []
      ensures found ==> t.disk[t.NodeAt(blocks[..], 1)].items + t.After(blocks[..], next[..], 1)
                        == t.After(old(blocks[..]), old(next[..]), 1)
    {
      var d := Ascend();
      if d > t.depth {
        AfterExhausted(t, blocks[..], next[..], t.depth);
        return false;
      }
      AfterExhausted(t, blocks[..], next[..], d - 1);
      assert t.Link(blocks[..], next[..], d);
      var slot := Reload(d);
      DescendLeftmost(d, slot);
      found := true;
    }

    /** Steps to the item that follows the current one in tree order. */
    method NextKey()
      requires Positioned() && !atEnd
      modifies this`current, this`atEnd, cache, blocks, next
      ensures Positioned()
      ensures Remaining() == old(Remaining())[1..]
      ensures atEnd <==> |old(Remaining())| == 1
    {
      assert t.depth > 1 ==> cache[1] == t.disk[blocks[1]];
      StepInLeaf(cache[1].items, current, t.After(blocks[..], next[..], 1));
      if current + 1 < |cache[1].items| {
        current := current + 1;
        return;
      }
      var found := NextLeaf();
      if found {
        ghost var leaf := t.disk[t.NodeAt(blocks[..], 1)].items;
        assert leaf[0..] == leaf;
        current := 0;
      } else {
        atEnd := true;
      }
    }

    /** The current item, stepping over it. */
    method Take() returns (item: Item)
      requires Positioned() && !atEnd
      modifies this`current, this`atEnd, cache, blocks, next
      ensures Positioned() && old(Remaining()) == [item] + Remaining()
    {
      assert t.depth > 1 ==> cache[1] == t.disk[blocks[1]];
      item := cache[1].items[current];
      assert Remaining()[0] == item;
      NextKey();
    }

    method TakeRest() returns (visited: seq<Item>)
      requires Positioned()
      modifies this`current, this`atEnd, cache, blocks, next
      ensures Positioned() && visited == old(Remaining())
    {
      visited := [];
      ghost var all, rest := Remaining(), Remaining();
      while !atEnd
        invariant Positioned() && Remaining() == rest && visited + rest == all
        decreases |rest|
      {
        var item := Take();
        MoveHead(visited, rest);
        visited, rest := visited + [item], rest[1..];
      }
    }

    /** The use callers make of the two operations: the stat item and all items behind it, in order. */
    method Visit(dir: nat, obj: nat) returns (ok: bool, visited: seq<Item>)
      requires Mounted() && Ordered(t.disk, t.root, t.depth)
      modifies this`current, this`atEnd, cache, blocks, next
      ensures ok <==> Contains(InOrder(t.disk, t.root, t.depth), Key(dir, obj, 0))
      ensures ok ==> IsSuffix(visited, InOrder(t.disk, t.root, t.depth))
                     && visited != [] && visited[0].key == Key(dir, obj, 0)
    {
      ok := SearchStat(dir, obj);
      visited := [];
      if ok {
        visited := TakeRest();
      }
    }
  }

  lemma MoveHead<T>(a: seq<T>, b: seq<T>)
    requires b != []
    ensures a + b == (a + [b[0]]) + b[1..]
  {
  }

  lemma StepInLeaf(items: seq<Item>, current: nat, after: seq<Item>)
    requires current < |items|
    ensures (items[current..] + after)[1..] == if current + 1 < |items| then items[current + 1..] + after else after
    ensures items[0..] == items
  {
  }

  lemma SuffixOfSuffix(items: seq<Item>, i: nat, after: seq<Item>, all: seq<Item>)
    requires i <= |items| && IsSuffix(items + after, all)
    ensures IsSuffix(items[i..] + after, all)
  {
    assert (items + after)[i..] == items[i..] + after;
  }

  lemma {:induction false} DescendSuffix(t: Tree, blocks: seq<nat>, next: seq<nat>, d: nat, i: nat, all: seq<Item>)
    requires t.Path(blocks, next, d) && d > 1
    requires i < |t.disk[t.NodeAt(blocks, d)].children|
    requires IsSuffix(InOrder(t.disk, t.NodeAt(blocks, d), d) + t.After(blocks, next, d), all)
    ensures var n := t.disk[t.NodeAt(blocks, d)];
      var (blocks', next') := (blocks[d - 1 := n.children[i]], next[d := NextOf(n, i)]);
      && t.Path(blocks', next', d - 1)
      && t.NodeAt(blocks', d - 1) == n.children[i]
      && IsSuffix(InOrder(t.disk, n.children[i], d - 1) + t.After(blocks', next', d - 1), all)
  {
    var n := t.disk[t.NodeAt(blocks, d)];
    Descend(t, blocks, next, d, i);
    InOrderAllSuffix(t.disk, n.children, d - 1, i);
    var whole, part := InOrder(t.disk, t.NodeAt(blocks, d), d), InOrderAll(t.disk, n.children[i..], d - 1);
    assert whole[|whole| - |part|..] + t.After(blocks, next, d) == part + t.After(blocks, next, d);
    SuffixOfSuffix(whole, |whole| - |part|, t.After(blocks, next, d), all);
  }
}
