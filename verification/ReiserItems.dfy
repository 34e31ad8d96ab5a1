/**
 A ReiserFS tree in terms of the items it was written for, and what a search and the steps behind it visit
 (loader/filesys/fsys_reiserfs.c).
 */
module ReiserItems {
  import opened ReiserTree

  // ---------- Keys as numbers ----------

  /** The directory number counts most, then the object number (32 bits), then offset and type (64 bits). */
  function Number(k: Key): nat { (k.dir * 0x1_0000_0000 + k.obj) * 0x1_0000_0000_0000_0000 + k.rest }

  predicate Fits(k: Key) { k.dir < 0x1_0000_0000 && k.obj < 0x1_0000_0000 && k.rest < 0x1_0000_0000_0000_0000 }

  lemma LessIsNumeric(a: Key, b: Key)
    requires Fits(a) && Fits(b)
    ensures Less(a, b) <==> Number(a) < Number(b)
    ensures a == b <==> Number(a) == Number(b)
  {
  }

  // ---------- Trees ----------

  /** A leaf with its items, or a node with children and the keys between them. */
  datatype Plan = Items(items: seq<Item>) | Branch(keys: seq<Key>, children: seq<Plan>)

  /** The plan is on the disk, its root in block `b`, all leaves on level 1. */
  ghost predicate Stored(disk: seq<Node>, b: nat, level: nat, p: Plan)
    decreases p
  {
    && 0 < b < |disk| && disk[b].level == level
    && match p
       case Items(items) => level == 1 && disk[b].Leaf? && disk[b].items == items && items != []
       case Branch(keys, children) =>
         && level > 1 && disk[b].Internal? && disk[b].keys == keys
         && |disk[b].children| == |children| == |keys| + 1
         && forall i :: 0 <= i < |children| ==> Stored(disk, disk[b].children[i], level - 1, children[i])
  }

  function All(p: Plan): seq<Item>
    decreases p, 0
  {
    match p
    case Items(items) => items
    case Branch(_, children) => AllOf(children)
  }

  function AllOf(ps: seq<Plan>): seq<Item>
    decreases ps, 1
  {
    if ps == [] then [] else All(ps[0]) + AllOf(ps[1..])
  }

  ghost predicate Below(s: seq<Item>, n: nat) { forall i :: 0 <= i < |s| ==> Number(s[i].key) < n }
  ghost predicate Above(s: seq<Item>, n: nat) { forall i :: 0 <= i < |s| ==> n <= Number(s[i].key) }

  ghost predicate AllFit(s: seq<Item>) { forall i :: 0 <= i < |s| ==> Fits(s[i].key) }
  ghost predicate Ascending(s: seq<Item>) { forall i, j :: 0 <= i < j < |s| ==> Number(s[i].key) < Number(s[j].key) }

  /** The keys of a node divide its items: those of child i lie below key i, the others do not. */
  ghost predicate Divided(p: Plan)
    decreases p
  {
    match p
    case Items(items) => Ascending(items) && AllFit(items)
    case Branch(keys, children) =>
      && |children| == |keys| + 1
      && (forall i :: 0 <= i < |keys| ==> Fits(keys[i]))
      && (forall i, j :: 0 <= i <= j < |keys| ==> Number(keys[i]) <= Number(keys[j]))
      && (forall i :: 0 <= i < |children| ==> Divided(children[i]))
      && (forall i :: 0 <= i < |keys| ==> Below(All(children[i]), Number(keys[i])))
      && (forall i :: 0 <= i < |keys| ==> Above(All(children[i + 1]), Number(keys[i])))
  }

  lemma {:induction false} StoredIsComplete(disk: seq<Node>, b: nat, level: nat, p: Plan)
    requires Stored(disk, b, level, p)
    ensures Complete(disk, b, level) && InOrder(disk, b, level) == All(p)
    decreases p, 0
  {
    if p.Branch? {
      forall i | 0 <= i < |p.children|
        ensures Complete(disk, disk[b].children[i], level - 1)
      {
        StoredIsComplete(disk, disk[b].children[i], level - 1, p.children[i]);
      }
      StoredAll(disk, disk[b].children, level - 1, p.children);
    }
  }

  lemma {:induction false} StoredAll(disk: seq<Node>, cs: seq<nat>, level: nat, ps: seq<Plan>)
    requires |cs| == |ps| && forall i :: 0 <= i < |ps| ==> Stored(disk, cs[i], level, ps[i])
    ensures AllComplete(disk, cs, level) && InOrderAll(disk, cs, level) == AllOf(ps)
    decreases ps, 1
  {
    if ps != [] {
      StoredIsComplete(disk, cs[0], level, ps[0]);
      StoredAll(disk, cs[1..], level, ps[1..]);
      assert forall i :: 0 < i < |cs| ==> cs[1..][i - 1] == cs[i];
    }
  }

  lemma {:induction false} DividedFits(p: Plan)
    requires Divided(p)
    ensures AllFit(All(p))
    decreases p, 0
  {
    if p.Branch? {
      AllDividedFit(p.children);
    }
  }

  lemma {:induction false} AllDividedFit(ps: seq<Plan>)
    requires forall i :: 0 <= i < |ps| ==> Divided(ps[i])
    ensures AllFit(AllOf(ps))
    decreases ps, 1
  {
    if ps != [] {
      DividedFits(ps[0]);
      AllDividedFit(ps[1..]);
    }
  }

  lemma KeysOrdered(keys: seq<Key>)
    requires forall i :: 0 <= i < |keys| ==> Fits(keys[i])
    requires forall i, j :: 0 <= i <= j < |keys| ==> Number(keys[i]) <= Number(keys[j])
    ensures forall i, j :: 0 <= i <= j < |keys| ==> !Less(keys[j], keys[i])
  {
    forall i, j | 0 <= i <= j < |keys|
      ensures !Less(keys[j], keys[i])
    {
      LessIsNumeric(keys[j], keys[i]);
    }
  }

  lemma ItemsBelow(s: seq<Item>, k: Key)
    requires AllFit(s) && Fits(k)
    ensures Below(s, Number(k)) ==> forall it :: it in s ==> Less(it.key, k)
    ensures Above(s, Number(k)) ==> forall it :: it in s ==> !Less(it.key, k)
  {
    forall i | 0 <= i < |s|
      ensures Less(s[i].key, k) <==> Number(s[i].key) < Number(k)
    {
      LessIsNumeric(s[i].key, k);
    }
  }

  lemma ItemsAscend(s: seq<Item>)
    requires AllFit(s)
    ensures Ascending(s) <==> Sorted(s)
  {
    forall i, j | 0 <= i < j < |s|
      ensures Less(s[i].key, s[j].key) <==> Number(s[i].key) < Number(s[j].key)
    {
      LessIsNumeric(s[i].key, s[j].key);
    }
  }

  lemma {:induction false} DividedIsOrdered(disk: seq<Node>, b: nat, level: nat, p: Plan)
    requires Stored(disk, b, level, p) && Divided(p)
    ensures Complete(disk, b, level) && Ordered(disk, b, level)
    decreases p
  {
    hide Less, Number, InOrder, All;
    StoredIsComplete(disk, b, level, p);
    match p
    case Items(items) =>
      ItemsAscend(items);
    case Branch(keys, children) =>
      var cs := disk[b].children;
      KeysOrdered(keys);
      forall i | 0 <= i < |children|
        ensures Ordered(disk, cs[i], level - 1)
        ensures InOrder(disk, cs[i], level - 1) == All(children[i]) && AllFit(All(children[i]))
      {
        DividedIsOrdered(disk, cs[i], level - 1, children[i]);
        StoredIsComplete(disk, cs[i], level - 1, children[i]);
        DividedFits(children[i]);
      }
      forall i | 0 <= i < |keys|
        ensures forall it :: it in InOrder(disk, cs[i], level - 1) ==> Less(it.key, keys[i])
        ensures forall it :: it in InOrder(disk, cs[i + 1], level - 1) ==> !Less(it.key, keys[i])
      {
        ItemsBelow(All(children[i]), keys[i]);
        ItemsBelow(All(children[i + 1]), keys[i]);
      }
  }

  /** What is known of the items of a divided plan: they ascend. */
  lemma {:induction false} DividedAscends(disk: seq<Node>, b: nat, level: nat, p: Plan)
    requires Stored(disk, b, level, p) && Divided(p)
    ensures Ascending(All(p)) && AllFit(All(p))
  {
    DividedIsOrdered(disk, b, level, p);
    StoredIsComplete(disk, b, level, p);
    OrderedIsSorted(disk, b, level);
    DividedFits(p);
    ItemsAscend(All(p));
  }

  /** Visiting an object of a stored tree: the stat item is found if the tree has it, whatever was searched for before,
      and what comes are the items from there on, whose keys are the numbers from its own upward. */
  method VisitStored(c: Cursor, dir: nat, obj: nat, ghost p: Plan) returns (ok: bool, visited: seq<Item>, ghost i: nat)
    requires c.Mounted() && Stored(c.t.disk, c.t.root, c.t.depth, p) && Divided(p)
    modifies c`current, c`atEnd, c.cache, c.blocks, c.next
    ensures ok <==> exists j :: 0 <= j < |All(p)| && All(p)[j].key == Key(dir, obj, 0)
    ensures ok ==> i < |All(p)| && All(p)[i].key == Key(dir, obj, 0) && visited == All(p)[i..]
    ensures ok ==> forall it :: it in visited <==> it in All(p) && Number(it.key) >= Number(Key(dir, obj, 0))
  {
    hide All, Stored, Divided, Number, InOrder, Ordered;
    StoredIsComplete(c.t.disk, c.t.root, c.t.depth, p);
    DividedIsOrdered(c.t.disk, c.t.root, c.t.depth, p);
    DividedAscends(c.t.disk, c.t.root, c.t.depth, p);
    ok, visited := c.Visit(dir, obj);
    i := if ok then |All(p)| - |visited| else 0;
    if ok {
      RestIsAbove(All(p), i);
    }
  }

  lemma RestIsAbove(s: seq<Item>, i: nat)
    requires Ascending(s) && i < |s|
    ensures forall it :: it in s[i..] <==> it in s && Number(it.key) >= Number(s[i].key)
  {
    forall it | it in s && Number(it.key) >= Number(s[i].key)
      ensures it in s[i..]
    {
      var j :| 0 <= j < |s| && s[j] == it;
      assert i <= j;
      assert s[i..][j - i] == it;
    }
  }
}
