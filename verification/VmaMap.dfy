/**
 * The map of virtual memory areas of mm/vmm.c: a list in address order, a
 * red-black tree over the same records once there are RB_MIN_MAP_COUNT of them,
 * and the area found last.
 */
module VmaMap {
  import opened Common
  import opened RbShape
  import opened RbHeap
  import opened RbLinks
  import opened RbTree
  import opened VmaShape

  const RB_MIN_MAP_COUNT := 32

  ghost function Ids(s: seq<Vma>): (r: seq<Ptr>)
    ensures |r| == |s| && forall i :: 0 <= i < |s| ==> r[i] == s[i].id
  {
    if s == [] then [] else [s[0].id] + Ids(s[1..])
  }

  ghost predicate Listed(s: seq<Vma>, p: Ptr) {
    exists i :: 0 <= i < |s| && s[i].id == p
  }

  // The record at address `p`.
  function Get(s: seq<Vma>, p: Ptr): (v: Vma)
    requires Listed(s, p)
    ensures v in s && v.id == p
  {
    if s[0].id == p then s[0] else Get(s[1..], p)
  }

  lemma GetAt(s: seq<Vma>, i: nat)
    requires Ordered(s) && i < |s|
    ensures Listed(s, s[i].id) && Get(s, s[i].id) == s[i]
  {
    var v := Get(s, s[i].id);
    var j :| 0 <= j < |s| && s[j] == v;
  }

  // The records `a` end at or before `x`.
  ghost predicate EndBy(s: seq<Vma>, a: seq<Ptr>, x: int) {
    forall i :: 0 <= i < |a| ==> Listed(s, a[i]) && Get(s, a[i]).hi <= x
  }

  // What comes before an area in the list ends where the area starts, or earlier.
  lemma EarlierEnd(s: seq<Vma>, a: seq<Ptr>, n: Ptr, b: seq<Ptr>)
    requires Ordered(s) && Ids(s) == a + [n] + b
    ensures Listed(s, n) && EndBy(s, a, Get(s, n).lo)
  {
    hide Ids; hide Get;
    var k := |a|;
    assert (a + [n] + b)[k] == n;
    GetAt(s, k);
    forall i | 0 <= i < k
      ensures Listed(s, a[i]) && Get(s, a[i]).hi <= Get(s, n).lo
    {
      assert (a + [n] + b)[i] == a[i];
      GetAt(s, i);
    }
  }

  lemma FoundAt(s: seq<Vma>, a: seq<Ptr>, b: seq<Ptr>, x: int)
    requires Ordered(s) && Ids(s) == a + b && EndBy(s, a, x)
    requires b != [] ==> Listed(s, b[0]) && Get(s, b[0]).hi > x
    ensures First(s, x) == |a|
    ensures b != [] ==> s[|a|].id == b[0]
  {
    hide Ids; hide Get;
    forall j: nat | j < |a|
      ensures s[j].hi <= x
    {
      assert (a + b)[j] == a[j];
      GetAt(s, j);
    }
    if b != [] {
      assert (a + b)[|a|] == b[0];
      GetAt(s, |a|);
    }
    FirstUnique(s, x, |a|);
  }

  lemma PassedBy(s: seq<Vma>, a: seq<Ptr>, n: Ptr, x: int)
    requires Ordered(s) && Listed(s, n) && Get(s, n).hi <= x && EndBy(s, a, Get(s, n).lo)
    ensures EndBy(s, a + [n], x)
  {
    hide Get;
    var i :| 0 <= i < |s| && s[i] == Get(s, n);
    assert Proper(s[i]);
  }

  lemma EndByNone(s: seq<Vma>, x: int)
    ensures EndBy(s, [], x)
  {
  }

  lemma EndBySooner(s: seq<Vma>, a: seq<Ptr>, y: int, x: int)
    requires EndBy(s, a, y) && y <= x
    ensures EndBy(s, a, x)
  {
    hide Get;
  }

  lemma IndexesFacts(t: RbTree, s: seq<Vma>)
    requires Indexes(t, s)
    ensures t.Valid() && t.Elems() == Ids(s)
  {
  }

  lemma PlaceBound(s: seq<Vma>, lo: int, i: int)
    requires Place(s, lo, i)
    ensures 0 <= i <= |s|
  {
  }

  lemma ListedMore(s: seq<Vma>, v: Vma, i: nat, c: Option<Ptr>)
    requires i <= |s| && (c.Some? ==> Listed(s, c.value))
    ensures c.Some? ==> Listed(s[..i] + [v] + s[i..], c.value)
  {
    var s' := s[..i] + [v] + s[i..];
    if c.Some? {
      var j :| 0 <= j < |s| && s[j].id == c.value;
      assert s'[if j < i then j else j + 1] == s[j];
    }
  }

  lemma ListedLess(s: seq<Vma>, i: nat, c: Option<Ptr>)
    requires i < |s| && (c.Some? ==> Listed(s, c.value))
    ensures c.Some? && c.value != s[i].id ==> Listed(s[..i] + s[i + 1..], c.value)
  {
    var s' := s[..i] + s[i + 1..];
    if c.Some? && c.value != s[i].id {
      var j :| 0 <= j < |s| && s[j].id == c.value;
      assert s'[if j < i then j else j - 1] == s[j];
    }
  }

  lemma ListedSame(s: seq<Vma>, i: nat, v: Vma, c: Option<Ptr>)
    requires i < |s| && v.id == s[i].id && (c.Some? ==> Listed(s, c.value))
    ensures c.Some? ==> Listed(s[i := v], c.value)
  {
    if c.Some? {
      var j :| 0 <= j < |s| && s[j].id == c.value;
      assert s[i := v][j].id == c.value;
    }
  }

  // find_vma_rb: the descent through the tree finds what the search along the list finds.
  method FindRb(t: RbTree, s: seq<Vma>, addr: int) returns (r: Option<Ptr>)
    requires t.Valid() && t.Elems() == Ids(s) && Ordered(s)
    ensures var i := First(s, addr); r == if i < |s| then Some(s[i].id) else None
  {
    hide Zip; hide RedBlack; hide Sorted; hide InOrder; hide Plug; hide Get; hide Ordered; hide First; hide Ids; hide Listed; hide EndBy;
    ghost var p, u := Top, t.shape;
    PlugNone(u);
    EndByNone(s, addr);
    ZipFields(t.M(), p, u, t.root, t.nil);
    var node := t.kid[Slot(t.root, Left)];
    r := None;
    while node != t.nil
      invariant Zip(t.M(), p, u, t.root, t.nil) && Plug(p, u) == t.shape && node == TopNode(u, t.nil)
      invariant EndBy(s, Before(p), addr)
      invariant r == if After(p) == [] then None else Some(After(p)[0])
      invariant After(p) != [] ==> Listed(s, After(p)[0]) && Get(s, After(p)[0]).hi > addr
      decreases u
    {
      ZipFields(t.M(), p, u, t.root, t.nil);
      PlugInOrder(p, u);
      InOrderBin(u);
      Split(Before(p), InOrder(u.l), u.n, InOrder(u.r), After(p));
      EarlierEnd(s, Before(p) + InOrder(u.l), u.n, InOrder(u.r) + After(p));
      var v := Get(s, node);
      if v.hi > addr {
        r := Some(node);
        if v.lo <= addr {
          EndBySooner(s, Before(p) + InOrder(u.l), v.lo, addr);
          FoundAt(s, Before(p) + InOrder(u.l), [u.n] + (InOrder(u.r) + After(p)), addr);
          return;
        }
        ZipDown(t.M(), p, u, Left, t.root, t.nil);
        node := t.kid[Slot(node, Left)];
        p, u := Step(Left, p, u.n, u.red, u.r), u.l;
      } else {
        PassedBy(s, Before(p) + InOrder(u.l), u.n, addr);
        ZipDown(t.M(), p, u, Right, t.root, t.nil);
        node := t.kid[Slot(node, Right)];
        p, u := Step(Right, p, u.n, u.red, u.l), u.r;
      }
    }
    ZipFields(t.M(), p, u, t.root, t.nil);
    PlugInOrder(p, u);
    InOrderBin(u);
    FoundAt(s, Before(p), After(p), addr);
  }

  lemma PlugNone(t: Tree)
    ensures Plug(Top, t) == t
  {
  }

  lemma InOrderBin(u: Tree)
    ensures InOrder(u) == if u.Leaf? then [] else InOrder(u.l) + [u.n] + InOrder(u.r)
  {
  }

  lemma Split(a: seq<Ptr>, l: seq<Ptr>, n: Ptr, r: seq<Ptr>, b: seq<Ptr>)
    ensures a + (l + [n] + r) + b == (a + l) + [n] + (r + b)
    ensures a + (l + [n] + r) + b == (a + l) + ([n] + (r + b))
  {
  }

  // The keys of the tree are the start addresses.
  ghost predicate Keyed(s: seq<Vma>, key: map<Ptr, int>) {
    forall i :: 0 <= i < |s| ==> s[i].id in key && key[s[i].id] == s[i].lo
  }

  // The tree holds the records of the list, in the same order.
  ghost predicate Indexes(t: RbTree, s: seq<Vma>)
    reads t
  {
    t.Valid() && t.nil == 0 && t.root == 1 && t.Elems() == Ids(s) && Keyed(s, t.key)
  }

  // The new record lands in the tree where it belongs in the list.
  lemma PlacedAt(s: seq<Vma>, v: Vma, new': seq<Ptr>, key: map<Ptr, int>) returns (i: nat)
    requires Ordered(s) && Fresh(s, v.id) && v.id in key && key[v.id] == v.lo && Keyed(s, key)
    requires InsertedAt(Ids(s), new', v.id, key)
    ensures Place(s, v.lo, i) && new' == Ids(s[..i] + [v] + s[i..]) && Keyed(s[..i] + [v] + s[i..], key)
  {
    hide InsertedAt; hide Ids;
    i := InsertedIndex(Ids(s), new', v.id, key);
    IdsInsert(s, v, i);
    KeyedInsert(s, v, i, key);
  }

  lemma InsertedIndex(ids: seq<Ptr>, new': seq<Ptr>, z: Ptr, key: map<Ptr, int>) returns (i: nat)
    requires z in key && InsertedAt(ids, new', z, key)
    ensures i <= |ids| && new' == ids[..i] + [z] + ids[i..]
    ensures forall j :: 0 <= j < i ==> ids[j] in key && key[ids[j]] <= key[z]
    ensures forall j :: i <= j < |ids| ==> ids[j] in key && key[ids[j]] > key[z]
  {
    i :| i <= |ids| && new' == ids[..i] + [z] + ids[i..]
         && (forall n <- ids[..i] :: n in key && key[n] <= key[z])
         && (forall n <- ids[i..] :: n in key && key[n] > key[z]);
    forall j | 0 <= j < i
      ensures ids[j] in key && key[ids[j]] <= key[z]
    {
      assert ids[..i][j] == ids[j];
    }
    forall j | i <= j < |ids|
      ensures ids[j] in key && key[ids[j]] > key[z]
    {
      assert ids[i..][j - i] == ids[j];
    }
  }

  lemma IdsJoin(a: seq<Vma>, b: seq<Vma>)
    ensures Ids(a + b) == Ids(a) + Ids(b)
  {
    hide Ids;
    forall i | 0 <= i < |a| + |b|
      ensures Ids(a + b)[i] == (Ids(a) + Ids(b))[i]
    {
      assert (a + b)[i] == if i < |a| then a[i] else b[i - |a|];
    }
  }

  lemma IdsParts(s: seq<Vma>, i: nat)
    requires i <= |s|
    ensures Ids(s[..i]) == Ids(s)[..i] && Ids(s[i..]) == Ids(s)[i..]
  {
    hide Ids;
  }

  lemma IdsInsert(s: seq<Vma>, v: Vma, i: nat)
    requires i <= |s|
    ensures Ids(s[..i] + [v] + s[i..]) == Ids(s)[..i] + [v.id] + Ids(s)[i..]
  {
    hide Ids;
    IdsJoin(s[..i] + [v], s[i..]);
    IdsJoin(s[..i], [v]);
    IdsParts(s, i);
    assert Ids([v]) == [v.id];
  }

  lemma KeyedInsert(s: seq<Vma>, v: Vma, i: nat, key: map<Ptr, int>)
    requires i <= |s| && Keyed(s, key) && v.id in key && key[v.id] == v.lo
    ensures Keyed(s[..i] + [v] + s[i..], key)
  {
  }

  // The predecessor in the tree is the record before it in the list.
  lemma PrevAt(s: seq<Vma>, v: Vma, i: nat, prev: Ptr)
    requires i <= |s| && Ordered(s[..i] + [v] + s[i..]) && Precedes(Ids(s[..i] + [v] + s[i..]), v.id, prev, 0)
    ensures prev == if i == 0 then 0 else s[i - 1].id
  {
    var s' := s[..i] + [v] + s[i..];
    var k: nat :| PrecedesAt(Ids(s'), v.id, prev, 0, k);
    assert s'[i] == v && s'[k].id == v.id;
    assert k == i;
  }

  // The index of the record at address `p`.
  function IndexOf(s: seq<Vma>, p: Ptr): (i: nat)
    requires Listed(s, p)
    ensures i < |s| && s[i].id == p
  {
    if s[0].id == p then 0 else 1 + IndexOf(s[1..], p)
  }

  // insert_vma_rb into an index that holds the areas `s`; `i` is where the new area belongs in the list.
  method InsertRb(t: RbTree, s: seq<Vma>, v: Vma) returns (i: nat)
    requires Indexes(t, s) && Ordered(s) && Proper(v) && Fresh(s, v.id) && Clear(s, v.lo, v.hi)
    modifies t
    ensures Place(s, v.lo, i) && Indexes(t, s[..i] + [v] + s[i..])
  {
    hide Zip; hide RedBlack; hide Sorted; hide InOrder; hide InsertedAt; hide Precedes; hide Ids; hide Ordered; hide Keyed; hide Has;
    NotIn(s, v.id);
    t.NewRecord(v.id, v.lo);
    KeyedMore(s, t.key, old(t.key), v);
    t.Insert(v.id);
    ghost var k := PlacedAt(s, v, t.Elems(), t.key);
    InsertOrdered(s, v, k);
    SplitIds(s, v, k);
    var prev := t.Predecessor(v.id);
    PrevAt(s, v, k, prev);
    i := if prev == 0 then 0 else IndexOf(s, prev) + 1;
    IndexUnique(s, k, prev);
  }

  lemma NotIn(s: seq<Vma>, p: Ptr)
    requires Fresh(s, p)
    ensures p !in Ids(s)
  {
  }

  lemma KeyedMore(s: seq<Vma>, key': map<Ptr, int>, key: map<Ptr, int>, v: Vma)
    requires Keyed(s, key) && Fresh(s, v.id) && key' == key[v.id := v.lo]
    ensures Keyed(s, key')
  {
  }

  lemma SplitIds(s: seq<Vma>, v: Vma, i: nat)
    requires i <= |s|
    ensures v.id in Ids(s[..i] + [v] + s[i..])
  {
    assert Ids(s[..i] + [v] + s[i..])[i] == v.id;
  }

  lemma IndexUnique(s: seq<Vma>, i: nat, p: Ptr)
    requires Ordered(s) && i <= |s| && p == if i == 0 then 0 else s[i - 1].id
    ensures p == 0 <==> i == 0
    ensures i > 0 ==> Listed(s, p) && IndexOf(s, p) + 1 == i
  {
    if i > 0 {
      assert Proper(s[i - 1]);
    }
  }

  // rb_delete of the record at index `i`.
  method DeleteRb(t: RbTree, s: seq<Vma>, i: nat)
    requires Indexes(t, s) && Ordered(s) && i < |s|
    modifies t
    ensures Indexes(t, s[..i] + s[i + 1..])
  {
    hide Zip; hide RedBlack; hide Sorted; hide InOrder; hide Removed; hide Ids; hide Ordered; hide Keyed;
    assert s[i].id == Ids(s)[i];
    t.Delete(s[i].id);
    RemovedIds(s, i, t.Elems());
    KeyedLess(s, i, t.key);
  }

  lemma RemovedIds(s: seq<Vma>, i: nat, ids: seq<Ptr>)
    requires Ordered(s) && i < |s| && Removed(Ids(s), ids, s[i].id)
    ensures ids == Ids(s[..i] + s[i + 1..])
  {
    hide Ids; hide Proper;
    var k :| 0 <= k < |Ids(s)| && Ids(s)[k] == s[i].id && ids == Ids(s)[..k] + Ids(s)[k + 1..];
    assert s[k].id == s[i].id && k == i;
    hide Ordered; hide Removed;
    IdsLess(s, i);
  }

  lemma IdsLess(s: seq<Vma>, i: nat)
    requires i < |s|
    ensures Ids(s[..i] + s[i + 1..]) == Ids(s)[..i] + Ids(s)[i + 1..]
  {
    hide Ids;
    IdsJoin(s[..i], s[i + 1..]);
    IdsParts(s, i);
    IdsParts(s, i + 1);
  }

  lemma KeyedLess(s: seq<Vma>, i: nat, key: map<Ptr, int>)
    requires i < |s| && Keyed(s, key)
    ensures Keyed(s[..i] + s[i + 1..], key)
  {
  }

  // A record in the tree gets another start address that keeps its place in the order.
  method RekeyRb(t: RbTree, s: seq<Vma>, i: nat, v: Vma)
    requires Indexes(t, s) && i < |s| && v.id == s[i].id && Ordered(s) && Ordered(s[i := v])
    modifies t
    ensures Indexes(t, s[i := v])
  {
    hide Zip; hide RedBlack; hide Sorted; hide InOrder; hide Ids; hide Ordered; hide Keyed;
    KeyedChange(s, i, v, t.key);
    KeyedSorted(s[i := v], t.key[v.id := v.lo]);
    SameIds(s, i, v);
    t.Rekey(v.id, v.lo);
  }

  lemma SameIds(s: seq<Vma>, i: nat, v: Vma)
    requires i < |s| && v.id == s[i].id
    ensures Ids(s[i := v]) == Ids(s)
  {
    hide Ids;
  }

  lemma KeyedChange(s: seq<Vma>, i: nat, v: Vma, key: map<Ptr, int>)
    requires i < |s| && v.id == s[i].id && Ordered(s) && Keyed(s, key)
    ensures Keyed(s[i := v], key[v.id := v.lo])
  {
  }

  lemma KeyedSorted(s: seq<Vma>, key: map<Ptr, int>)
    requires Ordered(s) && Keyed(s, key)
    ensures Sorted(Ids(s), key)
  {
    hide Ids;
    forall i, j | 0 <= i < j < |s|
      ensures key[Ids(s)[i]] <= key[Ids(s)[j]]
    {
      assert Proper(s[i]) && s[i].hi <= s[j].lo;
    }
  }

  // The tree that insert_vma_struct builds when there are enough areas.
  method BuildTree(s: seq<Vma>) returns (t: RbTree)
    requires Ordered(s)
    ensures fresh(t) && Indexes(t, s)
  {
    hide Zip; hide RedBlack; hide Sorted; hide InOrder; hide Ordered; hide Proper;
    t := new RbTree(0, 1);
    var i := 0;
    while i < |s|
      invariant 0 <= i <= |s| && fresh(t) && Indexes(t, s[..i])
    {
      PrefixFits(s, i);
      hide Indexes;
      var k := InsertRb(t, s[..i], s[i]);
      assert k == i;
      assert s[..i][..k] + [s[i]] + s[..i][k..] == s[..i + 1];
      i := i + 1;
    }
    assert s[..i] == s;
  }

  lemma PrefixFits(s: seq<Vma>, i: nat)
    requires Ordered(s) && i < |s|
    ensures Ordered(s[..i]) && Proper(s[i]) && Fresh(s[..i], s[i].id) && Clear(s[..i], s[i].lo, s[i].hi)
    ensures forall k: int :: Place(s[..i], s[i].lo, k) ==> k == i
  {
    forall j | 0 <= j < i
      ensures s[..i][j].lo < s[i].lo
    {
      assert Proper(s[j]);
    }
    forall k: int
      ensures Place(s[..i], s[i].lo, k) ==> k == i
    {
      if 0 <= k < i {
        assert s[..i][k].lo < s[i].lo;
      }
    }
  }

  class Mm {
    var s: seq<Vma>        // mmap_list
    var tree: RbTree?      // mmap_tree
    var cache: Option<Ptr> // mmap_cache
    var count: int         // map_count

    ghost predicate Valid()
      reads this, tree
    {
      && Ordered(s) && count == |s| && (cache.Some? ==> Listed(s, cache.value))
      && if tree == null then |s| < RB_MIN_MAP_COUNT else Indexes(tree, s)
    }

    // mm_create
    constructor ()
      ensures Valid() && s == [] && tree == null
    {
      s, tree, cache, count := [], null, None, 0;
    }

    // find_vma: the first area that ends behind `addr`, whichever of cache, tree and list is asked.
    method FindVma(addr: int) returns (r: Option<Ptr>)
      requires Valid()
      modifies `cache
      ensures Valid()
      ensures var i := First(s, addr); r == if i < |s| then Some(s[i].id) else None
      ensures cache == if r.Some? then r else old(cache)
    {
      hide Ordered; hide First; hide Indexes; hide Get;
      if cache.Some? {
        var v := Get(s, cache.value);
        ghost var i :| 0 <= i < |s| && s[i] == v;
        if v.lo <= addr && v.hi > addr {
          InIsFirst(s, i, addr);
          return cache;
        }
      }
      if tree != null {
        IndexesFacts(tree, s);
        r := FindRb(tree, s, addr);
      } else {
        var i: nat := 0;
        while i < |s| && !(addr < s[i].hi)
          invariant i <= |s| && forall j :: 0 <= j < i ==> s[j].hi <= addr
        {
          i := i + 1;
        }
        FirstUnique(s, addr, i);
        r := if i < |s| then Some(s[i].id) else None;
      }
      if r.Some? {
        cache := r;
      }
    }

    // The walk of insert_vma_struct along the list.
    method FindPlace(lo: int) returns (i: nat)
      requires Valid()
      ensures Place(s, lo, i)
    {
      hide Indexes;
      i := 0;
      while i < |s| && !(s[i].lo > lo)
        invariant i <= |s| && forall j :: 0 <= j < i ==> s[j].lo <= lo
      {
        i := i + 1;
      }
      if i < |s| {
        forall j | i < j < |s|
          ensures s[j].lo > lo
        {
          assert Proper(s[i]);
        }
      }
    }

    // insert_vma_struct: the assertions on the neighbours hold when the new area overlaps no other.
    method InsertVma(v: Vma) returns (ghost i: nat)
      requires Valid() && Proper(v) && Fresh(s, v.id) && Clear(s, v.lo, v.hi)
      modifies `s, `tree, `count, tree
      ensures Valid() && (tree == old(tree) || fresh(tree))
      ensures Place(old(s), v.lo, i) && i <= |old(s)| && s == old(s)[..i] + [v] + old(s)[i..]
      ensures tree != null <==> old(tree) != null || |s| >= RB_MIN_MAP_COUNT
    {
      hide Indexes; hide Ordered; hide Place;
      var k: nat;
      if tree != null {
        k := InsertRb(tree, s, v);
      } else {
        k := FindPlace(v.lo);
      }
      i := k;
      PlaceBound(s, v.lo, k);
      InsertOrdered(s, v, k);
      ListedMore(s, v, k, cache);
      s := s[..k] + [v] + s[k..];
      count := count + 1;
      if tree == null && count >= RB_MIN_MAP_COUNT {
        tree := BuildTree(s);
      }
    }

    // remove_vma_struct for the record at index `i` of the list.
    method RemoveVma(i: nat)
      requires Valid() && i < |s|
      modifies `s, `cache, `count, tree
      ensures Valid() && s == old(s)[..i] + old(s)[i + 1..]
    {
      hide Indexes; hide Ordered;
      var p := s[i].id;
      if tree != null {
        DeleteRb(tree, s, i);
      }
      RemoveOrdered(s, i);
      ListedLess(s, i, cache);
      s := s[..i] + s[i + 1..];
      if cache == Some(p) {
        cache := None;
      }
      count := count - 1;
    }

    // The record at index `i` gets new bounds; it stays in the list and in the tree.
    method SetBounds(i: nat, lo: int, hi: int)
      requires Valid() && i < |s| && Proper(s[i].(lo := lo, hi := hi))
      requires (i > 0 ==> s[i - 1].hi <= lo) && (i + 1 < |s| ==> hi <= s[i + 1].lo)
      modifies `s, tree
      ensures Valid() && s == old(s)[i := old(s)[i].(lo := lo, hi := hi)]
    {
      hide Indexes; hide Ordered; hide Proper;
      var v := s[i].(lo := lo, hi := hi);
      ChangeOrdered(s, i, v);
      if tree != null {
        RekeyRb(tree, s, i, v);
      }
      ListedSame(s, i, v, cache);
      s := s[i := v];
    }

    /**
     * mm_map.  Some(ret) is the return value; None stands for the assertion on an
     * empty range in insert_vma_struct.  `p` is the address kmalloc gives out.
     */
    method Map(addr: int, len: int, flags: int, p: Option<Ptr>) returns (r: Option<int>)
      requires Valid() && 0 <= addr < U64 && 0 <= len < U64 && (p.Some? ==> p.value > 1 && Fresh(s, p.value))
      modifies this, tree
      ensures Valid() && (tree == old(tree) || fresh(tree))
      ensures var start, end := PgDown(addr), PgUp((addr + len) % U64);
              && (r == Some(-E_INVAL) <==> Meets(old(s), start, end))
              && (r == Some(-E_NO_MEM) <==> !Meets(old(s), start, end) && p.None?)
              && (r == None <==> !Meets(old(s), start, end) && p.Some? && end <= start)
              && (r == Some(0) ==> forall x, f :: Maps(s, x, f) <==> Maps(old(s), x, f) || (start <= x < end && f == flags))
              && (r == Some(0) ==> start < end && forall x, f :: start <= x < end ==> !Maps(old(s), x, f))
      ensures r == Some(0) ==> p.Some? && InsertedIn(old(s), s, Vma(p.value, PgDown(addr), PgUp((addr + len) % U64), flags))
      ensures (r != Some(0) ==> s == old(s)) && r in {None, Some(0), Some(-E_INVAL), Some(-E_NO_MEM)}
    {
      hide Ordered; hide First; hide Indexes; hide Maps; hide Get;
      var start, end := PgDown(addr), PgUp((addr + len) % U64);
      PageFacts(addr, len);
      var v := FindVma(start);
      MeetsFirst(s, start, end);
      if v.Some? && end > Get(s, v.value).lo {
        GetAt(s, First(s, start));
        return Some(-E_INVAL);
      }
      if v.Some? {
        GetAt(s, First(s, start));
      }
      if p.None? {
        return Some(-E_NO_MEM);
      }
      if !(start < end) {
        return None;
      }
      NotMeets(s, start, end);
      ghost var i := InsertVma(Vma(p.value, start, end, flags));
      InsertMaps(old(s), Vma(p.value, start, end, flags), i);
      assert InsertedIn(old(s), s, Vma(p.value, start, end, flags));
      r := Some(0);
    }

    // mm_unmap, when the range lies inside one area: the record keeps the upper part and a new one gets the lower part.
    method Split(i: nat, start: int, end: int, p: Ptr)
      requires Valid() && i < |s| && p > 1 && Fresh(s, p)
      requires s[i].lo < start <= end < s[i].hi && start % PGSIZE == 0 && end % PGSIZE == 0
      modifies this, tree
      ensures Valid() && (tree == old(tree) || fresh(tree))
      ensures forall x, f :: Maps(s, x, f) <==> Kept(old(s), x, f, start, end)
      ensures !Straddled(s, start) && forall z: Ptr :: Fresh(old(s), z) && z != p ==> Fresh(s, z)
    {
      hide Ordered; hide Indexes; hide Maps; hide In; hide Proper; hide Straddled;
      var v := s[i];
      ghost var s0 := s;
      SplitFits(s, i, start, end, p);
      SetBounds(i, end, v.hi);
      ghost var s1 := s;
      ghost var k := InsertVma(Vma(p, v.lo, start, v.flags));
      SplitMaps(s0, i, start, end, p, k);
      SplitFresh(s0, i, s1, k, s);
      SplitParts(s0, i, start, end, p, k);
    }

    // The first loop of mm_unmap: takes every area that starts before `end` out of the map, from index `i` on.
    method TakeOut(i: nat, end: int, ghost start: int) returns (out: seq<Vma>)
      requires Valid() && i == First(s, start) && i < |s| && s[i].lo < end
      modifies this, tree
      ensures Valid() && tree == old(tree) && Cut(old(s), s, out, i, end)
    {
      hide Indexes; hide Ordered; hide First; hide TakenOut; hide Cut;
      out := [];
      ghost var s0 := s;
      TakenNone(s, i, end);
      while i < |s| && s[i].lo < end
        invariant Valid() && tree == old(tree) && TakenOut(s0, s, out, i, end)
        decreases |s|
      {
        TakenMore(s0, s, out, i, end);
        out := out + [s[i]];
        RemoveVma(i);
      }
      TakenAll(s0, s, out, i, end);
    }

    // The second loop of mm_unmap: what remains of the areas taken out is put back; the rest of them is unmapped.
    method PutBack(out: seq<Vma>, start: int, end: int, ghost s0: seq<Vma>, ghost i: nat) returns (dropped: seq<(int, int)>)
      requires Valid() && Ordered(s0) && i == First(s0, start) && Cut(s0, s, out, i, end) && Whole(out, start, end)
      requires start < end && start % PGSIZE == 0 && end % PGSIZE == 0
      modifies this, tree
      ensures Valid() && (tree == old(tree) || fresh(tree))
      ensures forall x, f :: Maps(s, x, f) <==> Kept(s0, x, f, start, end)
      ensures forall x :: Drops(dropped, x) <==> start <= x < end && exists f :: Maps(s0, x, f)
      ensures forall z: Ptr :: Fresh(s0, z) ==> Fresh(s, z)
    {
      hide Ordered; hide First; hide Indexes; hide Maps; hide AllInside; hide Proper; hide In; hide Drops; hide Cut; hide Whole; hide Fresh;
      CutFacts(s0, s, out, i, start, end);
      DroppedNone(out);
      ghost var rest := s;
      dropped := [];
      var k := 0;
      while k < |out|
        invariant 0 <= k <= |out| && Valid() && (tree == old(tree) || fresh(tree)) && Rest(s, s0, out, k, start, end)
        invariant forall x :: Drops(dropped, x) <==> start <= x < end && Touched(out[..k], x)
      {
        var v := out[k];
        RemnantFits(s, s0, out, k, start, end);
        var r := Remnant(v, start, end);
        var range := (if v.lo < start then start else v.lo, if v.lo >= start && end < v.hi then end else v.hi);
        if r.Some? {
          ghost var s1 := s;
          ghost var n := InsertVma(r.value);
          RestInsert(s1, s, s0, out, k, n, start, end);
        } else {
          RestDrop(s, s0, out, k, start, end);
        }
        DroppedMore(dropped, range, out, k, start, end);
        dropped := dropped + [range];
        k := k + 1;
      }
      RestDone(s, s0, out, start, end);
      InsideFresh(s, s0);
      DroppedDone(s0, rest, out, i, start, end);
    }

    /**
     * mm_unmap.  Some(ret) is the return value; None stands for the assertion on
     * overlapping areas in insert_vma_struct.  `dropped` lists the calls of
     * unmap_range.  Exactly the rounded range goes away; only an empty range
     * strictly inside an area also loses its first page.
     */
    method Unmap(addr: int, len: int, p: Option<Ptr>) returns (r: Option<int>, dropped: seq<(int, int)>)
      requires Valid() && 0 <= addr < U64 && 0 <= len < U64 && (p.Some? ==> p.value > 1 && Fresh(s, p.value))
      modifies this, tree
      ensures Valid() && (tree == old(tree) || fresh(tree))
      ensures var start, end := PgDown(addr), PgUp((addr + len) % U64);
              var user := addr < MAXVA && (addr + len) % U64 < MAXVA;
              && (r == Some(-E_INVAL) <==> !user)
              && (r == Some(-E_NO_MEM) <==> user && Interior(old(s), start, end) && p.None?)
              && (r == None <==> user && Interior(old(s), start, end) && p.Some? && end < start)
              && (r == Some(0) ==> Unmapped(old(s), s, dropped, start, end))
      ensures PgUp((addr + len) % U64) < PgDown(addr) ==> s == old(s)
      ensures r != Some(0) ==> s == old(s)
      ensures forall z: Ptr :: Fresh(old(s), z) && p != Some(z) ==> Fresh(s, z)
      ensures r.Some? ==> r.value == 0 || r.value == -E_INVAL || r.value == -E_NO_MEM
    {
      hide Ordered; hide First; hide Indexes; hide Maps; hide Get; hide Interior; hide Drops; hide PgUp; hide Unmapped; hide Whole; hide Cut;
      var start, end := PgDown(addr), PgUp((addr + len) % U64);
      if !(addr < MAXVA && (addr + len) % U64 < MAXVA) {
        return Some(-E_INVAL), [];
      }
      PageFacts(addr, len);
      var v := FindVma(start);
      ghost var i := First(s, start);
      InteriorFirst(s, start, end);
      if v.None? {
        UnmappedNothing(s, start, end);
        return Some(0), [];
      }
      GetAt(s, i);
      var w := Get(s, v.value);
      if end <= w.lo {
        UnmappedNothing(s, start, end);
        return Some(0), [];
      }
      if w.lo < start && end < w.hi {
        if p.None? {
          return Some(-E_NO_MEM), [];
        }
        if end < start {
          return None, [];
        }
        IndexListed(s, i);
        Split(IndexOf(s, v.value), start, end, p.value);
        UnmappedInside(old(s), s, i, start, end);
        return Some(0), [(start, end)];
      }
      IndexListed(s, i);
      ghost var s0 := s;
      var out := TakeOut(IndexOf(s, v.value), end, start);
      OutWhole(s0, s, out, i, start, end);
      dropped := PutBack(out, start, end, s0, i);
      UnmappedAcross(s0, s, dropped, start, end);
      r := Some(0);
    }

    // The second half of mm_brk: the area that ends at `start` grows if it has the flags of the heap, or a new one is inserted.
    method MapHeap(start: int, end: int, q: Option<Ptr>, ghost s0: seq<Vma>) returns (r: Option<int>)
      requires Valid() && 0 <= start <= end < U64 && start % PGSIZE == 0 && end % PGSIZE == 0 && !Straddled(s, start)
      requires (forall x, f :: Maps(s, x, f) <==> Kept(s0, x, f, start, end)) && (q.Some? ==> q.value > 1 && Fresh(s, q.value))
      modifies this, tree
      ensures Valid() && (tree == old(tree) || fresh(tree)) && (r != Some(0) ==> s == old(s))
      ensures var grows := Maps(old(s), start - 1, BRK_FLAGS);
              r == if grows then Some(0) else if q.None? then Some(-E_NO_MEM) else if start == end then None else Some(0)
      ensures r == Some(0) ==> forall x, f :: Maps(s, x, f) <==>
                Kept(s0, x, f, start, end) || (start <= x < end && f == BRK_FLAGS)
    {
      hide Ordered; hide First; hide Indexes; hide Maps; hide Get; hide Fresh; hide Straddled;
      ghost var s1 := s;
      var v := FindVma((start - 1) % U64);
      ghost var i := First(s, (start - 1) % U64);
      GrowsFirst(s, start, BRK_FLAGS);
      if v.Some? {
        GetAt(s, i);
        IndexListed(s, i);
        var w := Get(s, v.value);
        if w.hi == start && w.flags == BRK_FLAGS {
          ExtendFits(s, i, start, end);
          SetBounds(IndexOf(s, v.value), w.lo, end);
          ExtendMaps(s0, s1, s, i, start, end);
          return Some(0);
        }
      }
      if q.None? {
        return Some(-E_NO_MEM);
      }
      if !(start < end) {
        return None;
      }
      UnmappedClear(s, start, end);
      ghost var k := InsertVma(Vma(q.value, start, end, BRK_FLAGS));
      hide Kept;
      InsertMaps(s1, Vma(q.value, start, end, BRK_FLAGS), k);
      r := Some(0);
    }

    /**
     * The second half of mm_brk for a range that wraps around, so that `end` lies
     * below `start`: the area that ends at `start` is cut back to `end`, even if
     * that is not above its own start.
     */
    method CutHeap(start: int, end: int, q: Option<Ptr>) returns (r: Option<int>)
      requires Valid() && 0 <= end < start < U64 && start % PGSIZE == 0 && end % PGSIZE == 0
      modifies this, tree
      ensures (tree == old(tree) || fresh(tree)) && (r != Some(0) ==> s == old(s) && Valid())
      ensures r == if EndsAt(old(s), start, BRK_FLAGS) then Some(0) else if q.None? then Some(-E_NO_MEM) else None
      ensures r == Some(0) ==> CutBack(old(s), s, start, end) && (Valid() <==> !Inverted(s))
    {
      hide Ordered; hide First; hide Indexes; hide Get; hide Inverted;
      var v := FindVma(start - 1);
      ghost var i := First(s, start - 1);
      EndsFirst(s, start, BRK_FLAGS);
      if v.Some? {
        GetAt(s, i);
        IndexListed(s, i);
        var w := Get(s, v.value);
        if w.hi == start && w.flags == BRK_FLAGS {
          CutFits(s, i, start, end);
          if w.lo < end {
            SetBounds(IndexOf(s, v.value), w.lo, end);
          } else {
            s := s[IndexOf(s, v.value) := w.(hi := end)];
          }
          return Some(0);
        }
      }
      r := if q.None? then Some(-E_NO_MEM) else None;
    }

    /**
     * mm_brk: the range is unmapped and then mapped as heap, by a longer area
     * below it if there is one that fits.  `p` and `q` are what kmalloc gives out.
     */
    method Brk(addr: int, len: int, p: Option<Ptr>, q: Option<Ptr>) returns (r: Option<int>, dropped: seq<(int, int)>)
      requires Valid() && 0 <= addr < U64 && 0 <= len < U64
      requires (p.Some? ==> p.value > 1 && Fresh(s, p.value)) && (q.Some? ==> q.value > 1 && Fresh(s, q.value)) && (p.Some? ==> p != q)
      modifies this, tree
      ensures tree == old(tree) || fresh(tree)
      ensures r in {None, Some(0), Some(-E_INVAL), Some(-E_NO_MEM)}
      ensures PgDown(addr) <= PgUp((addr + len) % U64) || r != Some(0) ==> Valid()
      ensures var start, end := PgDown(addr), PgUp((addr + len) % U64);
              var grows := if start <= end then Maps(old(s), start - 1, BRK_FLAGS) else EndsAt(old(s), start, BRK_FLAGS);
              var user, interior := start < MAXVA && end < MAXVA, Interior(old(s), start, end);
              && (r == Some(-E_INVAL) <==> !user)
              && (r == Some(-E_NO_MEM) <==> user && if interior && (p.None? || end < start) then p.None? else q.None? && !grows)
              && (r == None <==> user && if interior && (p.None? || end < start) then p.Some? else q.Some? && !grows && end <= start)
              && (r == Some(0) && start <= end ==> forall x, f :: Maps(s, x, f) <==>
                    Kept(old(s), x, f, start, end) || (start <= x < end && f == BRK_FLAGS))
              && (r == Some(0) && end < start ==> CutBack(old(s), s, start, end) && (Valid() <==> !Inverted(s)))
              && (r != Some(0) ==> s == old(s) || forall x, f :: Maps(s, x, f) <==> Kept(old(s), x, f, start, end))
    {
      hide Ordered; hide First; hide Indexes; hide Maps; hide Get; hide Interior; hide Drops; hide PgUp; hide PgDown; hide Fresh; hide Straddled;
      hide CutBack; hide Inverted; hide EndsAt;
      var start, end := PgDown(addr), PgUp((addr + len) % U64);
      BrkFacts(addr, len);
      ghost var s0 := s;
      r, dropped := Unmap(start, (end - start) % U64, p);
      if r != Some(0) {
        return;
      }
      if start <= end {
        NoneBelow(s0, start, BRK_FLAGS);
        assert start > 0 ==> (Maps(s, start - 1, BRK_FLAGS) <==> Kept(s0, start - 1, BRK_FLAGS, start, end));
        NoneBelow(s, start, BRK_FLAGS);
        r := MapHeap(start, end, q, s0);
      } else {
        r := CutHeap(start, end, q);
      }
    }

    /**
     * do_brk: moves the end of the heap from `brk` to `want`, and returns where it
     * is afterwards.  It can come to lie below `brkStart`, exactly when rounding
     * `want` up wraps around to 0.
     */
    method DoBrk(brkStart: int, brk: int, want: int, p: Option<Ptr>, q: Option<Ptr>) returns (r: int)
      requires Valid() && 0 <= brkStart && 0 <= brk < U64 && brk % PGSIZE == 0 && 0 <= want < U64
      requires (p.Some? ==> p.value > 1 && Fresh(s, p.value)) && (q.Some? ==> q.value > 1 && Fresh(s, q.value)) && (p.Some? ==> p != q)
      modifies this, tree
      ensures Valid() && (tree == old(tree) || fresh(tree))
      ensures brkStart <= brk ==> (r < brkStart <==> 0 < brkStart && want > U64 - PGSIZE && brk < MAXVA)
      ensures want < brkStart || PgUp(want) == brk ==> r == brk && s == old(s)
      ensures var end := PgUp(want);
              want >= brkStart && end < brk ==>
                if brk >= MAXVA || (Interior(old(s), end, brk) && p.None?) then r == brk && s == old(s)
                else r == end && forall x, f :: Maps(s, x, f) <==> Kept(old(s), x, f, end, brk)
      ensures var end := PgUp(want);
              want >= brkStart && end > brk ==>
                if Meets(old(s), brk, end) || end >= MAXVA || (q.None? && !Maps(old(s), brk - 1, BRK_FLAGS))
                then r == brk && forall x, f :: Maps(s, x, f) <==> Maps(old(s), x, f)
                else r == end && forall x, f :: Maps(s, x, f) <==> Maps(old(s), x, f) || (brk <= x < end && f == BRK_FLAGS)
    {
      hide Ordered; hide First; hide Indexes; hide Maps; hide Get; hide Interior; hide Drops; hide PgUp; hide PgDown; hide Fresh; hide Straddled;
      hide CutBack; hide Inverted; hide EndsAt; hide Meets;
      r := brk;
      if want < brkStart {
        return;
      }
      var end := PgUp(want);
      UpFacts(want);
      DownSame(brk);
      DownSame(end);
      UpSame(brk);
      UpSame(end);
      NotBelowZero(s, brk);
      if end == brk {
        return;
      }
      if end < brk {
        SmallMod(end + (brk - end));
        var ret, dropped := Unmap(end, brk - end, p);
        if ret != Some(0) {
          return;
        }
      } else {
        var v := FindVma(brk);
        MeetsFirst(s, brk, end);
        if v.Some? {
          GetAt(s, First(s, brk));
          if Get(s, v.value).lo < end {
            return;
          }
        }
        ghost var s0 := s;
        NotMeets(s, brk, end);
        NotInterior(s, brk, end);
        SmallMod(brk + (end - brk));
        var ret, dropped := Brk(brk, end - brk, p, q);
        if ret != Some(0) {
          return;
        }
      }
      r := end;
    }

    /**
     * get_unmapped_area.  The place found is free in every map.  It lies below
     * TRAPFRAME(NPROC), and is the highest that does, unless there is a free range
     * of the length just below an area that starts above that limit.
     */
    method GetUnmappedArea(len: int) returns (r: int)
      requires Valid() && 0 <= len < U64
      ensures len == 0 || len >= TOP ==> r == 0
      ensures 0 < len < TOP ==> Placed(s, len, r)
    {
      hide Indexes; hide Ordered; hide Fits; hide Wrap64; hide Signed; hide Placed; hide Failed; hide Below;
      if len == 0 || len >= TOP {
        return 0;
      }
      var start := TOP - len;
      var i := |s|;
      StartAtTop(s, len);
      while i > 0
        invariant 0 <= i <= |s| && start == Wrap64(Below(s, i, len))
        invariant Failed(s, i, len) && forall y :: y > Below(s, i, len) ==> !Fits(s, y, len)
      {
        BelowWraps(s, i, len);
        if start >= s[i - 1].hi {
          FoundPlace(s, i, len);
          return Signed(start);
        }
        NextDown(s, i, len);
        i := i - 1;
        start := Wrap64(s[i].lo - len);
      }
      FoundPlace(s, 0, len);
      r := Signed(start);
    }

    /**
     * The part of do_mmap behind its argument checks.  Without an address the place
     * is looked for; the test for a negative result is made on an unsigned number
     * and never holds, so mm_map is called in any case.
     */
    method Mmap(addr: int, len: int, flags: int, p: Option<Ptr>) returns (r: Option<int>, a: int)
      requires Valid() && 0 <= addr < U64 && 0 < len < U64 && (p.Some? ==> p.value > 1 && Fresh(s, p.value))
      modifies this, tree
      ensures Valid() && (r != Some(0) ==> s == old(s))
      ensures var start := PgDown(addr);
              var size := (PgUp((addr + len) % U64) - start) % U64;
              var end := PgUp((a + size) % U64);
              && (start != 0 || size == 0 || size >= TOP ==> a == start)
              && (r == Some(-E_INVAL) <==> Meets(old(s), a, end))
              && (r == None <==> !Meets(old(s), a, end) && p.Some? && end <= a)
              && (r == Some(0) ==> forall x, f :: Maps(s, x, f) <==> Maps(old(s), x, f) || (a <= x < end && f == flags))
      ensures var start := PgDown(addr);
              var size := (PgUp((addr + len) % U64) - start) % U64;
              start == 0 && 0 < size < TOP && p.Some? ==>
                && (r == Some(0) <==> !NoPlace(old(s), size))
                && (r != Some(0) ==> r == None || r == Some(-E_INVAL))
                && (r == Some(0) ==> Clear(old(s), a, a + size))
                && (r == Some(0) ==> forall x, f :: Maps(s, x, f) <==> Maps(old(s), x, f) || (a <= x < a + size && f == flags))
    {
      hide Indexes; hide Ordered; hide Fits; hide Wrap64; hide Signed; hide Placed; hide Maps; hide First; hide PgUp; hide NoPlace; hide Clear; hide Meets;
      var start, end := PgDown(addr), PgUp((addr + len) % U64);
      PageFacts(addr, len);
      DownFacts(addr);
      var size := (end - start) % U64;
      a := start;
      if a == 0 {
        var place := GetUnmappedArea(size);
        a := Wrap64(place);
        Wrap64Facts(0);
        PlacedAddress(s, size, place);
        ClearMeets(s, a, a + size);
      }
      r := Map(a, size, flags, p);
    }

    // dup_mmap, for the areas: a new map becomes a copy of `src`, with the records kmalloc gives out.
    method Copy(src: seq<Vma>, ps: seq<Ptr>)
      requires Valid() && s == [] && Ordered(src) && |ps| == |src|
      requires forall i :: 0 <= i < |ps| ==> ps[i] > 1 && forall j :: 0 <= j < i ==> ps[i] != ps[j]
      modifies this, tree
      ensures Valid() && |s| == |src| && forall i :: 0 <= i < |s| ==> s[i] == src[i].(id := ps[i])
    {
      hide Indexes; hide Ordered;
      var k := 0;
      while k < |src|
        invariant 0 <= k <= |src| && Valid() && (tree == old(tree) || fresh(tree))
        invariant |s| == k && forall i :: 0 <= i < k ==> s[i] == src[i].(id := ps[i])
      {
        CopyFits(s, src, ps, k);
        ghost var n := InsertVma(src[k].(id := ps[k]));
        assert n == k;
        k := k + 1;
      }
    }
  }

  const E_INVAL := 3
  const E_NO_MEM := 4

  const BRK_FLAGS := 0x23

  const NPROC := 2000
  const TOP := MAXVA - PGSIZE - (NPROC + 1) * PGSIZE

  // A 64-bit number read as a signed one.
  function Signed(x: int): int {
    if x < U64 / 2 then x else x - U64
  }

  // The range of length `len` at `y` is free and lies below TRAPFRAME(NPROC).
  ghost predicate Fits(s: seq<Vma>, y: int, len: int) {
    y + len <= TOP && Clear(s, y, y + len)
  }

  function Wrap64(x: int): int {
    x % U64
  }

  lemma Wrap64Facts(x: int)
    requires -TOP < x < U64
    ensures Wrap64(x) == (if x < 0 then x + U64 else x)
    ensures Signed(Wrap64(x)) == if x < U64 / 2 then x else x - U64
  {
  }

  // The highest place for a range below the area at index `i`.
  function Below(s: seq<Vma>, i: int, len: int): int
    requires 0 <= i <= |s|
  {
    if i == |s| then TOP - len else s[i].lo - len
  }

  // There is room for the range between the area at index `j` and the one before it.
  ghost predicate Gap(s: seq<Vma>, j: int, len: int) {
    0 <= j < |s| && s[j].lo - len >= if j == 0 then 0 else s[j - 1].hi
  }

  // It is the highest such place.
  ghost predicate TopGap(s: seq<Vma>, j: int, len: int) {
    Gap(s, j, len) && forall k :: Gap(s, k, len) ==> k <= j
  }

  // The last area that starts below `x`.
  ghost predicate LastBelow(s: seq<Vma>, j: int, x: int) {
    0 <= j < |s| && s[j].lo < x && (j + 1 < |s| ==> s[j + 1].lo >= x)
  }

  // There is room for the range just below an area, at `lim` or higher.
  ghost predicate GapFrom(s: seq<Vma>, len: int, lim: int) {
    exists j :: Gap(s, j, len) && s[j].lo - len >= lim
  }

  // No range of the length is free below TRAPFRAME(NPROC), nor just below an area that starts above.
  ghost predicate NoPlace(s: seq<Vma>, len: int) {
    !GapFrom(s, len, TOP - len + 1) && forall y :: y >= 0 ==> !Fits(s, y, len)
  }

  // What the result `r` of the search for `len` bytes means.
  ghost predicate Placed(s: seq<Vma>, len: int, r: int) {
    Meaning(s, len, r) && Exactly(s, len, r)
  }

  ghost predicate Meaning(s: seq<Vma>, len: int, r: int) {
    && (r < 0 <==> GapFrom(s, len, U64 / 2) || NoPlace(s, len))
    && (r >= 0 ==> Clear(s, r, r + len))
    && (r >= 0 ==> (r + len <= TOP <==> !GapFrom(s, len, TOP - len + 1)))
    && (r >= 0 && r + len <= TOP ==> forall y :: y > r ==> !Fits(s, y, len))
    && (if NoPlace(s, len) then -len <= r else Clear(s, Wrap64(r), Wrap64(r) + len) && Wrap64(r) + len < U64)
    && (len % PGSIZE == 0 ==> Wrap64(r) % PGSIZE == 0)
  }

  // Which place it is, where it is not the highest below the limit.
  ghost predicate Exactly(s: seq<Vma>, len: int, r: int) {
    && (forall j :: TopGap(s, j, len) && s[j].lo > TOP ==> r == Signed(Wrap64(s[j].lo - len)))
    && (NoPlace(s, len) ==> forall j :: LastBelow(s, j, len) ==> r == s[j].lo - len)
  }

  // The places above index `i` have been tried.
  ghost predicate Failed(s: seq<Vma>, i: int, len: int) {
    forall j :: i < j <= |s| ==> 0 < j && 0 <= Below(s, j, len) < s[j - 1].hi
  }

  lemma StartAtTop(s: seq<Vma>, len: int)
    requires 0 < len < TOP
    ensures Wrap64(TOP - len) == TOP - len == Below(s, |s|, len) && Failed(s, |s|, len)
    ensures forall y :: y > TOP - len ==> !Fits(s, y, len)
  {
    Wrap64Facts(TOP - len);
  }

  lemma BelowWraps(s: seq<Vma>, i: int, len: int)
    requires Ordered(s) && 0 < i <= |s| && 0 < len < TOP
    ensures var from := Below(s, i, len); -TOP < from < U64 && (Wrap64(from) >= s[i - 1].hi <==> from < 0 || from >= s[i - 1].hi)
  {
    assert Proper(s[i - 1]) && (i < |s| ==> Proper(s[i]) && s[i - 1].hi <= s[i].lo);
    Wrap64Facts(Below(s, i, len));
  }

  // No range fits between two areas that are too close, nor above the place below the upper one.
  lemma NextDown(s: seq<Vma>, i: int, len: int)
    requires Ordered(s) && 0 < i <= |s| && 0 < len < TOP && Failed(s, i, len) && 0 <= Below(s, i, len) < s[i - 1].hi
    requires forall y :: y > Below(s, i, len) ==> !Fits(s, y, len)
    ensures Failed(s, i - 1, len) && Below(s, i - 1, len) == s[i - 1].lo - len
    ensures forall y :: y > s[i - 1].lo - len ==> !Fits(s, y, len)
  {
    hide Ordered;
  }

  lemma FoundPlace(s: seq<Vma>, i: int, len: int)
    requires Ordered(s) && 0 <= i <= |s| && 0 < len < TOP && Failed(s, i, len)
    requires var from := Below(s, i, len); from < 0 || i == 0 || from >= s[i - 1].hi
    requires forall y :: y > Below(s, i, len) ==> !Fits(s, y, len)
    ensures Placed(s, len, Signed(Wrap64(Below(s, i, len))))
  {
    hide Fits; hide Wrap64; hide Signed; hide Failed; hide Meaning; hide Exactly; hide Ordered; hide Below;
    FoundMeaning(s, i, len);
    FoundExactly(s, i, len);
  }

  lemma FoundExactly(s: seq<Vma>, i: int, len: int)
    requires Ordered(s) && 0 <= i <= |s| && 0 < len < TOP && Failed(s, i, len)
    requires var from := Below(s, i, len); from < 0 || i == 0 || from >= s[i - 1].hi
    requires forall y :: y > Below(s, i, len) ==> !Fits(s, y, len)
    ensures Exactly(s, len, Signed(Wrap64(Below(s, i, len))))
  {
    hide Fits; hide Wrap64; hide Signed; hide Failed; hide Ordered; hide Below; hide Clear; hide GapFrom; hide TopGap; hide LastBelow;
    var from := Below(s, i, len);
    FoundTopGap(s, i, len);
    FoundLastBelow(s, i, len);
    BelowRange(s, i, len);
    Wrap64Facts(from);
    GapsFrom(s, i, len, TOP - len + 1);
    if from >= 0 {
      ClearBelow(s, i, len);
    }
  }

  lemma FoundMeaning(s: seq<Vma>, i: int, len: int)
    requires Ordered(s) && 0 <= i <= |s| && 0 < len < TOP && Failed(s, i, len)
    requires var from := Below(s, i, len); from < 0 || i == 0 || from >= s[i - 1].hi
    requires forall y :: y > Below(s, i, len) ==> !Fits(s, y, len)
    ensures Meaning(s, len, Signed(Wrap64(Below(s, i, len))))
  {
    hide Fits; hide Wrap64; hide Signed; hide Failed; hide GapFrom;
    var from := Below(s, i, len);
    BelowRange(s, i, len);
    Wrap64Facts(from);
    GapsFrom(s, i, len, TOP - len + 1);
    GapsFrom(s, i, len, U64 / 2);
    if from >= 0 {
      ClearBelow(s, i, len);
    }
    assert Wrap64(Signed(Wrap64(from))) == Wrap64(from) by {
      SignedBack(Wrap64(from));
    }
  }

  lemma FoundTopGap(s: seq<Vma>, i: int, len: int)
    requires Ordered(s) && 0 <= i <= |s| && 0 < len < TOP && Failed(s, i, len)
    requires var from := Below(s, i, len); from < 0 || i == 0 || from >= s[i - 1].hi
    ensures forall j :: TopGap(s, j, len) && s[j].lo > TOP ==> s[j].lo - len == Below(s, i, len)
  {
    forall j | TopGap(s, j, len) && s[j].lo > TOP
      ensures s[j].lo - len == Below(s, i, len)
    {
      GapsFrom(s, i, len, TOP - len + 1);
      assert GapFrom(s, len, TOP - len + 1);
      assert Gap(s, i, len);
      NoGapAbove(s, i, len, j);
    }
  }

  lemma NoGapAbove(s: seq<Vma>, i: int, len: int, j: int)
    requires Failed(s, i, len) && 0 <= i && Gap(s, j, len)
    ensures j <= i
  {
    var below := Below(s, j, len);
  }

  lemma FoundLastBelow(s: seq<Vma>, i: int, len: int)
    requires Ordered(s) && 0 <= i <= |s| && 0 < len < TOP && Failed(s, i, len)
    ensures Below(s, i, len) < 0 ==> forall j :: LastBelow(s, j, len) ==> s[j].lo - len == Below(s, i, len)
  {
    if Below(s, i, len) < 0 {
      forall j | LastBelow(s, j, len)
        ensures j == i
      {
        LastIsFound(s, i, len, j);
      }
    }
  }

  lemma LastIsFound(s: seq<Vma>, i: int, len: int, j: int)
    requires Ordered(s) && 0 <= i <= |s| && 0 < len < TOP && Failed(s, i, len) && Below(s, i, len) < 0 && LastBelow(s, j, len)
    ensures j == i
  {
    var below := Below(s, j, len);
    OrderedStarts(s);
    hide Ordered;
  }

  lemma OrderedStarts(s: seq<Vma>)
    requires Ordered(s)
    ensures forall i, j :: 0 <= i < j < |s| ==> s[i].lo < s[j].lo
  {
    assert forall k :: 0 <= k < |s| ==> Proper(s[k]);
  }

  lemma SignedBack(x: int)
    requires 0 <= x < U64
    ensures Wrap64(Signed(x)) == x
  {
  }

  lemma BelowRange(s: seq<Vma>, i: int, len: int)
    requires Ordered(s) && 0 <= i <= |s| && 0 < len < TOP
    ensures var from := Below(s, i, len);
            -len <= from && from + len < U64 && (len % PGSIZE == 0 ==> from % PGSIZE == 0 && Wrap64(from) % PGSIZE == 0)
  {
    assert i < |s| ==> Proper(s[i]);
  }

  // The highest gap is the one that was found.
  lemma GapsFrom(s: seq<Vma>, i: int, len: int, lim: int)
    requires Ordered(s) && 0 <= i <= |s| && 0 < len < TOP && Failed(s, i, len) && lim > TOP - len
    requires var from := Below(s, i, len); from < 0 || i == 0 || from >= s[i - 1].hi
    ensures GapFrom(s, len, lim) <==> Below(s, i, len) >= lim
  {
    if i < |s| && Below(s, i, len) >= lim {
      assert Gap(s, i, len);
    }
    forall j | Gap(s, j, len)
      ensures s[j].lo - len >= lim ==> Below(s, i, len) >= lim
    {
      assert Proper(s[j]) && (i < |s| ==> Proper(s[i])) && (i > 0 ==> Proper(s[i - 1]));
      assert j > i ==> Below(s, j, len) < s[j - 1].hi;
      assert j < i < |s| ==> s[j].hi <= s[i].lo;
      assert j < i - 1 ==> s[j].hi <= s[i - 1].lo;
    }
  }

  lemma ClearBelow(s: seq<Vma>, i: int, len: int)
    requires Ordered(s) && 0 <= i <= |s| && 0 < len && var from := Below(s, i, len); from >= 0 && (i == 0 || from >= s[i - 1].hi)
    ensures var from := Below(s, i, len); Clear(s, from, from + len) && (from + len <= TOP ==> Fits(s, from, len))
  {
    var from := Below(s, i, len);
    forall j | 0 <= j < |s|
      ensures s[j].hi <= from || from + len <= s[j].lo
    {
      assert Proper(s[j]) && (0 < i ==> Proper(s[i - 1])) && (i < |s| ==> Proper(s[i]));
    }
  }

  lemma ClearMeets(s: seq<Vma>, start: int, end: int)
    requires Ordered(s)
    ensures Clear(s, start, end) && start < end ==> !Meets(s, start, end)
  {
    assert forall i :: 0 <= i < |s| ==> Proper(s[i]);
  }

  // The search has one possible result.
  lemma PlacedOnce(s: seq<Vma>, len: int, r: int, r': int)
    requires Ordered(s) && 0 < len < TOP && Placed(s, len, r) && Placed(s, len, r')
    ensures r == r'
  {
    hide Wrap64; hide Signed; hide Fits; hide Clear; hide Ordered; hide GapFrom; hide TopGap; hide LastBelow;
    if GapFrom(s, len, TOP - len + 1) {
      var k := HighGap(s, len);
    } else if NoPlace(s, len) {
      var k := SomeLastBelow(s, len);
    } else {
      LowGap(s, len);
      FitsBoth(s, len, r, r');
    }
  }

  lemma HighGap(s: seq<Vma>, len: int) returns (k: int)
    requires Ordered(s) && GapFrom(s, len, TOP - len + 1)
    ensures TopGap(s, k, len) && s[k].lo > TOP
  {
    var j :| Gap(s, j, len) && s[j].lo - len >= TOP - len + 1;
    hide GapFrom;
    k := SomeTopGap(s, len, j, |s|);
    if k > j {
      assert Proper(s[j]) && s[j].hi <= s[k].lo;
    }
  }

  lemma LowGap(s: seq<Vma>, len: int)
    requires len > 0 && !GapFrom(s, len, TOP - len + 1)
    ensures !GapFrom(s, len, U64 / 2)
  {
  }

  lemma FitsBoth(s: seq<Vma>, len: int, r: int, r': int)
    requires r >= 0 && r' >= 0 && r + len <= TOP && r' + len <= TOP && Clear(s, r, r + len) && Clear(s, r', r' + len)
    requires (forall y :: y > r ==> !Fits(s, y, len)) && forall y :: y > r' ==> !Fits(s, y, len)
    ensures r == r'
  {
    assert Fits(s, r, len) && Fits(s, r', len);
  }

  lemma {:induction false} SomeTopGap(s: seq<Vma>, len: int, j: int, n: int) returns (k: int)
    requires Gap(s, j, len) && j < n <= |s| && forall i :: Gap(s, i, len) ==> i < n
    ensures TopGap(s, k, len) && k >= j
    decreases n
  {
    if Gap(s, n - 1, len) {
      k := n - 1;
    } else {
      k := SomeTopGap(s, len, j, n - 1);
    }
  }

  lemma SomeLastBelow(s: seq<Vma>, len: int) returns (k: int)
    requires Ordered(s) && 0 < len < TOP && NoPlace(s, len)
    ensures LastBelow(s, k, len)
  {
    hide Ordered;
    SomeBelow(s, len);
    k := |s| - 1;
    while s[k].lo >= len
      invariant 0 <= k < |s| && (k + 1 < |s| ==> s[k + 1].lo >= len)
      decreases k
    {
      k := k - 1;
    }
  }

  lemma SomeBelow(s: seq<Vma>, len: int)
    requires Ordered(s) && 0 < len < TOP && NoPlace(s, len)
    ensures s != [] && s[0].lo < len
  {
    var from := Below(s, 0, len);
    if from >= 0 {
      ClearBelow(s, 0, len);
      assert s != [] && from + len > TOP ==> Gap(s, 0, len);
    }
  }

  // The address that do_mmap goes on with.
  lemma PlacedAddress(s: seq<Vma>, len: int, r: int)
    requires if 0 < len < TOP then Placed(s, len, r) else r == 0
    requires 0 <= len < U64 && len % PGSIZE == 0
    ensures 0 <= Wrap64(r) < U64 && PgDown(Wrap64(r)) == Wrap64(r)
    ensures 0 < len < TOP && NoPlace(s, len) ==> PgUp((Wrap64(r) + len) % U64) <= Wrap64(r)
    ensures 0 < len < TOP && !NoPlace(s, len) ==> PgUp((Wrap64(r) + len) % U64) == Wrap64(r) + len && Clear(s, Wrap64(r), Wrap64(r) + len)
  {
    hide NoPlace; hide GapFrom; hide Fits; hide Clear; hide Exactly; hide Wrap64; hide PgUp; hide PgDown;
    WrapRange(r);
    if 0 < len < TOP {
      if NoPlace(s, len) {
        NegativeSum(r, len);
      } else {
        AlignedSum(Wrap64(r), len);
      }
    } else {
      Wrap64Facts(0);
    }
    DownSame(Wrap64(r));
  }

  lemma WrapRange(r: int)
    ensures 0 <= Wrap64(r) < U64
  {
  }

  lemma DownSame(a: int)
    requires a % PGSIZE == 0
    ensures PgDown(a) == a
  {
  }

  lemma AlignedSum(a: int, len: int)
    requires 0 <= a && 0 <= len && a + len < U64 && a % PGSIZE == 0 && len % PGSIZE == 0
    ensures PgUp((a + len) % U64) == a + len
  {
    hide PgUp;
    assert a == PGSIZE * (a / PGSIZE) && len == PGSIZE * (len / PGSIZE);
    MultipleSum(a / PGSIZE, len / PGSIZE);
    UpSame(a + len);
  }

  lemma MultipleSum(a: int, b: int)
    ensures (PGSIZE * a + PGSIZE * b) % PGSIZE == 0
  {
    assert PGSIZE * a + PGSIZE * b == PGSIZE * (a + b);
  }

  lemma NegativeSum(r: int, len: int)
    requires -len <= r < 0 && 0 < len < TOP && Wrap64(r) % PGSIZE == 0 && len % PGSIZE == 0
    ensures PgUp((Wrap64(r) + len) % U64) <= Wrap64(r)
  {
    hide PgUp; hide Wrap64;
    Wrap64Facts(r);
    var a := Wrap64(r) + len;
    assert a % U64 == a - U64;
    assert Wrap64(r) == PGSIZE * (Wrap64(r) / PGSIZE) && len == PGSIZE * (len / PGSIZE);
    MultipleSum(Wrap64(r) / PGSIZE, len / PGSIZE);
    assert U64 == PGSIZE * (U64 / PGSIZE);
    MultipleSum(a / PGSIZE, -(U64 / PGSIZE));
    UpSame(a - U64);
  }

  // One area that takes all there is below the limit: a page is looked for in vain, and the result is minus one page.
  lemma NoPlaceHappens()
    ensures var s := [Vma(2, 0, TOP, 0)]; Ordered(s) && NoPlace(s, PGSIZE) && forall r :: Placed(s, PGSIZE, r) <==> r == -PGSIZE
  {
    var s := [Vma(2, 0, TOP, 0)];
    assert Below(s, 0, PGSIZE) == -PGSIZE;
    forall y | y > -PGSIZE
      ensures !Fits(s, y, PGSIZE)
    {
      assert s[0].lo < y + PGSIZE;
    }
    Wrap64Facts(-PGSIZE);
    FoundPlace(s, 0, PGSIZE);
    forall r | Placed(s, PGSIZE, r)
      ensures r == -PGSIZE
    {
      PlacedOnce(s, PGSIZE, r, -PGSIZE);
    }
  }

  // The place just below an area above the limit is found although it does not fit, and one that fits is not.
  lemma TooHighHappens()
    ensures var s, len := [Vma(2, TOP + PGSIZE, TOP + 2 * PGSIZE, 0)], PGSIZE;
            && Ordered(s) && GapFrom(s, len, TOP - len + 1) && Fits(s, TOP - len, len) && !Fits(s, TOP, len)
            && forall r :: Placed(s, len, r) <==> r == TOP
  {
    var s, len := [Vma(2, TOP + PGSIZE, TOP + 2 * PGSIZE, 0)], PGSIZE;
    assert Gap(s, 0, len);
    assert Below(s, 0, len) == TOP;
    assert Failed(s, 0, len);
    FoundPlace(s, 0, len);
    Wrap64Facts(TOP);
    forall r | Placed(s, len, r)
      ensures r == TOP
    {
      PlacedOnce(s, len, r, TOP);
    }
  }

  lemma CopyFits(s: seq<Vma>, src: seq<Vma>, ps: seq<Ptr>, k: nat)
    requires Ordered(src) && k < |src| == |ps| && |s| == k
    requires forall i :: 0 <= i < |ps| ==> ps[i] > 1 && forall j :: 0 <= j < i ==> ps[i] != ps[j]
    requires forall i :: 0 <= i < k ==> s[i] == src[i].(id := ps[i])
    ensures var v := src[k].(id := ps[k]);
            Proper(v) && Fresh(s, v.id) && Clear(s, v.lo, v.hi) && forall n: int :: Place(s, v.lo, n) ==> n == k
  {
    assert Proper(src[k]);
    forall i | 0 <= i < k
      ensures s[i].lo < s[i].hi <= src[k].lo
    {
      assert Proper(src[i]);
    }
    forall n: int
      ensures Place(s, src[k].lo, n) ==> n == k
    {
      if 0 <= n < k {
        assert s[n].lo < src[k].lo;
      }
    }
  }

  // The range lies strictly inside one area.
  ghost predicate Interior(s: seq<Vma>, start: int, end: int) {
    exists i :: 0 <= i < |s| && s[i].lo < start && end < s[i].hi && start < s[i].hi && s[i].lo < end
  }

  lemma InteriorFirst(s: seq<Vma>, start: int, end: int)
    requires Ordered(s)
    ensures var i := First(s, start);
            Interior(s, start, end) <==> i < |s| && s[i].lo < start && end < s[i].hi && s[i].lo < end
  {
    var i := First(s, start);
    if Interior(s, start, end) {
      var j :| 0 <= j < |s| && s[j].lo < start && end < s[j].hi && start < s[j].hi && s[j].lo < end;
      assert In(s[j], start);
      InIsFirst(s, j, start);
    }
  }

  lemma NothingMeets(s: seq<Vma>, start: int, end: int)
    requires Ordered(s) && (var i := First(s, start); i < |s| ==> end <= s[i].lo)
    ensures forall x, f :: Maps(s, x, f) <==> Kept(s, x, f, start, end)
    ensures forall x :: !Drops([], x)
    ensures forall x, f :: start <= x < end ==> !Maps(s, x, f)
  {
    MeetsFirst(s, start, end);
    if start < end {
      NotMeets(s, start, end);
    }
  }

  /**
   * What unmapping a range means: exactly the range goes away, and its pages are
   * dropped; an empty range inside an area splits the area and drops a page.
   */
  ghost predicate Unmapped(s: seq<Vma>, s': seq<Vma>, dropped: seq<(int, int)>, start: int, end: int) {
    && (forall x, f :: Maps(s', x, f) <==> Kept(s, x, f, start, end))
    && (forall x :: Drops(dropped, x) <==>
          || (start <= x < end && exists f :: Maps(s, x, f))
          || (start == end && Interior(s, start, end) && start <= x < start + PGSIZE))
    && (start <= end ==> !Straddled(s', start))
  }

  lemma UnmappedNothing(s: seq<Vma>, start: int, end: int)
    requires Ordered(s) && (First(s, start) < |s| ==> end <= s[First(s, start)].lo)
    ensures Unmapped(s, s, [], start, end)
  {
    hide Ordered; hide First; hide Maps; hide Drops; hide Straddled; hide Interior;
    InteriorFirst(s, start, end);
    NothingMeets(s, start, end);
    NoStraddle(s, start, end);
  }

  lemma UnmappedInside(s: seq<Vma>, s': seq<Vma>, i: nat, start: int, end: int)
    requires i < |s| && s[i].lo < start <= end < s[i].hi && start % PGSIZE == 0 && end % PGSIZE == 0
    requires (forall x, f :: Maps(s', x, f) <==> Kept(s, x, f, start, end)) && !Straddled(s', start)
    ensures Unmapped(s, s', [(start, end)], start, end)
  {
    hide Maps; hide Drops; hide Straddled; hide Kept;
    SplitDrops(s, i, start, end);
  }

  lemma UnmappedAcross(s: seq<Vma>, s': seq<Vma>, dropped: seq<(int, int)>, start: int, end: int)
    requires start < end && (forall x, f :: Maps(s', x, f) <==> Kept(s, x, f, start, end))
    requires forall x :: Drops(dropped, x) <==> start <= x < end && exists f :: Maps(s, x, f)
    ensures Unmapped(s, s', dropped, start, end)
  {
    hide Maps; hide Drops; hide Straddled; hide Interior;
    UnmappedEdge(s', start);
  }

  lemma IndexListed(s: seq<Vma>, i: nat)
    requires Ordered(s) && i < |s|
    ensures Listed(s, s[i].id) && IndexOf(s, s[i].id) == i
  {
  }

  lemma SplitDrops(s: seq<Vma>, i: nat, start: int, end: int)
    requires i < |s| && s[i].lo < start <= end < s[i].hi && start % PGSIZE == 0 && end % PGSIZE == 0
    ensures forall x :: Drops([(start, end)], x) <==>
              (start <= x < end && exists f :: Maps(s, x, f)) || (start == end && start <= x < start + PGSIZE)
  {
    forall x
      ensures Drops([(start, end)], x) <==> InRange((start, end), x)
      ensures start <= x < end ==> exists f :: Maps(s, x, f)
    {
      DropsMore([], (start, end), x);
      assert [] + [(start, end)] == [(start, end)];
      if start <= x < end {
        assert In(s[i], x);
        assert Maps(s, x, s[i].flags);
      }
    }
  }

  lemma OutWhole(s: seq<Vma>, rest: seq<Vma>, out: seq<Vma>, i: nat, start: int, end: int)
    requires Ordered(s) && i == First(s, start) && i < |s| && Cut(s, rest, out, i, end)
    requires !(s[i].lo < start && end < s[i].hi) && s[i].lo < end
    ensures start < end && Whole(out, start, end)
  {
    forall j | 0 <= j < |out|
      ensures Proper(out[j]) && start < out[j].hi && (j > 0 ==> start <= out[j].lo)
    {
      assert out[j] == s[i + j] && Proper(s[i + j]);
    }
    assert Proper(s[i]);
    if |out| > 0 {
      assert out[0] == s[i];
    }
  }

  lemma BrkFacts(addr: int, len: int)
    requires 0 <= addr < U64 && 0 <= len < U64
    ensures var start, end := PgDown(addr), PgUp((addr + len) % U64);
            && 0 <= start < U64 && 0 <= end < U64 && start % PGSIZE == 0 && end % PGSIZE == 0
            && PgDown(start) == start && (start + (end - start) % U64) % U64 == end && PgUp(end) == end
  {
    DownFacts(addr);
    DownFacts(((addr + len) % U64 + PGSIZE - 1) % U64);
    hide PgDown;
    var start, end := PgDown(addr), PgUp((addr + len) % U64);
    AroundFacts(start, end);
    UpSame(end);
  }

  lemma DownFacts(x: int)
    requires 0 <= x < U64
    ensures 0 <= PgDown(x) < U64 && PgDown(x) % PGSIZE == 0 && PgDown(PgDown(x)) == PgDown(x)
  {
  }

  lemma AroundFacts(a: int, b: int)
    requires 0 <= a < U64 && 0 <= b < U64
    ensures (a + (b - a) % U64) % U64 == b
  {
    assert (b - a) % U64 == if a <= b then b - a else b - a + U64;
  }

  lemma UpSame(x: int)
    requires 0 <= x < U64 && x % PGSIZE == 0
    ensures PgUp(x) == x
  {
    assert x == PGSIZE * (x / PGSIZE) && U64 == PGSIZE * (U64 / PGSIZE);
    assert x + PGSIZE <= U64;
  }

  // Rounding up wraps around within the last page, and only there.
  lemma UpFacts(x: int)
    requires 0 <= x < U64
    ensures 0 <= PgUp(x) < U64 && PgUp(x) % PGSIZE == 0 && if x > U64 - PGSIZE then PgUp(x) == 0 else PgUp(x) >= x
  {
    var y := x + PGSIZE - 1;
    assert y % U64 == if x > U64 - PGSIZE then y - U64 else y;
    DownFacts(y % U64);
  }

  lemma SmallMod(x: int)
    requires 0 <= x < U64
    ensures x % U64 == x
  {
  }

  lemma NotInterior(s: seq<Vma>, start: int, end: int)
    requires !Meets(s, start, end)
    ensures !Interior(s, start, end)
  {
  }

  lemma NotBelowZero(s: seq<Vma>, end: int)
    requires Ordered(s)
    ensures !Interior(s, 0, end)
  {
    assert forall i :: 0 <= i < |s| ==> Proper(s[i]);
  }

  // An area with flags `f` ends at `x`.
  ghost predicate EndsAt(s: seq<Vma>, x: int, f: int) {
    exists i :: 0 <= i < |s| && s[i].hi == x && s[i].flags == f
  }

  // The area of the heap that ended at `start` ends at `end` instead.
  ghost predicate CutBack(s: seq<Vma>, s': seq<Vma>, start: int, end: int) {
    exists i :: 0 <= i < |s| && s[i].hi == start && s[i].flags == BRK_FLAGS && s' == s[i := s[i].(hi := end)]
  }

  // An area ends at or before its start.
  ghost predicate Inverted(s: seq<Vma>) {
    exists i :: 0 <= i < |s| && s[i].hi <= s[i].lo
  }

  lemma EndsFirst(s: seq<Vma>, start: int, f: int)
    requires Ordered(s) && start > 0
    ensures var i := First(s, start - 1); i < |s| && s[i].hi == start && s[i].flags == f <==> EndsAt(s, start, f)
  {
    hide First;
    forall j: nat | j < |s| && s[j].hi == start
      ensures First(s, start - 1) == j
    {
      assert Proper(s[j]);
      InIsFirst(s, j, start - 1);
    }
  }

  lemma CutFits(s: seq<Vma>, i: nat, start: int, end: int)
    requires Ordered(s) && i < |s| && s[i].hi == start && 0 <= end < start && end % PGSIZE == 0
    ensures var s' := s[i := s[i].(hi := end)];
            if s[i].lo < end then Proper(s'[i]) && !Inverted(s') else Inverted(s') && !Ordered(s')
    ensures (i > 0 ==> s[i - 1].hi <= s[i].lo) && (i + 1 < |s| ==> end <= s[i + 1].lo)
  {
    var s' := s[i := s[i].(hi := end)];
    forall j | 0 <= j < |s|
      ensures Proper(s[j])
    {
    }
    assert s'[i].lo == s[i].lo && s'[i].hi == end;
    if s[i].lo >= end {
      assert !Proper(s'[i]);
    }
  }

  // An area reaches from below `x` to above it.
  ghost predicate Straddled(s: seq<Vma>, x: int) {
    exists i :: 0 <= i < |s| && s[i].lo < x < s[i].hi
  }

  lemma NoStraddle(s: seq<Vma>, start: int, end: int)
    requires Ordered(s) && (First(s, start) < |s| ==> end <= s[First(s, start)].lo)
    ensures start <= end ==> !Straddled(s, start)
  {
    hide Proper;
  }

  lemma UnmappedEdge(s: seq<Vma>, start: int)
    requires forall f :: !Maps(s, start, f)
    ensures !Straddled(s, start)
  {
    forall i | 0 <= i < |s|
      ensures !(s[i].lo < start < s[i].hi)
    {
      assert In(s[i], start) ==> Maps(s, start, s[i].flags);
    }
  }

  lemma SplitParts(s: seq<Vma>, i: nat, start: int, end: int, p: Ptr, k: nat)
    requires Ordered(s) && i < |s| && s[i].lo < start <= end < s[i].hi && k <= |s|
    ensures var s1 := s[i := s[i].(lo := end, hi := s[i].hi)];
            !Straddled(s1[..k] + [Vma(p, s[i].lo, start, s[i].flags)] + s1[k..], start)
  {
    hide Proper;
    var s1 := s[i := s[i].(lo := end, hi := s[i].hi)];
    forall j | 0 <= j < |s1|
      ensures !(s1[j].lo < start < s1[j].hi)
    {
    }
  }

  // With nothing across `start`, an area ends there exactly when the address below is mapped.
  lemma GrowsFirst(s: seq<Vma>, start: int, f: int)
    requires Ordered(s) && 0 <= start < U64 && !Straddled(s, start)
    ensures var i := First(s, (start - 1) % U64);
            i < |s| && s[i].hi == start && s[i].flags == f <==> Maps(s, start - 1, f)
  {
    if start == 0 {
      NoneBelow(s, start, f);
      assert (start - 1) % U64 == U64 - 1;
      assert forall i :: 0 <= i < |s| ==> Proper(s[i]);
    } else {
      assert (start - 1) % U64 == start - 1;
      GrowsFrom(s, start, f);
    }
  }

  lemma GrowsFrom(s: seq<Vma>, start: int, f: int)
    requires Ordered(s) && 0 < start && !Straddled(s, start)
    ensures var i := First(s, start - 1);
            i < |s| && s[i].hi == start && s[i].flags == f <==> Maps(s, start - 1, f)
  {
    hide First;
    var i := First(s, start - 1);
    if i < |s| {
      assert Proper(s[i]);
      assert s[i].hi == start ==> In(s[i], start - 1);
    }
    if Maps(s, start - 1, f) {
      var j: nat :| j < |s| && In(s[j], start - 1) && s[j].flags == f;
      InIsFirst(s, j, start - 1);
    }
  }

  lemma NoneBelow(s: seq<Vma>, start: int, f: int)
    requires Ordered(s) && start >= 0
    ensures start == 0 ==> !Maps(s, start - 1, f)
  {
  }

  // Above an area that ends where the unmapped range starts there is nothing up to its end.
  lemma ExtendFits(s: seq<Vma>, i: nat, start: int, end: int)
    requires Ordered(s) && i < |s| && s[i].hi == start <= end < U64 && end % PGSIZE == 0
    requires forall x, f :: start <= x < end ==> !Maps(s, x, f)
    ensures s[i].lo < s[i].hi && Proper(s[i].(hi := end)) && (i > 0 ==> s[i - 1].hi <= s[i].lo) && (i + 1 < |s| ==> end <= s[i + 1].lo)
  {
    assert Proper(s[i]);
    if i + 1 < |s| {
      assert Proper(s[i + 1]) && In(s[i + 1], s[i + 1].lo);
      assert Maps(s, s[i + 1].lo, s[i + 1].flags);
    }
  }

  lemma ExtendMaps(s0: seq<Vma>, s: seq<Vma>, s': seq<Vma>, i: nat, start: int, end: int)
    requires i < |s| && s[i].lo < s[i].hi == start <= end && s' == s[i := s[i].(lo := s[i].lo, hi := end)]
    requires forall x, f :: Maps(s, x, f) <==> Kept(s0, x, f, start, end)
    ensures forall x, f :: Maps(s', x, f) <==> Kept(s0, x, f, start, end) || (start <= x < end && f == s[i].flags)
  {
    var v := s[i].(hi := end);
    assert s' == s[i := v];
    forall x, f
      ensures Maps(s', x, f) <==> Kept(s0, x, f, start, end) || (start <= x < end && f == s[i].flags)
    {
      ChangeMaps(s, i, v, x, f);
      RemoveMaps(s, i, x, f);
      hide Maps;
    }
  }

  lemma UnmappedClear(s: seq<Vma>, start: int, end: int)
    requires Ordered(s) && start < end && forall x, f :: start <= x < end ==> !Maps(s, x, f)
    ensures Clear(s, start, end)
  {
    forall i | 0 <= i < |s|
      ensures s[i].hi <= start || end <= s[i].lo
    {
      var x := if s[i].lo < start then start else s[i].lo;
      assert Proper(s[i]) && (In(s[i], x) ==> Maps(s, x, s[i].flags));
    }
  }

  // `out` is the run of areas from index `i` on that start before `end`, and `rest` are the others.
  ghost predicate Cut(s: seq<Vma>, rest: seq<Vma>, out: seq<Vma>, i: nat, end: int) {
    && i + |out| <= |s| && out == s[i..i + |out|] && rest == s[..i] + s[i + |out|..]
    && (forall j :: 0 <= j < |out| ==> out[j].lo < end)
    && (i + |out| < |s| ==> s[i + |out|].lo >= end)
  }

  // `out` has been taken out of `s0` from index `i` on, which leaves `s`.
  ghost predicate TakenOut(s0: seq<Vma>, s: seq<Vma>, out: seq<Vma>, i: nat, end: int) {
    && i + |out| <= |s0| && s == s0[..i] + s0[i + |out|..] && out == s0[i..i + |out|]
    && forall j :: 0 <= j < |out| ==> out[j].lo < end
  }

  lemma TakenNone(s: seq<Vma>, i: nat, end: int)
    requires i <= |s|
    ensures TakenOut(s, s, [], i, end)
  {
    assert s == s[..i] + s[i..];
  }

  lemma TakenMore(s0: seq<Vma>, s: seq<Vma>, out: seq<Vma>, i: nat, end: int)
    requires TakenOut(s0, s, out, i, end) && i < |s| && s[i].lo < end
    ensures TakenOut(s0, s[..i] + s[i + 1..], out + [s[i]], i, end)
  {
    var n := i + |out|;
    assert s[i] == s0[n];
    assert s[..i] == s0[..i] && s[i + 1..] == s0[n + 1..];
    assert s0[i..n] + [s0[n]] == s0[i..n + 1];
  }

  lemma TakenAll(s0: seq<Vma>, s: seq<Vma>, out: seq<Vma>, i: nat, end: int)
    requires TakenOut(s0, s, out, i, end) && !(i < |s| && s[i].lo < end)
    ensures Cut(s0, s, out, i, end)
  {
    if i < |s| {
      assert s[i] == s0[i + |out|];
    }
  }

  // The range does not lie strictly inside one of the areas, and meets all of them.
  ghost predicate Whole(out: seq<Vma>, start: int, end: int) {
    forall j :: 0 <= j < |out| ==>
      && Proper(out[j]) && out[j].lo < end && start < out[j].hi && !(out[j].lo < start && end < out[j].hi)
      && forall k :: 0 <= k < j ==> out[k].id != out[j].id
  }

  ghost predicate Touched(out: seq<Vma>, x: int) {
    exists j :: 0 <= j < |out| && In(out[j], x)
  }

  // `s` holds what remains of the areas `s0`, except of those in `out[k..]`.
  ghost predicate Rest(s: seq<Vma>, s0: seq<Vma>, out: seq<Vma>, k: int, start: int, end: int)
    requires 0 <= k <= |out|
  {
    && AllInside(s, s0)
    && (forall j :: k <= j < |out| ==> Fresh(s, out[j].id) && Inside(out[j], s0))
    && forall x, f :: Maps(s, x, f) || Kept(out[k..], x, f, start, end) <==> Kept(s0, x, f, start, end)
  }

  lemma CutFacts(s0: seq<Vma>, s: seq<Vma>, out: seq<Vma>, i: nat, start: int, end: int)
    requires Ordered(s0) && i == First(s0, start) && Cut(s0, s, out, i, end) && start < end
    ensures Rest(s, s0, out, 0, start, end)
  {
    hide Ordered; hide First; hide Maps; hide AllInside; hide Inside; hide Fresh;
    CutInside(s0, s, out, i, end);
    assert out[0..] == out;
    CutMaps(s0, s, out, i, start, end);
  }

  lemma CutInside(s0: seq<Vma>, s: seq<Vma>, out: seq<Vma>, i: nat, end: int)
    requires Ordered(s0) && Cut(s0, s, out, i, end)
    ensures AllInside(s, s0)
    ensures forall j :: 0 <= j < |out| ==> Fresh(s, out[j].id) && Inside(out[j], s0)
  {
    hide Proper;
    forall j | 0 <= j < |s|
      ensures Inside(s[j], s0)
    {
      assert s[j] == s0[if j < i then j else j + |out|];
    }
    forall j | 0 <= j < |out|
      ensures Inside(out[j], s0) && Fresh(s, out[j].id)
    {
      assert out[j] == s0[i + j];
      forall k | 0 <= k < |s|
        ensures s[k].id != out[j].id
      {
        assert s[k] == s0[if k < i then k else k + |out|];
      }
    }
  }

  lemma CutMaps(s0: seq<Vma>, s: seq<Vma>, out: seq<Vma>, i: nat, start: int, end: int)
    requires Ordered(s0) && i == First(s0, start) && Cut(s0, s, out, i, end)
    ensures forall x, f :: Maps(s, x, f) || Kept(out, x, f, start, end) <==> Kept(s0, x, f, start, end)
  {
    hide Maps; hide Ordered; hide First;
    var n := i + |out|;
    assert s0 == s0[..i] + out + s0[n..];
    OutsideKept(s0, i, n, start, end);
    forall x, f
      ensures Maps(s, x, f) || Kept(out, x, f, start, end) <==> Kept(s0, x, f, start, end)
    {
      MapsJoin(s0[..i] + out, s0[n..], x, f);
      MapsJoin(s0[..i], out, x, f);
      MapsJoin(s0[..i], s0[n..], x, f);
    }
  }

  // Areas that end before the range or start behind it map nothing in it.
  lemma OutsideKept(s: seq<Vma>, i: nat, n: nat, start: int, end: int)
    requires Ordered(s) && i == First(s, start) && i <= n <= |s| && (n < |s| ==> s[n].lo >= end)
    ensures forall x, f :: start <= x < end ==> !Maps(s[..i], x, f) && !Maps(s[n..], x, f)
  {
    forall j | n <= j < |s|
      ensures s[j].lo >= end
    {
      assert Proper(s[n]);
    }
  }

  lemma RemnantFits(s: seq<Vma>, s0: seq<Vma>, out: seq<Vma>, k: int, start: int, end: int)
    requires 0 <= k < |out| && Ordered(s) && Ordered(s0) && Whole(out, start, end) && Rest(s, s0, out, k, start, end)
    requires start < end && start % PGSIZE == 0 && end % PGSIZE == 0
    ensures var r := Remnant(out[k], start, end);
            r.Some? ==> Proper(r.value) && r.value.id == out[k].id && Fresh(s, r.value.id) && Inside(r.value, s0)
                        && Clear(s, r.value.lo, r.value.hi)
  {
    var r := Remnant(out[k], start, end);
    if r.Some? {
      assert Proper(out[k]);
      assert Inside(out[k], s0);
      InsideClear(s, s0, r.value);
    }
  }

  lemma RemnantMaps(v: Vma, start: int, end: int, x: int, f: int)
    requires v.lo < end && start < v.hi && v.lo < v.hi && !(v.lo < start && end < v.hi) && start < end
    ensures var r := Remnant(v, start, end);
            In(v, x) && v.flags == f && !(start <= x < end) <==> r.Some? && In(r.value, x) && r.value.flags == f
  {
  }

  lemma KeptTail(out: seq<Vma>, k: int, x: int, f: int, start: int, end: int)
    requires 0 <= k < |out|
    ensures Kept(out[k..], x, f, start, end) <==>
            Kept(out[k + 1..], x, f, start, end) || (In(out[k], x) && out[k].flags == f && !(start <= x < end))
  {
    hide Maps; hide In;
    assert out[k..] == [out[k]] + out[k + 1..];
    MapsJoin([out[k]], out[k + 1..], x, f);
    MapsOne(out[k], x, f);
  }

  lemma RestInsert(s: seq<Vma>, s': seq<Vma>, s0: seq<Vma>, out: seq<Vma>, k: int, n: nat, start: int, end: int)
    requires 0 <= k < |out| && Rest(s, s0, out, k, start, end) && Whole(out, start, end) && start < end
    requires var r := Remnant(out[k], start, end);
             r.Some? && r.value.id == out[k].id && Inside(r.value, s0) && n <= |s| && s' == s[..n] + [r.value] + s[n..]
    ensures Rest(s', s0, out, k + 1, start, end)
  {
    var v := Remnant(out[k], start, end).value;
    InsertMaps(s, v, n);
    forall x, f
      ensures Maps(s', x, f) || Kept(out[k + 1..], x, f, start, end) <==> Kept(s0, x, f, start, end)
    {
      hide Maps; hide In; hide AllInside; hide Inside;
      KeptTail(out, k, x, f, start, end);
      assert Proper(out[k]);
      RemnantMaps(out[k], start, end, x, f);
    }
  }

  lemma RestDrop(s: seq<Vma>, s0: seq<Vma>, out: seq<Vma>, k: int, start: int, end: int)
    requires 0 <= k < |out| && Rest(s, s0, out, k, start, end) && Whole(out, start, end) && start < end
    requires Remnant(out[k], start, end).None?
    ensures Rest(s, s0, out, k + 1, start, end)
  {
    forall x, f
      ensures Maps(s, x, f) || Kept(out[k + 1..], x, f, start, end) <==> Kept(s0, x, f, start, end)
    {
      hide Maps; hide In; hide AllInside; hide Inside;
      KeptTail(out, k, x, f, start, end);
      assert Proper(out[k]);
      RemnantMaps(out[k], start, end, x, f);
    }
  }

  lemma RestDone(s: seq<Vma>, s0: seq<Vma>, out: seq<Vma>, start: int, end: int)
    requires Rest(s, s0, out, |out|, start, end)
    ensures forall x, f :: Maps(s, x, f) <==> Kept(s0, x, f, start, end)
  {
    assert forall x, f :: !Maps(out[|out|..], x, f);
  }

  lemma DroppedMore(d: seq<(int, int)>, r: (int, int), out: seq<Vma>, k: int, start: int, end: int)
    requires 0 <= k < |out| && Whole(out, start, end) && start < end && start % PGSIZE == 0 && end % PGSIZE == 0
    requires r == (if out[k].lo < start then start else out[k].lo, if out[k].lo >= start && end < out[k].hi then end else out[k].hi)
    requires forall x :: Drops(d, x) <==> start <= x < end && Touched(out[..k], x)
    ensures forall x :: Drops(d + [r], x) <==> start <= x < end && Touched(out[..k + 1], x)
  {
    RangeOf(out[k], r, start, end);
    hide Drops; hide Touched; hide Whole; hide InRange; hide In;
    forall x
      ensures Drops(d + [r], x) <==> start <= x < end && Touched(out[..k + 1], x)
    {
      DropsMore(d, r, x);
      TouchedMore(out, k, x);
    }
  }

  lemma AlignedGap(a: int, b: int)
    requires a % PGSIZE == 0 && b % PGSIZE == 0 && a < b
    ensures a + PGSIZE <= b
  {
  }

  lemma RangeOf(v: Vma, r: (int, int), start: int, end: int)
    requires Proper(v) && v.lo < end && start < v.hi && !(v.lo < start && end < v.hi) && start < end && start % PGSIZE == 0 && end % PGSIZE == 0
    requires r == (if v.lo < start then start else v.lo, if v.lo >= start && end < v.hi then end else v.hi)
    ensures forall x :: InRange(r, x) <==> start <= x < end && In(v, x)
  {
    AlignedGap(r.0, r.1);
    hide Proper;
  }

  lemma TouchedMore(out: seq<Vma>, k: int, x: int)
    requires 0 <= k < |out|
    ensures Touched(out[..k + 1], x) <==> Touched(out[..k], x) || In(out[k], x)
  {
    if Touched(out[..k], x) {
      var j :| 0 <= j < k && In(out[..k][j], x);
      assert In(out[..k + 1][j], x);
    }
    if In(out[k], x) {
      assert In(out[..k + 1][k], x);
    }
    if Touched(out[..k + 1], x) {
      var j :| 0 <= j < k + 1 && In(out[..k + 1][j], x);
      assert j < k ==> In(out[..k][j], x);
    }
  }

  lemma DroppedNone(out: seq<Vma>)
    ensures forall x :: !Drops([], x) && !Touched(out[..0], x)
  {
  }

  lemma DroppedDone(s: seq<Vma>, rest: seq<Vma>, out: seq<Vma>, i: nat, start: int, end: int)
    requires Ordered(s) && i == First(s, start) && Cut(s, rest, out, i, end)
    ensures out[..|out|] == out
    ensures forall x :: start <= x < end ==> (Touched(out, x) <==> exists f :: Maps(s, x, f))
  {
    hide Maps; hide Ordered; hide First; hide Touched;
    var n := i + |out|;
    OutsideKept(s, i, n, start, end);
    assert s == s[..i] + out + s[n..];
    forall x | start <= x < end
      ensures Touched(out, x) <==> exists f :: Maps(s, x, f)
    {
      forall f
        ensures Maps(s, x, f) <==> Maps(out, x, f)
      {
        MapsJoin(s[..i] + out, s[n..], x, f);
        MapsJoin(s[..i], out, x, f);
      }
      MapsTouched(out, x);
    }
  }

  lemma MapsTouched(out: seq<Vma>, x: int)
    ensures Touched(out, x) <==> exists f :: Maps(out, x, f)
  {
    if Touched(out, x) {
      var j :| 0 <= j < |out| && In(out[j], x);
      assert Maps(out, x, out[j].flags);
    }
  }

  lemma SplitFits(s: seq<Vma>, i: nat, start: int, end: int, p: Ptr)
    requires Ordered(s) && i < |s| && p > 1 && Fresh(s, p)
    requires s[i].lo < start <= end < s[i].hi && start % PGSIZE == 0 && end % PGSIZE == 0
    ensures var v, w := s[i].(lo := end), Vma(p, s[i].lo, start, s[i].flags);
            && Proper(v) && Proper(w)
            && (i > 0 ==> s[i - 1].hi <= end) && (i + 1 < |s| ==> v.hi <= s[i + 1].lo)
            && Fresh(s[i := v], p) && Clear(s[i := v], w.lo, w.hi)
  {
  }

  lemma SplitFresh(s0: seq<Vma>, i: nat, s1: seq<Vma>, k: nat, s: seq<Vma>)
    requires i < |s0| == |s1| && k <= |s1| && |s| == |s1| + 1 && s == s1[..k] + [s[k]] + s1[k..]
    requires forall j :: 0 <= j < |s0| ==> s1[j].id == s0[j].id
    ensures forall z: Ptr :: Fresh(s0, z) && z != s[k].id ==> Fresh(s, z)
  {
    forall z: Ptr | Fresh(s0, z) && z != s[k].id
      ensures Fresh(s, z)
    {
      forall j | 0 <= j < |s|
        ensures s[j].id != z
      {
        if j != k {
          assert s[j] == s1[if j < k then j else j - 1];
        }
      }
    }
  }

  lemma InsideFresh(s: seq<Vma>, s0: seq<Vma>)
    requires AllInside(s, s0)
    ensures forall z: Ptr :: Fresh(s0, z) ==> Fresh(s, z)
  {
    forall z: Ptr | Fresh(s0, z)
      ensures Fresh(s, z)
    {
      forall j | 0 <= j < |s|
        ensures s[j].id != z
      {
        assert Inside(s[j], s0);
      }
    }
  }

  lemma SplitMaps(s: seq<Vma>, i: nat, start: int, end: int, p: Ptr, k: nat)
    requires Ordered(s) && i < |s| && k <= |s| && s[i].lo < start <= end < s[i].hi
    ensures var s1, w := s[i := s[i].(lo := end)], Vma(p, s[i].lo, start, s[i].flags);
            forall x, f :: Maps(s1[..k] + [w] + s1[k..], x, f) <==> Kept(s, x, f, start, end)
  {
    var v := s[i].(lo := end);
    var s1, w := s[i := v], Vma(p, s[i].lo, start, s[i].flags);
    InsertMaps(s1, w, k);
    forall x, f
      ensures Maps(s1, x, f) || (In(w, x) && w.flags == f) <==> Kept(s, x, f, start, end)
    {
      ChangeMaps(s, i, v, x, f);
      RemoveMaps(s, i, x, f);
      if In(s[i], x) {
        OneArea(s, i, x, f);
      }
      hide Maps; hide Ordered;
    }
  }

  // The area `v` has been added to the list.
  ghost predicate InsertedIn(s: seq<Vma>, s': seq<Vma>, v: Vma) {
    exists i: nat :: i <= |s| && s' == s[..i] + [v] + s[i..]
  }

  // Some area has a part in the range.
  ghost predicate Meets(s: seq<Vma>, start: int, end: int) {
    exists i :: 0 <= i < |s| && s[i].hi > start && s[i].lo < end
  }

  lemma MeetsFirst(s: seq<Vma>, start: int, end: int)
    requires Ordered(s)
    ensures var i := First(s, start); Meets(s, start, end) <==> i < |s| && s[i].lo < end
  {
    var i := First(s, start);
    if Meets(s, start, end) {
      var j :| 0 <= j < |s| && s[j].hi > start && s[j].lo < end;
      assert Proper(s[i]);
    }
  }

  lemma NotMeets(s: seq<Vma>, start: int, end: int)
    requires Ordered(s) && !Meets(s, start, end) && start < end
    ensures Clear(s, start, end) && forall x, f :: start <= x < end ==> !Maps(s, x, f)
  {
  }

  lemma PageFacts(addr: int, len: int)
    requires 0 <= addr < U64 && 0 <= len < U64
    ensures var start, end := PgDown(addr), PgUp((addr + len) % U64);
            0 <= start <= addr && start % PGSIZE == 0 && 0 <= end < U64 && end % PGSIZE == 0
  {
  }

  lemma FirstArea(s: seq<Vma>, v: Vma)
    requires InsertedIn([], s, v)
    ensures s == [v]
    ensures forall start, end :: v.lo < start < v.hi && v.lo < end < v.hi ==> Interior(s, start, end)
  {
    forall start, end | v.lo < start < v.hi && v.lo < end < v.hi
      ensures Interior(s, start, end)
    {
      assert s[0] == v;
    }
  }

  // A length that wraps to an empty range splits an area from 0x4000 to 0x8000 and drops a page that stays covered.
  method EmptyUnmapHappens() returns (m: Mm, r: Option<int>, dropped: seq<(int, int)>)
    ensures r == Some(0) && Maps(m.s, 0x5000, 7) && Drops(dropped, 0x5000)
  {
    hide Indexes; hide Ordered; hide Drops; hide Straddled; hide InsertedIn;
    m := new Mm();
    var q := m.Map(0x4000, 0x4000, 7, Some(2));
    assert !Meets([], 0x4000, 0x8000);
    assert q == Some(0);
    FirstArea(m.s, Vma(2, 0x4000, 0x8000, 7));
    r, dropped := m.Unmap(0x5000, U64 - 1, Some(3));
  }

  // A length that wraps to a range backwards inside an area from 0x1000 to 0x8000 stops the kernel.
  method ReversedUnmapHappens() returns (r: Option<int>)
    ensures r == None
  {
    hide Indexes; hide Ordered; hide Maps; hide Drops; hide Straddled; hide InsertedIn;
    var m := new Mm();
    var q := m.Map(0x1000, 0x7000, 7, Some(2));
    assert !Meets([], 0x1000, 0x8000);
    assert q == Some(0);
    FirstArea(m.s, Vma(2, 0x1000, 0x8000, 7));
    var dropped;
    r, dropped := m.Unmap(0x5000, U64 - 0x2000, Some(3));
  }

  // A length that wraps around cuts a heap area from 0x4000 to 0x8000 back to 0x2000, below its start.
  method InvertedBrkHappens() returns (m: Mm, r: Option<int>)
    ensures r == Some(0) && Inverted(m.s) && !m.Valid()
  {
    hide Indexes; hide Ordered; hide Maps; hide Drops; hide Straddled; hide InsertedIn; hide Kept;
    m := new Mm();
    var q := m.Map(0x4000, 0x4000, BRK_FLAGS, Some(2));
    assert !Meets([], 0x4000, 0x8000);
    assert q == Some(0);
    FirstArea(m.s, Vma(2, 0x4000, 0x8000, BRK_FLAGS));
    assert EndsAt(m.s, 0x8000, BRK_FLAGS) by {
      assert m.s[0].hi == 0x8000;
    }
    assert !Interior(m.s, 0x8000, 0x2000);
    var dropped;
    r, dropped := m.Brk(0x8000, U64 - 0x6000, Some(3), Some(4));
    assert m.s[0].hi == 0x2000 && m.s[0].lo == 0x4000;
  }

  // A break at the end of the address space is taken for 0, and an area below the start of the heap is unmapped.
  method WrappedBreakHappens() returns (m: Mm, r: int)
    ensures r == 0 && forall f :: !Maps(m.s, 0x1000, f)
  {
    hide Indexes; hide Ordered; hide Maps; hide Drops; hide Straddled; hide InsertedIn; hide Interior;
    m := new Mm();
    var q := m.Map(0x1000, 0x2000, 7, Some(2));
    assert !Meets([], 0x1000, 0x3000);
    assert q == Some(0);
    FirstArea(m.s, Vma(2, 0x1000, 0x3000, 7));
    NotBelowZero(m.s, 0x5000);
    UpFacts(U64 - 1);
    hide PgUp; hide PgDown;
    r := m.DoBrk(0x4000, 0x5000, U64 - 1, Some(3), Some(4));
  }
}
