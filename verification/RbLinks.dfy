/**
 * What the individual steps of insertion and deletion in util/rbtree.c do to
 * memory, stated on positions (path, subtree) of the tree.
 */
module RbLinks {
  import opened RbShape
  import opened RbHeap

  // The fields of `t`'s top node and of its holder, read off the shape.
  lemma ZipFields(m: Mem, p: Path, t: Tree, root: Ptr, nil: Ptr)
    requires Zip(m, p, t, root, nil)
    ensures Has(m, Holder(p, root)) && m.kid[Hole(p, root)] == TopNode(t, nil)
    ensures p.Step? ==>
              && p.n != nil && p.n != root
              && m.kid[Slot(p.n, Opp(p.d))] == TopNode(p.sib, nil)
              && m.red[p.n] == p.red && m.parent[p.n] == Holder(p.up, root)
    ensures t.Bin? ==>
              && t.n != nil && t.n != root && t.n != Holder(p, root)
              && Has(m, t.n) && m.parent[t.n] == Holder(p, root) && m.red[t.n] == t.red
              && m.kid[Slot(t.n, Left)] == TopNode(t.l, nil) && m.kid[Slot(t.n, Right)] == TopNode(t.r, nil)
              && (t.l.Bin? ==> t.l.n != nil) && (t.r.Bin? ==> t.r.n != nil)
  {
  }

  ghost predicate Sorted(s: seq<Ptr>, key: map<Ptr, int>) {
    && (forall n <- s :: n in key)
    && forall i, j :: 0 <= i < j < |s| ==> key[s[i]] <= key[s[j]]
  }

  // A step down the search path keeps smaller keys before it and larger keys after it.
  lemma SortedDown(p: Path, t: Tree, key: map<Ptr, int>, k: int)
    requires t.Bin? && Sorted(InOrder(Plug(p, t)), key)
    requires forall n <- Before(p) :: n in key && key[n] <= k
    requires forall n <- After(p) :: n in key && key[n] > k
    ensures t.n in key
    ensures var d := if key[t.n] > k then Left else Right;
            var p' := Step(d, p, t.n, t.red, Sub(t, Opp(d)));
            && (forall n <- Before(p') :: n in key && key[n] <= k)
            && (forall n <- After(p') :: n in key && key[n] > k)
  {
    hide Plug;
    PlugInOrder(p, t);
    SortedAround(Before(p), InOrder(t.l), t.n, InOrder(t.r), After(p), key);
  }

  lemma SortedAround(a: seq<Ptr>, l: seq<Ptr>, n: Ptr, r: seq<Ptr>, b: seq<Ptr>, key: map<Ptr, int>)
    requires Sorted(a + (l + [n] + r) + b, key)
    ensures n in key
    ensures forall x <- l :: x in key && key[x] <= key[n]
    ensures forall x <- r :: x in key && key[x] >= key[n]
  {
    var s := a + (l + [n] + r) + b;
    var c := |a| + |l|;
    assert s[c] == n;
    assert forall i :: 0 <= i < |l| ==> s[|a| + i] == l[i];
    assert forall i :: 0 <= i < |r| ==> s[c + 1 + i] == r[i];
  }

  lemma ZipDown(m: Mem, p: Path, t: Tree, d: Dir, root: Ptr, nil: Ptr)
    requires t.Bin? && Zip(m, p, t, root, nil)
    ensures Zip(m, Step(d, p, t.n, t.red, Sub(t, Opp(d))), Sub(t, d), root, nil)
    ensures Plug(Step(d, p, t.n, t.red, Sub(t, Opp(d))), Sub(t, d)) == Plug(p, t)
  {
    MkSub(d, t);
    ZipUp(m, Step(d, p, t.n, t.red, Sub(t, Opp(d))), Sub(t, d), root, nil);
  }

  // Clearing the child fields of a node outside the tree changes nothing in it.
  lemma BlankDone(m: Mem, z: Ptr, t: Tree, root: Ptr, nil: Ptr)
    requires Zip(m, Top, t, root, nil) && Has(m, z) && z != root && z !in Nodes(t)
    ensures Zip(m.(kid := m.kid[Slot(z, Left) := nil][Slot(z, Right) := nil]), Top, t, root, nil)
  {
    var m' := m.(kid := m.kid[Slot(z, Left) := nil][Slot(z, Right) := nil]);
    RepSame(m, m', t, root, nil);
    PathSame(m, m', Top, TopNode(t, nil), root, nil);
  }

  // Hanging a childless node into an empty hole.
  lemma AttachDone(m: Mem, z: Ptr, p: Path, root: Ptr, nil: Ptr)
    requires Zip(m, p, Leaf, root, nil) && Has(m, z)
    requires m.kid[Slot(z, Left)] == nil && m.kid[Slot(z, Right)] == nil
    requires z != nil && z != root && z !in PathNodes(p)
    ensures Zip(Mem(m.red, m.parent[z := Holder(p, root)], m.kid[Hole(p, root) := z]),
                p, Bin(Leaf, z, m.red[z], Leaf), root, nil)
  {
    var m' := Mem(m.red, m.parent[z := Holder(p, root)], m.kid[Hole(p, root) := z]);
    PathRefilled(m, m', p, nil, z, root, nil);
  }

  /**
   * `new` is `old` with `z` put in after all nodes whose key is at most that of
   * `z` and before all others.
   */
  ghost predicate InsertedAt(old': seq<Ptr>, new': seq<Ptr>, z: Ptr, key: map<Ptr, int>)
    requires z in key
  {
    exists k: nat ::
      && k <= |old'| && new' == old'[..k] + [z] + old'[k..]
      && (forall n <- old'[..k] :: n in key && key[n] <= key[z])
      && (forall n <- old'[k..] :: n in key && key[n] > key[z])
  }

  lemma InsertedBetween(a: seq<Ptr>, z: Ptr, b: seq<Ptr>, key: map<Ptr, int>)
    requires z in key && Sorted(a + [] + b, key)
    requires forall n <- a :: n in key && key[n] <= key[z]
    requires forall n <- b :: n in key && key[n] > key[z]
    ensures InsertedAt(a + [] + b, a + [z] + b, z, key)
    ensures Sorted(a + [z] + b, key)
  {
    hide Sorted; hide InsertedAt;
    assert a + [] + b == a + b;
    InsertedPlace(a, z, b, key);
    InsertedSorted(a, z, b, key);
  }

  lemma InsertedPlace(a: seq<Ptr>, z: Ptr, b: seq<Ptr>, key: map<Ptr, int>)
    requires z in key && (forall n <- a :: n in key && key[n] <= key[z]) && forall n <- b :: n in key && key[n] > key[z]
    ensures InsertedAt(a + b, a + [z] + b, z, key)
  {
    assert (a + b)[..|a|] == a && (a + b)[|a|..] == b;
  }

  lemma InsertedSorted(a: seq<Ptr>, z: Ptr, b: seq<Ptr>, key: map<Ptr, int>)
    requires z in key && Sorted(a + b, key)
    requires (forall n <- a :: n in key && key[n] <= key[z]) && forall n <- b :: n in key && key[n] > key[z]
    ensures Sorted(a + [z] + b, key)
  {
    var s, s' := a + b, a + [z] + b;
    forall i, j | 0 <= i < j < |s'|
      ensures s'[i] in key && s'[j] in key && key[s'[i]] <= key[s'[j]]
    {
      if i == |a| {
        assert s'[j] == b[j - |a| - 1];
      } else if j == |a| {
        assert s'[i] == a[i];
      } else {
        var i', j' := if i < |a| then i else i - 1, if j < |a| then j else j - 1;
        assert s'[i] == s[i'] && s'[j] == s[j'];
        assert key[s[i']] <= key[s[j']];
      }
    }
    assert forall n <- s' :: n in a || n == z || n in b;
  }

  lemma AttachedInOrder(p: Path, z: Ptr, key: map<Ptr, int>)
    requires z in key && Sorted(InOrder(Plug(p, Leaf)), key)
    requires forall n <- Before(p) :: n in key && key[n] <= key[z]
    requires forall n <- After(p) :: n in key && key[n] > key[z]
    ensures var s := InOrder(Plug(p, Bin(Leaf, z, true, Leaf)));
            InsertedAt(InOrder(Plug(p, Leaf)), s, z, key) && Sorted(s, key)
  {
    hide Sorted; hide InsertedAt;
    PlugInOrder(p, Leaf);
    PlugInOrder(p, Bin(Leaf, z, true, Leaf));
    assert InOrder(Bin(Leaf, z, true, Leaf)) == [z];
    InsertedBetween(Before(p), z, After(p), key);
  }

  // Above a red parent there is a black grandparent.
  lemma GrandparentBlack(p: Path, h: nat)
    requires PathOk(p, h) && PathRed(p)
    ensures p.up.Step? && !p.up.red
  {
  }

  lemma FreshLeafOk(z: Ptr, h: nat)
    requires BlackHeight(Leaf, h)
    ensures BlackHeight(Bin(Leaf, z, true, Leaf), h) && NoRedRed(Bin(Leaf, z, true, Leaf))
  {
  }

  // The colours found by following the two child fields of the top node.
  lemma KidColours(m: Mem, p: Path, t: Tree, root: Ptr, nil: Ptr)
    requires t.Bin? && Zip(m, p, t, root, nil) && Has(m, nil) && !m.red[nil]
    ensures Has(m, t.n)
    ensures forall d :: Slot(t.n, d) in m.kid && m.kid[Slot(t.n, d)] in m.red &&
                        m.red[m.kid[Slot(t.n, d)]] == IsRed(Sub(t, d))
  {
    forall d
      ensures Slot(t.n, d) in m.kid && m.kid[Slot(t.n, d)] in m.red && m.red[m.kid[Slot(t.n, d)]] == IsRed(Sub(t, d))
    {
      ZipDown(m, p, t, d, root, nil);
      ZipFields(m, Step(d, p, t.n, t.red, Sub(t, Opp(d))), Sub(t, d), root, nil);
    }
  }

  // The colour of the real root under a red-black path.
  lemma RealRootBlack(m: Mem, p: Path, t: Tree, h: nat, root: Ptr, nil: Ptr)
    requires p.Step? && PathOk(p, h) && Zip(m, p, t, root, nil)
    ensures var r := TopNode(Plug(p, t), nil); r in m.red && !m.red[r]
  {
    PlugTopBlack(p, t, h);
    ZipPlug(m, p, t, root, nil);
    ZipFields(m, Top, Plug(p, t), root, nil);
  }

  // The side that `x` hangs on can be told from the child fields even if `x` is the sentinel.
  lemma SiblingElsewhere(m: Mem, p: Path, t: Tree, root: Ptr, nil: Ptr)
    requires p.Step? && p.sib.Bin? && Zip(m, p, t, root, nil)
    ensures forall d :: Slot(p.n, d) in m.kid && (TopNode(t, nil) == m.kid[Slot(p.n, d)] <==> d == p.d)
  {
    forall d
      ensures Slot(p.n, d) in m.kid && (TopNode(t, nil) == m.kid[Slot(p.n, d)] <==> d == p.d)
    {
      ZipFields(m, p, t, root, nil);
      assert d == p.d || d == Opp(p.d);
    }
  }

  lemma WholeRedBlack(m: Mem, p: Path, t: Tree, h: nat, root: Ptr, nil: Ptr)
    requires Zip(m, p, t, root, nil)
    requires PathOk(p, h) && BlackHeight(t, h) && NoRedRed(t) && (IsRed(t) ==> !PathRed(p) && p.Step?)
    ensures Zip(m, Top, Plug(p, t), root, nil) && RedBlack(Plug(p, t))
  {
    PlugRedBlack(p, t, h);
    ZipPlug(m, p, t, root, nil);
  }

  // Blackening the short subtree ends the shortage, or the hole is at the real root.
  lemma ShortBlackened(m: Mem, x: Ptr, p: Path, t: Tree, h: nat, r0: Ptr, root: Ptr, nil: Ptr)
    requires Zip(m, p, t, root, nil) && x == TopNode(t, nil) && nil in m.red && !m.red[nil]
    requires PathOk(p, h + 1) && BlackHeight(t, h) && NoRedRed(Blacken(t))
    requires IsRed(t) || x == r0
    requires r0 == TopNode(Plug(p, t), nil) || (IsRed(t) && x == r0)
    ensures Zip(m.(red := m.red[x := false]), Top, Plug(p, Blacken(t)), root, nil)
    ensures RedBlack(Plug(p, Blacken(t)))
    ensures InOrder(Plug(p, Blacken(t))) == InOrder(Plug(p, t))
  {
    if t.Bin? {
      PaintDone(m, x, false, p, t, root, nil);
    } else {
      assert m.red[x := false] == m.red;
    }
    if p.Step? {
      RootOnlyAtTop(m, p, t, root, nil);
    }
    assert PathOk(p, if IsRed(t) then h + 1 else h);
    WholeRedBlack(m.(red := m.red[x := false]), p, Blacken(t), if IsRed(t) then h + 1 else h, root, nil);
    PlugSameInOrder(p, t, Blacken(t));
  }

  lemma BlackenNoRedRed(t: Tree)
    requires NoRedRed(t)
    ensures NoRedRed(Blacken(t))
  {
  }

  lemma BlackenSame(t: Tree)
    requires !IsRed(t)
    ensures Blacken(t) == t
  {
  }

  // Below a non-empty path nothing is the real root.
  lemma RootOnlyAtTop(m: Mem, p: Path, t: Tree, root: Ptr, nil: Ptr)
    requires p.Step? && Zip(m, p, t, root, nil)
    ensures TopNode(Plug(p, t), nil) != TopNode(t, nil)
  {
    PlugStepNotLeaf(p, t);
  }

  // Only the hole of its holder points at a tree node.
  lemma ZipFieldSides(m: Mem, p: Path, t: Tree, root: Ptr, nil: Ptr)
    requires t.Bin? && Zip(m, p, t, root, nil)
    ensures var h := Holder(p, root);
            && Has(m, h) && (m.kid[Slot(h, Left)] == t.n <==> Hole(p, root) == Slot(h, Left))
            && (Hole(p, root) == Slot(h, Left) || Hole(p, root) == Slot(h, Right))
  {
    HoleSide(m, p, Left, t.n, root, nil);
  }

  // Memory after `x` has taken the place of a node with one child at most.
  ghost function Unlinked(m: Mem, x: Ptr, p: Path, root: Ptr): Mem {
    m.(parent := m.parent[x := Holder(p, root)], kid := m.kid[Hole(p, root) := x])
  }

  function OnlyChild(f: Tree): Tree
    requires f.Bin?
  {
    if f.l.Bin? then f.l else f.r
  }

  lemma UnlinkDone(m: Mem, x: Ptr, p: Path, f: Tree, root: Ptr, nil: Ptr)
    requires Zip(m, p, f, root, nil) && Has(m, nil)
    requires f.Bin? && (f.l.Leaf? || f.r.Leaf?)
    requires x == TopNode(if f.l.Bin? then f.l else f.r, nil)
    ensures var m' := m.(parent := m.parent[x := Holder(p, root)], kid := m.kid[Hole(p, root) := x]);
            Zip(m', p, if f.l.Bin? then f.l else f.r, root, nil)
  {
    UnlinkApart(p, f, root, nil);
    UnlinkChild(m, x, p, f, root, nil);
    UnlinkPath(m, x, p, f, root, nil);
    hide Apart; hide Rep; hide RepPath;
  }

  lemma UnlinkApart(p: Path, f: Tree, root: Ptr, nil: Ptr)
    requires Apart(p, f, root, nil) && f.Bin?
    ensures Apart(p, OnlyChild(f), root, nil) && f.n !in Nodes(OnlyChild(f))
  {
    hide PathNodes; hide DistinctPath;
  }

  lemma UnlinkChild(m: Mem, x: Ptr, p: Path, f: Tree, root: Ptr, nil: Ptr)
    requires Zip(m, p, f, root, nil) && f.Bin? && x == TopNode(OnlyChild(f), nil)
    ensures Rep(Unlinked(m, x, p, root), OnlyChild(f), Holder(p, root), nil)
  {
    hide RepPath; hide DistinctPath;
    var c, m' := OnlyChild(f), Unlinked(m, x, p, root);
    if c.Bin? {
      assert Holder(p, root) !in Nodes(c);
      RepMoved(m, m', c, f.n, Holder(p, root), c.red, nil);
    }
  }

  lemma UnlinkPath(m: Mem, x: Ptr, p: Path, f: Tree, root: Ptr, nil: Ptr)
    requires Zip(m, p, f, root, nil) && Has(m, nil) && f.Bin? && x == TopNode(OnlyChild(f), nil)
    ensures RepPath(Unlinked(m, x, p, root), p, x, root, nil)
  {
    hide Rep; hide Distinct;
    UnlinkApart(p, f, root, nil);
    assert OnlyChild(f).Bin? ==> x in Nodes(OnlyChild(f));
    hide Nodes;
    PathRefilled(m, Unlinked(m, x, p, root), p, f.n, x, root, nil);
  }

  // Memory after `y` has taken over from `z`.
  ghost function Copied(m: Mem, y: Ptr, z: Ptr): Mem
    requires Has(m, z) && Has(m, m.parent[z])
  {
    var h, l, r := m.parent[z], m.kid[Slot(z, Left)], m.kid[Slot(z, Right)];
    Mem(m.red[y := m.red[z]],
        m.parent[r := y][l := y][y := h],
        m.kid[Slot(h, if m.kid[Slot(h, Left)] == z then Left else Right) := y][Slot(y, Left) := l][Slot(y, Right) := r])
  }

  lemma CopySafe(m: Mem, y: Ptr, p: Path, f: Tree, root: Ptr, nil: Ptr)
    requires Zip(m, p, f, root, nil) && f.Bin?
    requires y != nil && y != root && y !in Nodes(f) && y !in PathNodes(p)
    ensures var h := Holder(p, root);
            && Has(m, f.n) && Has(m, h) && m.parent[f.n] == h && y != h && y != f.n && h != f.n && f.n != nil
            && m.kid[Slot(f.n, Left)] == TopNode(f.l, nil) && m.kid[Slot(f.n, Right)] == TopNode(f.r, nil)
            && TopNode(f.l, nil) != f.n && TopNode(f.r, nil) != f.n
            && TopNode(f.l, nil) != h && TopNode(f.r, nil) != h
            && TopNode(f.l, nil) != y && TopNode(f.r, nil) != y
            && (f.l.Bin? ==> f.l.n != nil) && (f.r.Bin? ==> f.r.n != nil)
            && (m.kid[Slot(h, Left)] == f.n <==> Hole(p, root).d == Left)
  {
    HoleSide(m, p, Left, f.n, root, nil);
  }

  // `m'` differs from `m` only as it should when `y` takes over from `z`, whose children are `l` and `r`.
  ghost predicate Took(m: Mem, m': Mem, y: Ptr, z: Ptr, l: Ptr, r: Ptr, hole: Slot) {
    && Has(m, y) && Has(m, z) && Has(m, hole.n)
    && Has(m', y) && m'.red[y] == m.red[z] && m'.parent[y] == hole.n
    && m'.kid[Slot(y, Left)] == l && m'.kid[Slot(y, Right)] == r
    && Has(m', hole.n) && m'.red[hole.n] == m.red[hole.n] && m'.parent[hole.n] == m.parent[hole.n]
    && m'.kid[hole] == y && m'.kid[Slot(hole.n, Opp(hole.d))] == m.kid[Slot(hole.n, Opp(hole.d))]
    && (forall n :: (n == l || n == r) && Has(m, n) ==>
          && Has(m', n) && m'.red[n] == m.red[n] && m'.parent[n] == y
          && forall d :: m'.kid[Slot(n, d)] == m.kid[Slot(n, d)])
    && (forall n :: n != y && n != hole.n && n != l && n != r ==> Same(m, m', n))
  }

  lemma CopiedTook(m: Mem, y: Ptr, z: Ptr, hole: Slot)
    requires Has(m, y) && Has(m, z) && Has(m, m.parent[z]) && y != z && m.parent[z] != z
    requires y != m.parent[z] && hole.n == m.parent[z] && (m.kid[Slot(hole.n, Left)] == z <==> hole.d == Left)
    requires m.kid[Slot(z, Left)] != y && m.kid[Slot(z, Left)] != hole.n
    requires m.kid[Slot(z, Right)] != y && m.kid[Slot(z, Right)] != hole.n
    ensures Took(m, Copied(m, y, z), y, z, m.kid[Slot(z, Left)], m.kid[Slot(z, Right)], hole)
  {
  }

  lemma TookZip(m: Mem, m': Mem, y: Ptr, p: Path, f: Tree, root: Ptr, nil: Ptr)
    requires Zip(m, p, f, root, nil) && f.Bin?
    requires y != nil && y != root && y !in Nodes(f) && y !in PathNodes(p)
    requires Took(m, m', y, f.n, TopNode(f.l, nil), TopNode(f.r, nil), Hole(p, root))
    ensures Zip(m', p, f.(n := y), root, nil)
  {
    TookSub(m, m', y, p, f, Left, root, nil);
    TookSub(m, m', y, p, f, Right, root, nil);
    PathRefilled(m, m', p, f.n, y, root, nil);
  }

  lemma TookSub(m: Mem, m': Mem, y: Ptr, p: Path, f: Tree, d: Dir, root: Ptr, nil: Ptr)
    requires Zip(m, p, f, root, nil) && f.Bin?
    requires y != nil && y != root && y !in Nodes(f) && y !in PathNodes(p)
    requires Took(m, m', y, f.n, TopNode(f.l, nil), TopNode(f.r, nil), Hole(p, root))
    ensures Rep(m', Sub(f, d), y, nil)
  {
    var t := Sub(f, d);
    if t.Bin? {
      RepMoved(m, m', t, f.n, y, t.red, nil);
    }
  }

  lemma CopiedSentinels(m: Mem, y: Ptr, p: Path, f: Tree, root: Ptr, nil: Ptr)
    requires Zip(m, p, f, root, nil) && f.Bin? && f.l.Bin? && Has(m, nil) && Has(m, y) && Has(m, root)
    requires y != nil && y != root && y !in Nodes(f) && y !in PathNodes(p)
    requires Has(m, f.n) && Has(m, m.parent[f.n])
    ensures var m' := Copied(m, y, f.n);
            && Has(m', nil) && Has(m', root) && m'.red[nil] == m.red[nil] && m'.red[root] == m.red[root]
            && m'.parent[nil] == if f.r.Leaf? then y else m.parent[nil]
  {
    hide Zip; hide Nodes; hide PathNodes;
    CopySafe(m, y, p, f, root, nil);
  }

  // `new` is `old` without the node `z`.
  ghost predicate Removed(old': seq<Ptr>, new': seq<Ptr>, z: Ptr) {
    exists k: nat :: k < |old'| && old'[k] == z && new' == old'[..k] + old'[k + 1..]
  }

  lemma RemovedBetween(a: seq<Ptr>, z: Ptr, b: seq<Ptr>, key: map<Ptr, int>)
    requires Sorted(a + [z] + b, key)
    ensures Removed(a + [z] + b, a + b, z) && Sorted(a + b, key)
  {
    var s := a + [z] + b;
    assert s[..|a|] == a && s[|a|] == z && s[|a| + 1..] == b;
    var s' := a + b;
    forall i, j | 0 <= i < j < |s'|
      ensures s'[i] in key && s'[j] in key && key[s'[i]] <= key[s'[j]]
    {
      var i', j' := if i < |a| then i else i + 1, if j < |a| then j else j + 1;
      assert s'[i] == s[i'] && s'[j] == s[j'];
    }
    forall n | n in s'
      ensures n in key
    {
      assert n in s;
    }
  }

  // Cutting out a node with at most one child.
  lemma CutInOrder(p: Path, f: Tree, key: map<Ptr, int>)
    requires f.Bin? && (f.l.Leaf? || f.r.Leaf?) && Sorted(InOrder(Plug(p, f)), key)
    ensures var s := InOrder(Plug(p, if f.l.Bin? then f.l else f.r));
            Removed(InOrder(Plug(p, f)), s, f.n) && Sorted(s, key)
  {
    hide Sorted; hide Removed; hide Plug; hide Before; hide After;
    var c := if f.l.Bin? then f.l else f.r;
    PlugInOrder(p, f);
    PlugInOrder(p, c);
    var l, r := InOrder(f.l), InOrder(f.r);
    hide InOrder;
    assert l == [] || r == [];
    CutSeq(Before(p), l, f.n, r, After(p));
    RemovedBetween(Before(p) + l, f.n, r + After(p), key);
  }

  lemma CutSeq(before: seq<Ptr>, l: seq<Ptr>, n: Ptr, r: seq<Ptr>, after: seq<Ptr>)
    ensures before + (l + [n] + r) + after == (before + l) + [n] + (r + after)
    ensures r == [] ==> before + l + after == (before + l) + (r + after)
    ensures l == [] ==> before + r + after == (before + l) + (r + after)
  {
  }

  // Cutting out the successor `y` of `z` and putting it in the place of `z`.
  lemma SuccessorInOrder(pz: Path, fz: Tree, inner: Path, f: Tree, key: map<Ptr, int>)
    requires fz.Bin? && f.Bin? && f.l.Leaf? && AllLeft(inner) && Plug(inner, f) == fz.r
    requires Sorted(InOrder(Plug(pz, fz)), key)
    ensures var s := InOrder(Plug(Append(inner, Step(Right, pz, f.n, fz.red, fz.l)), f.r));
            Removed(InOrder(Plug(pz, fz)), s, fz.n) && Sorted(s, key)
  {
    hide Sorted; hide Removed;
    PlugAppend(inner, Step(Right, pz, f.n, fz.red, fz.l), f.r);
    LeftmostFirst(inner, f);
    PlugInOrder(inner, f);
    PlugInOrder(inner, f.r);
    PlugInOrder(pz, fz);
    var r := Plug(inner, f.r);
    PlugInOrder(pz, Bin(fz.l, f.n, fz.red, r));
    SuccessorMoves(Before(pz), InOrder(fz.l), fz.n, f.n, InOrder(f.r), After(inner), After(pz), key);
  }

  lemma SuccessorMoves(a: seq<Ptr>, l: seq<Ptr>, z: Ptr, y: Ptr, yr: seq<Ptr>, u: seq<Ptr>, b: seq<Ptr>, key: map<Ptr, int>)
    requires Sorted(a + (l + [z] + ([] + ([] + [y] + yr) + u)) + b, key)
    ensures var s := a + (l + [z] + ([] + ([] + [y] + yr) + u)) + b;
            var s' := a + (l + [y] + ([] + yr + u)) + b;
            Removed(s, s', z) && Sorted(s', key)
  {
    hide Sorted; hide Removed;
    var b' := [y] + yr + u + b;
    assert a + (l + [z] + ([] + ([] + [y] + yr) + u)) + b == (a + l) + [z] + b';
    assert a + (l + [y] + ([] + yr + u)) + b == (a + l) + b';
    RemovedBetween(a + l, z, b', key);
  }

  lemma CutHeight(f: Tree, h: nat)
    requires f.Bin? && (f.l.Leaf? || f.r.Leaf?) && BlackHeight(f, h) && NoRedRed(f)
    ensures var c := if f.l.Bin? then f.l else f.r;
            && NoRedRed(c)
            && (f.red ==> BlackHeight(c, h) && !IsRed(c))
            && (!f.red ==> h > 0 && BlackHeight(c, h - 1))
  {
  }

  // A node that is cut out is neither in what stays below it nor in what stays around it.
  lemma CutApart(m: Mem, p: Path, f: Tree, root: Ptr, nil: Ptr)
    requires f.Bin? && Zip(m, p, f, root, nil)
    ensures f.n !in Nodes(f.l) && f.n !in Nodes(f.r) && f.n !in PathNodes(p)
  {
  }

  lemma {:induction false} ZipAppend(m: Mem, inner: Path, outer: Path, t: Tree, root: Ptr, nil: Ptr)
    ensures Zip(m, Append(inner, outer), t, root, nil) <==> Zip(m, outer, Plug(inner, t), root, nil)
  {
    match inner {
      case Top =>
      case Step(d, up, n, red, sib) =>
        ZipAppend(m, up, outer, Mk(d, t, n, red, sib), root, nil);
        ZipUp(m, Append(inner, outer), t, root, nil);
    }
  }

  lemma {:induction false} AppendNodes(inner: Path, outer: Path)
    ensures PathNodes(Append(inner, outer)) == PathNodes(inner) + PathNodes(outer)
  {
    match inner {
      case Top =>
      case Step(d, up, n, red, sib) => AppendNodes(up, outer);
    }
  }

  lemma NotAppended(y: Ptr, inner: Path, pz: Path, z: Ptr, zc: bool, zl: Tree, c: Tree)
    requires y !in Nodes(c) && y !in PathNodes(Append(inner, Step(Right, pz, z, zc, zl)))
    ensures y !in Nodes(Bin(zl, z, zc, Plug(inner, c))) && y !in PathNodes(pz)
  {
    AppendNodes(inner, Step(Right, pz, z, zc, zl));
    PlugNodes(inner, c);
  }

  // `y` comes directly after `z` in `s`; after the last node comes `nil`.
  ghost predicate Follows(s: seq<Ptr>, z: Ptr, y: Ptr, nil: Ptr) {
    exists k: nat :: FollowsAt(s, z, y, nil, k)
  }

  ghost predicate FollowsAt(s: seq<Ptr>, z: Ptr, y: Ptr, nil: Ptr, k: nat) {
    k < |s| && s[k] == z && y == if k + 1 < |s| then s[k + 1] else nil
  }

  ghost predicate LastIs(t: Tree, z: Ptr) {
    InOrder(t) != [] && InOrder(t)[|InOrder(t)| - 1] == z
  }

  lemma LastOfItself(t: Tree)
    requires t.Bin? && t.r.Leaf?
    ensures LastIs(t, t.n)
  {
  }

  lemma LastOfParent(q: Path, u: Tree, z: Ptr)
    requires q.Step? && q.d.Right? && LastIs(u, z)
    ensures LastIs(Mk(q.d, u, q.n, q.red, q.sib), z)
  {
  }

  lemma ZipRightSide(m: Mem, q: Path, u: Tree, root: Ptr, nil: Ptr)
    requires u.Bin? && Zip(m, q, u, root, nil)
    ensures Has(m, Holder(q, root))
    ensures u.n == m.kid[Slot(Holder(q, root), Right)] <==> q.Step? && q.d.Right?
    ensures q.Step? ==> q.n != root
  {
    HoleSide(m, q, Right, u.n, root, nil);
    ZipFields(m, q, u, root, nil);
  }

  lemma FollowsBelow(p: Path, t: Tree, inner: Path, f: Tree, nil: Ptr)
    requires t.Bin? && f.Bin? && f.l.Leaf? && AllLeft(inner) && Plug(inner, f) == t.r
    ensures Follows(InOrder(Plug(p, t)), t.n, f.n, nil)
  {
    LeftmostFirst(inner, f);
    PlugInOrder(inner, f);
    PlugInOrder(p, t);
    var k := |Before(p)| + |InOrder(t.l)|;
    assert InOrder(t.r)[0] == f.n;
    var s := Before(p) + (InOrder(t.l) + [t.n] + InOrder(t.r)) + After(p);
    assert s[k] == t.n && s[k + 1] == f.n;
    assert FollowsAt(InOrder(Plug(p, t)), t.n, f.n, nil, k);
  }

  lemma FollowsAbove(q: Path, u: Tree, z: Ptr, nil: Ptr)
    requires LastIs(u, z) && !(q.Step? && q.d.Right?)
    ensures Follows(InOrder(Plug(q, u)), z, if q.Top? then nil else q.n, nil)
  {
    PlugInOrder(q, u);
    var s := Before(q) + InOrder(u) + After(q);
    var k := |Before(q)| + |InOrder(u)| - 1;
    assert s[k] == z;
    assert s[k] == z && (q.Step? ==> s[k + 1] == q.n);
    assert FollowsAt(InOrder(Plug(q, u)), z, if q.Top? then nil else q.n, nil, k);
  }

  lemma RecordAdded(m: Mem, m': Mem, z: Ptr, t: Tree, root: Ptr, nil: Ptr)
    requires Zip(m, Top, t, root, nil) && z != root && z != nil && z !in Nodes(t)
    requires m'.red == m.red[z := false] && m'.parent == m.parent[z := nil]
    requires m'.kid == m.kid[Slot(z, Left) := nil][Slot(z, Right) := nil]
    ensures Zip(m', Top, t, root, nil) && Has(m', z)
  {
    forall d
      ensures Slot(z, d) in m'.kid && (Slot(root, d) in m.kid ==> Slot(root, d) in m'.kid)
    {
      assert d == Left || d == Right;
    }
    RepSame(m, m', t, root, nil);
  }

  // `y` comes directly before `z` in `s`; before the first node comes `nil`.
  ghost predicate Precedes(s: seq<Ptr>, z: Ptr, y: Ptr, nil: Ptr) {
    exists k: nat :: PrecedesAt(s, z, y, nil, k)
  }

  ghost predicate PrecedesAt(s: seq<Ptr>, z: Ptr, y: Ptr, nil: Ptr, k: nat) {
    k < |s| && s[k] == z && y == if k > 0 then s[k - 1] else nil
  }

  ghost predicate FirstIs(t: Tree, z: Ptr) {
    InOrder(t) != [] && InOrder(t)[0] == z
  }

  lemma FirstOfItself(t: Tree)
    requires t.Bin? && t.l.Leaf?
    ensures FirstIs(t, t.n)
  {
  }

  lemma FirstOfParent(q: Path, u: Tree, z: Ptr)
    requires q.Step? && q.d.Left? && FirstIs(u, z)
    ensures FirstIs(Mk(q.d, u, q.n, q.red, q.sib), z)
  {
  }

  lemma ZipLeftSide(m: Mem, q: Path, u: Tree, root: Ptr, nil: Ptr)
    requires u.Bin? && Zip(m, q, u, root, nil)
    ensures Has(m, Holder(q, root))
    ensures u.n == m.kid[Slot(Holder(q, root), Left)] <==> q.Top? || q.d.Left?
    ensures q.Step? ==> q.n != root
  {
    HoleSide(m, q, Left, u.n, root, nil);
    ZipFields(m, q, u, root, nil);
  }

  lemma PrecedesBelow(p: Path, t: Tree, inner: Path, f: Tree, nil: Ptr)
    requires t.Bin? && f.Bin? && f.r.Leaf? && AllRight(inner) && Plug(inner, f) == t.l
    ensures Precedes(InOrder(Plug(p, t)), t.n, f.n, nil)
  {
    RightmostLast(inner, f);
    PlugInOrder(inner, f);
    PlugInOrder(p, t);
    var k := |Before(p)| + |InOrder(t.l)|;
    assert InOrder(t.l)[|InOrder(t.l)| - 1] == f.n;
    var s := Before(p) + (InOrder(t.l) + [t.n] + InOrder(t.r)) + After(p);
    assert s[k] == t.n && s[k - 1] == f.n;
    assert PrecedesAt(InOrder(Plug(p, t)), t.n, f.n, nil, k);
  }

  lemma PrecedesAbove(q: Path, u: Tree, z: Ptr, nil: Ptr)
    requires FirstIs(u, z) && (q.Top? || q.d.Right?)
    ensures Precedes(InOrder(Plug(q, u)), z, if q.Top? then nil else q.n, nil)
  {
    PlugInOrder(q, u);
    var s := Before(q) + InOrder(u) + After(q);
    var k := |Before(q)|;
    assert s[k] == z && (q.Step? ==> s[k - 1] == q.n);
    assert PrecedesAt(InOrder(Plug(q, u)), z, if q.Top? then nil else q.n, nil, k);
  }

  lemma SortedKeys(s: seq<Ptr>, key: map<Ptr, int>)
    requires Sorted(s, key)
    ensures forall n <- s :: n in key
  {
  }

  // The same step down as in insertion, when the key of the node differs from `k`.
  lemma SortedDownStrict(p: Path, t: Tree, key: map<Ptr, int>, k: int)
    requires t.Bin? && Sorted(InOrder(Plug(p, t)), key) && t.n in key && key[t.n] != k
    requires forall n <- Before(p) :: n in key && key[n] < k
    requires forall n <- After(p) :: n in key && key[n] > k
    ensures var d := if key[t.n] > k then Left else Right;
            var p' := Step(d, p, t.n, t.red, Sub(t, Opp(d)));
            && (forall n <- Before(p') :: n in key && key[n] < k)
            && (forall n <- After(p') :: n in key && key[n] > k)
  {
    hide Plug;
    PlugInOrder(p, t);
    SortedAround(Before(p), InOrder(t.l), t.n, InOrder(t.r), After(p), key);
  }

  lemma TopInElems(p: Path, t: Tree)
    ensures t.Bin? ==> t.n in InOrder(Plug(p, t))
  {
    PlugInOrder(p, t);
  }

  lemma HoleMisses(p: Path, key: map<Ptr, int>, k: int)
    requires forall n <- Before(p) :: n in key && key[n] < k
    requires forall n <- After(p) :: n in key && key[n] > k
    ensures forall n <- InOrder(Plug(p, Leaf)) :: n in key && key[n] != k
  {
    PlugInOrder(p, Leaf);
  }

  // Which side of its holder the top node of `t` is on.
  lemma ZipSides(m: Mem, e: Dir, up: Path, n: Ptr, red: bool, sib: Tree, t: Tree, root: Ptr, nil: Ptr)
    requires t.Bin? && Zip(m, Step(e, up, n, red, sib), t, root, nil)
    ensures forall d :: Slot(n, d) in m.kid && (t.n == m.kid[Slot(n, d)] <==> d == e)
  {
    HoleSide(m, Step(e, up, n, red, sib), Left, t.n, root, nil);
    HoleSide(m, Step(e, up, n, red, sib), Right, t.n, root, nil);
  }

  // Looking at the same tree from the sibling instead.
  lemma ZipOver(m: Mem, p: Path, t: Tree, root: Ptr, nil: Ptr)
    requires p.Step?
    ensures Zip(m, p, t, root, nil) <==> Zip(m, Step(Opp(p.d), p.up, p.n, p.red, t), p.sib, root, nil)
  {
    ZipUp(m, p, t, root, nil);
    ZipUp(m, Step(Opp(p.d), p.up, p.n, p.red, t), p.sib, root, nil);
  }

  lemma PaintDone(m: Mem, n: Ptr, c: bool, p: Path, t: Tree, root: Ptr, nil: Ptr)
    requires t.Bin? && t.n == n && Zip(m, p, t, root, nil)
    ensures Zip(m.(red := m.red[n := c]), p, t.(red := c), root, nil)
  {
    var m' := m.(red := m.red[n := c]);
    RepMoved(m, m', t, Holder(p, root), Holder(p, root), c, nil);
    PathSame(m, m', p, n, root, nil);
  }

  // The records a rotation touches exist and are different ones.
  ghost predicate RotateSafe(m: Mem, x: Ptr, d: Dir, nil: Ptr) {
    && Has(m, x)
    && var y := m.kid[Slot(x, Opp(d))];
    && var h := m.parent[x];
    && Has(m, y) && Has(m, h) && x != y && x != h && y != h
    && var i := m.kid[Slot(y, d)];
    && i != x && i != y && i != h && (i != nil ==> Has(m, i))
  }

  // Memory after the pointer assignments of a rotation around `x` towards side `d`.
  ghost function Rotated(m: Mem, x: Ptr, d: Dir, nil: Ptr): Mem
    requires RotateSafe(m, x, d, nil)
  {
    var y := m.kid[Slot(x, Opp(d))];
    var h := m.parent[x];
    var i := m.kid[Slot(y, d)];
    var side := if m.kid[Slot(h, d)] == x then d else Opp(d);
    Mem(m.red,
        if i == nil then m.parent[y := h][x := y] else m.parent[i := x][y := h][x := y],
        m.kid[Slot(x, Opp(d)) := i][Slot(h, side) := y][Slot(y, d) := x])
  }

  lemma RotateSetup(m: Mem, x: Ptr, d: Dir, p: Path, a: Tree, xr: bool,
                    b: Tree, y: Ptr, yr: bool, c: Tree, root: Ptr, nil: Ptr)
    requires Zip(m, p, Mk(d, a, x, xr, Mk(d, b, y, yr, c)), root, nil)
    ensures RotateSafe(m, x, d, nil)
    ensures m.kid[Slot(x, Opp(d))] == y && m.kid[Slot(y, d)] == TopNode(b, nil)
    ensures m.parent[x] == Holder(p, root)
    ensures x == m.kid[Slot(Holder(p, root), d)] <==> Slot(Holder(p, root), d) == Hole(p, root)
  {
    var yt := Mk(d, b, y, yr, c);
    MkTwoDistinct(d, a, x, xr, b, y, yr, c);
    MkNodes(d, a, x, xr, yt);
    MkNodes(d, b, y, yr, c);
    RepMk(m, d, a, x, xr, yt, Holder(p, root), nil);
    RepMk(m, d, b, y, yr, c, x, nil);
    HoleSide(m, p, d, x, root, nil);
  }

  /**
   * `m'` differs from `m` only as a rotation should: `y` moves from under `x` to
   * `hole`, `x` under `y`, and the subtree topped by `i` from `y` to `x`.
   */
  ghost predicate Relinked(m: Mem, m': Mem, x: Ptr, y: Ptr, i: Ptr, hole: Slot, d: Dir, nil: Ptr) {
    && Has(m, x) && Has(m, y) && Has(m, hole.n) && (i != nil ==> Has(m, i))
    && Has(m', x) && m'.red[x] == m.red[x] && m'.parent[x] == y
    && m'.kid[Slot(x, d)] == m.kid[Slot(x, d)] && m'.kid[Slot(x, Opp(d))] == i
    && Has(m', y) && m'.red[y] == m.red[y] && m'.parent[y] == hole.n
    && m'.kid[Slot(y, d)] == x && m'.kid[Slot(y, Opp(d))] == m.kid[Slot(y, Opp(d))]
    && Has(m', hole.n) && m'.red[hole.n] == m.red[hole.n] && m'.parent[hole.n] == m.parent[hole.n]
    && m'.kid[hole] == y && m'.kid[Slot(hole.n, Opp(hole.d))] == m.kid[Slot(hole.n, Opp(hole.d))]
    && (i != nil ==>
          && Has(m', i) && m'.red[i] == m.red[i] && m'.parent[i] == x
          && forall e :: m'.kid[Slot(i, e)] == m.kid[Slot(i, e)])
    && forall n :: n != x && n != y && n != hole.n && (n == i ==> n == nil) ==> Same(m, m', n)
  }

  lemma RotatedRelinks(m: Mem, x: Ptr, d: Dir, hole: Slot, nil: Ptr)
    requires RotateSafe(m, x, d, nil) && hole.n == m.parent[x]
    requires m.kid[Slot(hole.n, d)] == x <==> hole.d == d
    ensures var y := m.kid[Slot(x, Opp(d))];
            Relinked(m, Rotated(m, x, d, nil), x, y, m.kid[Slot(y, d)], hole, d, nil)
  {
  }

  lemma RotateDone(m: Mem, x: Ptr, d: Dir, p: Path, a: Tree, xr: bool,
                   b: Tree, y: Ptr, yr: bool, c: Tree, root: Ptr, nil: Ptr)
    requires Zip(m, p, Mk(d, a, x, xr, Mk(d, b, y, yr, c)), root, nil)
    requires RotateSafe(m, x, d, nil)
    ensures Zip(Rotated(m, x, d, nil), p, Mk(d, Mk(d, a, x, xr, b), y, yr, c), root, nil)
    ensures Same(m, Rotated(m, x, d, nil), nil)
  {
    RotateSetup(m, x, d, p, a, xr, b, y, yr, c, root, nil);
    RotatedRelinks(m, x, d, Hole(p, root), nil);
    RelinkedZip(m, Rotated(m, x, d, nil), x, d, p, a, xr, b, y, yr, c, root, nil);
  }

  lemma RelinkedZip(m: Mem, m': Mem, x: Ptr, d: Dir, p: Path, a: Tree, xr: bool,
                    b: Tree, y: Ptr, yr: bool, c: Tree, root: Ptr, nil: Ptr)
    requires Zip(m, p, Mk(d, a, x, xr, Mk(d, b, y, yr, c)), root, nil)
    requires Relinked(m, m', x, y, TopNode(b, nil), Hole(p, root), d, nil)
    ensures Zip(m', p, Mk(d, Mk(d, a, x, xr, b), y, yr, c), root, nil)
    ensures Same(m, m', nil)
  {
    hide Distinct; hide Rep; hide RepPath;
    RelinkedSubs(m, m', x, d, p, a, xr, b, y, yr, c, root, nil);
    RotatedNodes(d, a, x, xr, b, y, yr, c);
    OutsideTwo(p, d, a, x, xr, b, y, yr, c, root, nil);
    PathRefilled(m, m', p, x, y, root, nil);
  }

  // The holder of a subtree is not in it, and neither is the sentinel.
  lemma OutsideTwo(p: Path, d: Dir, a: Tree, x: Ptr, xr: bool, b: Tree, y: Ptr, yr: bool, c: Tree,
                   root: Ptr, nil: Ptr)
    requires Apart(p, Mk(d, a, x, xr, Mk(d, b, y, yr, c)), root, nil)
    ensures forall n :: n == Holder(p, root) || n == nil || n in PathNodes(p) ==>
              n != x && n != y && n !in Nodes(a) && n !in Nodes(b) && n !in Nodes(c)
  {
    hide Distinct; hide DistinctPath; hide Nodes; hide Mk;
    var yt := Mk(d, b, y, yr, c);
    MkNodes(d, b, y, yr, c);
    MkNodes(d, a, x, xr, yt);
    assert x in Nodes(Mk(d, a, x, xr, yt)) && y in Nodes(Mk(d, a, x, xr, yt));
    assert Nodes(a) <= Nodes(Mk(d, a, x, xr, yt)) && Nodes(b) <= Nodes(Mk(d, a, x, xr, yt));
    assert Nodes(c) <= Nodes(Mk(d, a, x, xr, yt));
  }

  lemma RelinkedParts(m: Mem, m': Mem, x: Ptr, d: Dir, p: Path, a: Tree, xr: bool,
                      b: Tree, y: Ptr, yr: bool, c: Tree, root: Ptr, nil: Ptr)
    requires Zip(m, p, Mk(d, a, x, xr, Mk(d, b, y, yr, c)), root, nil)
    requires Relinked(m, m', x, y, TopNode(b, nil), Hole(p, root), d, nil)
    ensures Rep(m', a, x, nil) && Rep(m', b, x, nil) && Rep(m', c, y, nil)
  {
    hide Distinct; hide PathNodes; hide DistinctPath; hide RepPath; hide Mk; hide Apart; hide Rep; hide Nodes; hide Same; hide Relinked;
    RelinkedSame(m, m', x, d, p, a, xr, b, y, yr, c, root, nil);
    RelinkedTop(m, m', x, y, b, Hole(p, root), d, nil);
    RepMk(m, d, a, x, xr, Mk(d, b, y, yr, c), Holder(p, root), nil);
    RepMk(m, d, b, y, yr, c, x, nil);
    RepSame(m, m', a, x, nil);
    RepSame(m, m', c, y, nil);
    if b.Bin? {
      RepTop(m, b, y, nil);
      RepMoved(m, m', b, y, x, b.red, nil);
    } else {
      RepLeaf(m', b, x, nil);
    }
  }

  lemma RelinkedTop(m: Mem, m': Mem, x: Ptr, y: Ptr, b: Tree, hole: Slot, d: Dir, nil: Ptr)
    requires Relinked(m, m', x, y, TopNode(b, nil), hole, d, nil) && (b.Bin? ==> b.n != nil)
    ensures b.Bin? ==> Has(m, b.n) && Has(m', b.n) && m'.parent[b.n] == x && m'.red[b.n] == m.red[b.n]
                       && forall e :: m'.kid[Slot(b.n, e)] == m.kid[Slot(b.n, e)]
  {
    hide Same;
  }

  lemma RepTop(m: Mem, t: Tree, q: Ptr, nil: Ptr)
    requires t.Bin? && Rep(m, t, q, nil)
    ensures Has(m, t.n) && m.red[t.n] == t.red
  {
  }

  lemma RepLeaf(m: Mem, t: Tree, q: Ptr, nil: Ptr)
    requires t.Leaf?
    ensures Rep(m, t, q, nil)
  {
  }

  lemma RelinkedSame(m: Mem, m': Mem, x: Ptr, d: Dir, p: Path, a: Tree, xr: bool,
                     b: Tree, y: Ptr, yr: bool, c: Tree, root: Ptr, nil: Ptr)
    requires Zip(m, p, Mk(d, a, x, xr, Mk(d, b, y, yr, c)), root, nil)
    requires Relinked(m, m', x, y, TopNode(b, nil), Hole(p, root), d, nil)
    ensures Distinct(b) && (b.Bin? ==> b.n != nil)
    ensures (forall n <- Nodes(a) :: Same(m, m', n)) && (forall n <- Nodes(c) :: Same(m, m', n))
    ensures forall n <- Nodes(b) :: n != TopNode(b, nil) ==> Same(m, m', n)
  {
    hide Distinct; hide PathNodes; hide DistinctPath; hide RepPath; hide Mk; hide Rep; hide Same; hide Relinked; hide Apart;
    MkTwoDistinctOf(p, d, a, x, xr, b, y, yr, c, root, nil);
    OutsideTwo(p, d, a, x, xr, b, y, yr, c, root, nil);
    RelinkedOthers(m, m', x, y, TopNode(b, nil), Hole(p, root), d, nil);
    if b.Bin? {
      assert b.n in Nodes(b);
    }
    hide Nodes;
  }

  lemma MkTwoDistinctOf(p: Path, d: Dir, a: Tree, x: Ptr, xr: bool, b: Tree, y: Ptr, yr: bool, c: Tree, root: Ptr, nil: Ptr)
    requires Apart(p, Mk(d, a, x, xr, Mk(d, b, y, yr, c)), root, nil)
    ensures x !in Nodes(a) && x !in Nodes(b) && x !in Nodes(c) && y !in Nodes(a) && y !in Nodes(b) && y !in Nodes(c)
    ensures Nodes(a) !! Nodes(b) && Nodes(b) !! Nodes(c) && Distinct(b)
  {
    hide Distinct; hide DistinctPath; hide Nodes; hide PathNodes; hide Mk;
    MkTwoDistinct(d, a, x, xr, b, y, yr, c);
  }

  lemma RelinkedOthers(m: Mem, m': Mem, x: Ptr, y: Ptr, i: Ptr, hole: Slot, d: Dir, nil: Ptr)
    requires Relinked(m, m', x, y, i, hole, d, nil)
    ensures forall n :: n != x && n != y && n != hole.n && (n == i ==> n == nil) ==> Same(m, m', n)
  {
    hide Same;
  }

  lemma RelinkedSubs(m: Mem, m': Mem, x: Ptr, d: Dir, p: Path, a: Tree, xr: bool,
                     b: Tree, y: Ptr, yr: bool, c: Tree, root: Ptr, nil: Ptr)
    requires Zip(m, p, Mk(d, a, x, xr, Mk(d, b, y, yr, c)), root, nil)
    requires Relinked(m, m', x, y, TopNode(b, nil), Hole(p, root), d, nil)
    ensures Rep(m', Mk(d, Mk(d, a, x, xr, b), y, yr, c), Holder(p, root), nil)
  {
    hide Distinct; hide PathNodes; hide DistinctPath; hide RepPath; hide Apart; hide Rep; hide Nodes;
    RelinkedParts(m, m', x, d, p, a, xr, b, y, yr, c, root, nil);
    RepMk(m, d, a, x, xr, Mk(d, b, y, yr, c), Holder(p, root), nil);
    RepMk(m, d, b, y, yr, c, x, nil);
    RepMk(m', d, a, x, xr, b, y, nil);
    RepMk(m', d, Mk(d, a, x, xr, b), y, yr, c, Holder(p, root), nil);
  }
}
