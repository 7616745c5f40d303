/**
 * The red-black tree of util/rbtree.c: a `nil` sentinel, a fake root whose left
 * child is the real root, and CLRS-style insertion and deletion that rewrite
 * the fields of the nodes in place.
 */
module RbTree {
  import opened RbShape
  import opened RbHeap
  import opened RbLinks

  class RbTree {
    var red: map<Ptr, bool>
    var parent: map<Ptr, Ptr>
    var kid: map<Slot, Ptr>
    var key: map<Ptr, int>
    const nil: Ptr
    const root: Ptr
    ghost var shape: Tree

    ghost function M(): Mem
      reads this
    {
      Mem(red, parent, kid)
    }

    // rb_tree_create, with the two sentinel records placed at `n` and `r`.
    constructor (n: Ptr, r: Ptr)
      requires n != r
      ensures nil == n && root == r && Valid() && Elems() == [] && key == map[]
    {
      nil, root := n, r;
      red := map[n := false, r := false];
      parent := map[n := n, r := n];
      kid := map[Slot(n, Left) := n, Slot(n, Right) := n, Slot(r, Left) := n, Slot(r, Right) := n];
      key := map[];
      shape := Leaf;
      new;
      forall d
        ensures Slot(nil, d) in kid && Slot(root, d) in kid
      {
        assert d == Left || d == Right;
      }
      assert BlackHeight(shape, 0);
    }

    // The nodes of the tree, from left to right.
    ghost function Elems(): seq<Ptr>
      reads this
    {
      InOrder(shape)
    }

    // What both sentinels and the node table keep throughout.
    ghost predicate Sentinels()
      reads this
    {
      Has(M(), nil) && !red[nil] && Has(M(), root) && !red[root]
    }

    ghost predicate Valid()
      reads this
    {
      && Sentinels()
      && Zip(M(), Top, shape, root, nil)
      && RedBlack(shape)
      && Sorted(Elems(), key)
    }

    // The pointer assignments of FUNC_ROTATE, with `_left` standing for side `d`.
    method RotateLinks(x: Ptr, d: Dir)
      requires RotateSafe(M(), x, d, nil)
      modifies `parent, `kid
      ensures M() == Rotated(old(M()), x, d, nil)
    {
      var y := kid[Slot(x, Opp(d))];
      kid := kid[Slot(x, Opp(d)) := kid[Slot(y, d)]];
      if kid[Slot(y, d)] != nil {
        parent := parent[kid[Slot(y, d)] := x];
      }
      parent := parent[y := parent[x]];
      if x == kid[Slot(parent[x], d)] {
        kid := kid[Slot(parent[x], d) := y];
      } else {
        kid := kid[Slot(parent[x], Opp(d)) := y];
      }
      kid := kid[Slot(y, d) := x];
      parent := parent[x := y];
    }

    /**
     * The child `y` of `x` on the side away from `d` takes the place of `x`,
     * and `x` becomes the `d` child of `y`.
     */
    method Rotate(x: Ptr, d: Dir, ghost p: Path, ghost a: Tree, ghost xr: bool,
                  ghost b: Tree, ghost y: Ptr, ghost yr: bool, ghost c: Tree)
      requires Zip(M(), p, Mk(d, a, x, xr, Mk(d, b, y, yr, c)), root, nil)
      modifies `parent, `kid
      ensures Zip(M(), p, Mk(d, Mk(d, a, x, xr, b), y, yr, c), root, nil)
      ensures old(Sentinels()) ==> Sentinels() && parent[nil] == old(parent[nil])
    {
      RotateSetup(M(), x, d, p, a, xr, b, y, yr, c, root, nil);
      RotateDone(M(), x, d, p, a, xr, b, y, yr, c, root, nil);
      RotateLinks(x, d);
    }

    // ----- Insertion -----

    method Paint(n: Ptr, c: bool, ghost p: Path, ghost t: Tree)
      requires t.Bin? && t.n == n && Zip(M(), p, t, root, nil)
      modifies `red
      ensures red == old(red)[n := c]
      ensures Zip(M(), p, t.(red := c), root, nil)
      ensures old(Sentinels()) ==> Sentinels() && parent[nil] == old(parent[nil])
    {
      PaintDone(M(), n, c, p, t, root, nil);
      red := red[n := c];
    }

    /**
     * RB_INSERT_SUB when the uncle is red: `x` hangs on side `e` of its parent
     * `pn`, and `pn` on side `d` of the grandparent `g`.
     */
    method InsertRecolour(x: Ptr, d: Dir, ghost e: Dir, ghost up: Path, ghost g: Ptr, ghost uncle: Tree,
                          ghost pn: Ptr, ghost sib: Tree, ghost t: Tree)
      returns (x': Ptr)
      requires t.Bin? && t.n == x && uncle.Bin?
      requires Zip(M(), Step(e, Step(d, up, g, false, uncle), pn, true, sib), t, root, nil)
      modifies `red
      ensures x' == g
      ensures Zip(M(), up, Mk(d, Mk(e, t, pn, false, sib), g, true, uncle.(red := false)), root, nil)
      ensures old(Sentinels()) ==> Sentinels() && parent[nil] == old(parent[nil])
    {
      hide Zip;
      ghost var gp := Step(d, up, g, false, uncle);
      ghost var pt := Mk(e, t, pn, true, sib);
      ZipUp(M(), Step(e, gp, pn, true, sib), t, root, nil);
      ZipUp(M(), gp, pt, root, nil);
      ZipFields(M(), Step(e, gp, pn, true, sib), t, root, nil);
      ZipFields(M(), gp, pt, root, nil);
      var y := kid[Slot(parent[parent[x]], Opp(d))];
      Paint(parent[x], false, gp, pt);
      ghost var pt' := pt.(red := false);
      ZipOver(M(), gp, pt', root, nil);
      Paint(y, false, Step(Opp(d), up, g, false, pt'), uncle);
      ghost var uncle' := uncle.(red := false);
      ZipUp(M(), Step(Opp(d), up, g, false, pt'), uncle', root, nil);
      Paint(parent[parent[x]], true, up, Mk(d, pt', g, false, uncle'));
      x' := parent[parent[x]];
    }

    /**
     * RB_INSERT_SUB when the uncle is black and `x` is an outer grandchild: the
     * grandparent `g` is rotated below the parent `pn`.
     */
    method InsertOuter(x: Ptr, d: Dir, ghost up: Path, ghost g: Ptr, ghost uncle: Tree,
                       ghost pn: Ptr, ghost sib: Tree, ghost t: Tree)
      requires t.Bin? && t.n == x
      requires Zip(M(), Step(d, Step(d, up, g, false, uncle), pn, true, sib), t, root, nil)
      modifies `red, `parent, `kid
      ensures Zip(M(), up, Mk(Opp(d), Mk(Opp(d), uncle, g, true, sib), pn, false, t), root, nil)
      ensures x in parent && parent[x] in red && !red[parent[x]]
      ensures old(Sentinels()) ==> Sentinels() && parent[nil] == old(parent[nil])
    {
      hide Zip;
      ghost var gp := Step(d, up, g, false, uncle);
      ZipUp(M(), Step(d, gp, pn, true, sib), t, root, nil);
      ZipFields(M(), Step(d, gp, pn, true, sib), t, root, nil);
      ZipFields(M(), gp, Mk(d, t, pn, true, sib), root, nil);
      Paint(parent[x], false, gp, Mk(d, t, pn, true, sib));
      ghost var pt := Mk(d, t, pn, false, sib);
      ZipUp(M(), gp, pt, root, nil);
      Paint(parent[parent[x]], true, up, Mk(d, pt, g, false, uncle));
      Rotate(parent[parent[x]], Opp(d), up, uncle, true, sib, pn, false, t);
      ghost var after := Step(d, up, pn, false, Mk(Opp(d), uncle, g, true, sib));
      ZipUp(M(), after, t, root, nil);
      ZipFields(M(), after, t, root, nil);
    }

    /**
     * RB_INSERT_SUB when the uncle is black: `x` hangs on side `e` of its parent
     * `pn`; an inner `x` is first rotated outwards.
     */
    method InsertRotate(x: Ptr, d: Dir, ghost e: Dir, ghost up: Path, ghost g: Ptr, ghost uncle: Tree,
                        ghost pn: Ptr, ghost sib: Tree, ghost t: Tree)
      returns (x': Ptr)
      requires t.Bin? && t.n == x && t.red
      requires Zip(M(), Step(e, Step(d, up, g, false, uncle), pn, true, sib), t, root, nil)
      modifies `red, `parent, `kid
      ensures Zip(M(), up, InsertRotated(d, e, g, uncle, pn, sib, t), root, nil)
      ensures x' in parent && parent[x'] in red && !red[parent[x']]
      ensures old(Sentinels()) ==> Sentinels() && parent[nil] == old(parent[nil])
    {
      hide Zip;
      x' := x;
      ghost var gp := Step(d, up, g, false, uncle);
      ZipUp(M(), Step(e, gp, pn, true, sib), t, root, nil);
      ZipFields(M(), Step(e, gp, pn, true, sib), t, root, nil);
      ZipSides(M(), e, gp, pn, true, sib, t, root, nil);
      if x == kid[Slot(parent[x], Opp(d))] {
        x' := parent[x];
        ghost var tn, tf := Sub(t, d), Sub(t, Opp(d));
        MkSub(d, t);
        Rotate(x', d, gp, sib, true, tn, x, true, tf);
        ZipUp(M(), Step(d, gp, x, true, tf), Mk(d, sib, pn, true, tn), root, nil);
        InsertOuter(x', d, up, g, uncle, x, tf, Mk(d, sib, pn, true, tn));
      } else {
        InsertOuter(x', d, up, g, uncle, pn, sib, t);
      }
    }

    // The walk of rb_insert_binary: from the fake root down to the hole where a key `k` belongs.
    method FindHole(k: int) returns (y: Ptr, ghost p: Path)
      requires Zip(M(), Top, shape, root, nil) && Sorted(Elems(), key)
      ensures Plug(p, Leaf) == shape && Zip(M(), p, Leaf, root, nil)
      ensures y == Holder(p, root) && (y != root ==> y in key)
      ensures Hole(p, root) == Slot(y, if y == root || key[y] > k then Left else Right)
      ensures forall n <- Before(p) :: n in key && key[n] <= k
      ensures forall n <- After(p) :: n in key && key[n] > k
    {
      hide Zip; hide InOrder; hide Sorted;
      y, p := root, Top;
      ghost var t := shape;
      ZipFields(M(), p, t, root, nil);
      var x := kid[Slot(y, Left)];
      while x != nil
        invariant Zip(M(), p, t, root, nil) && Plug(p, t) == shape
        invariant x == TopNode(t, nil) && y == Holder(p, root)
        invariant p.Step? ==> y != root && y in key && p.d == if key[y] > k then Left else Right
        invariant forall n <- Before(p) :: n in key && key[n] <= k
        invariant forall n <- After(p) :: n in key && key[n] > k
        decreases t
      {
        y := x;
        SortedDown(p, t, key, k);
        ZipFields(M(), p, t, root, nil);
        var d := if key[x] > k then Left else Right;
        ZipDown(M(), p, t, d, root, nil);
        p, t := Step(d, p, t.n, t.red, Sub(t, Opp(d))), Sub(t, d);
        x := kid[Slot(x, d)];
      }
      ZipFields(M(), p, t, root, nil);
    }

    // rb_insert_binary: hangs `z`, without children, below the last node of the walk.
    method InsertBinary(z: Ptr) returns (ghost p: Path)
      requires Valid() && Has(M(), z) && z in key
      requires z != nil && z != root && z !in Nodes(shape)
      modifies `parent, `kid
      ensures Plug(p, Leaf) == shape
      ensures Zip(M(), p, Bin(Leaf, z, red[z], Leaf), root, nil)
      ensures forall n <- Before(p) :: n in key && key[n] <= key[z]
      ensures forall n <- After(p) :: n in key && key[n] > key[z]
      ensures Sentinels()
    {
      hide Zip; hide RedBlack; hide Before; hide After; hide Sorted; hide Nodes; hide PathNodes;
      BlankDone(M(), z, shape, root, nil);
      kid := kid[Slot(z, Left) := nil][Slot(z, Right) := nil];
      var y;
      y, p := FindHole(key[z]);
      PlugNodes(p, Leaf);
      AttachDone(M(), z, p, root, nil);
      parent := parent[z := y];
      if y == root || key[y] > key[z] {
        kid := kid[Slot(y, Left) := z];
      } else {
        kid := kid[Slot(y, Right) := z];
      }
    }

    /**
     * One round of RB_INSERT_SUB.  `done` says that no red-red edge is left, in
     * which case `x` lies somewhere below a black parent.
     */
    method InsertRound(x: Ptr, ghost p: Path, ghost t: Tree, ghost h: nat)
      returns (x': Ptr, ghost p': Path, ghost t': Tree, ghost done: bool)
      requires Sentinels() && Zip(M(), p, t, root, nil)
      requires t.Bin? && t.n == x && t.red && PathRed(p)
      requires PathOk(p, h) && BlackHeight(t, h) && NoRedRed(t)
      modifies `red, `parent, `kid
      ensures Sentinels() && Zip(M(), p', t', root, nil)
      ensures PathOk(p', h + 1) && BlackHeight(t', h + 1) && NoRedRed(t') && Depth(p') < Depth(p)
      ensures InOrder(Plug(p', t')) == InOrder(Plug(p, t))
      ensures t'.Bin?
      ensures if done then !IsRed(t') && x' in parent && parent[x'] in red && !red[parent[x']]
              else t'.n == x' && t'.red
    {
      hide Zip; hide PathOk; hide BlackHeight; hide NoRedRed; hide InOrder; hide InsertRotated;
      GrandparentBlack(p, h);
      ghost var e, pn, sib := p.d, p.n, p.sib;
      ghost var up, g, uncle := p.up.up, p.up.n, p.up.sib;
      ZipUp(M(), p, t, root, nil);
      ghost var pt := Mk(e, t, pn, true, sib);
      ZipFields(M(), p, t, root, nil);
      ZipFields(M(), p.up, pt, root, nil);
      ZipSides(M(), p.up.d, up, g, false, uncle, pt, root, nil);
      var d := Right;
      if parent[x] == kid[Slot(parent[parent[x]], Left)] {
        d := Left;
      }
      ZipOver(M(), p.up, pt, root, nil);
      ZipFields(M(), Step(Opp(d), up, g, false, pt), uncle, root, nil);
      if red[kid[Slot(parent[parent[x]], Opp(d))]] {
        RecolourKeeps(up, d, e, g, uncle, pn, sib, t, h);
        x' := InsertRecolour(x, d, e, up, g, uncle, pn, sib, t);
        t', done := Mk(d, Mk(e, t, pn, false, sib), g, true, uncle.(red := false)), false;
      } else {
        InsertRotateKeeps(up, d, e, g, uncle, pn, sib, t, h);
        x' := InsertRotate(x, d, e, up, g, uncle, pn, sib, t);
        t', done := InsertRotated(d, e, g, uncle, pn, sib, t), true;
      }
      p' := up;
      PlugSameInOrder(up, t', Mk(d, pt, g, false, uncle));
    }

    // The loop of rb_insert, and the blackening of the real root after it.
    method InsertFixup(z: Ptr, ghost p0: Path, ghost t0: Tree, ghost h0: nat)
      requires Sentinels() && Zip(M(), p0, t0, root, nil)
      requires t0.Bin? && t0.n == z && t0.red
      requires PathOk(p0, h0) && BlackHeight(t0, h0) && NoRedRed(t0)
      modifies `red, `parent, `kid, `shape
      ensures Sentinels() && Zip(M(), Top, shape, root, nil)
      ensures RedBlack(shape) && Elems() == InOrder(Plug(p0, t0))
    {
      hide Zip; hide PathOk; hide BlackHeight; hide NoRedRed;
      ghost var p, t, h, done := p0, t0, h0, false;
      var x := z;
      ZipFields(M(), p, t, root, nil);
      while red[parent[x]]
        invariant Sentinels() && Zip(M(), p, t, root, nil)
        invariant PathOk(p, h) && BlackHeight(t, h) && NoRedRed(t)
        invariant InOrder(Plug(p, t)) == InOrder(Plug(p0, t0))
        invariant t.Bin? && x in parent && parent[x] in red
        invariant if done then !IsRed(t) && !red[parent[x]]
                  else t.n == x && t.red && red[parent[x]] == PathRed(p)
        decreases if done then 0 else 1 + Depth(p)
      {
        x, p, t, done := InsertRound(x, p, t, h);
        h := h + 1;
        ZipFields(M(), p, t, root, nil);
      }
      PlugRedBlack(p, t, h);
      ZipPlug(M(), p, t, root, nil);
      shape := Plug(p, t);
      PlugStepNotLeaf(p, t);
      BlackenRedBlack(shape);
      ZipFields(M(), Top, shape, root, nil);
      Paint(kid[Slot(root, Left)], false, Top, shape);
      shape := Blacken(shape);
    }

    /**
     * rb_insert: `z` enters after every node with a smaller or equal key and
     * before every node with a larger one, and the tree is red-black again.
     */
    method Insert(z: Ptr)
      requires Valid() && Has(M(), z) && z in key
      requires z != nil && z != root && z !in Elems()
      modifies `red, `parent, `kid, `shape
      ensures Valid()
      ensures InsertedAt(old(Elems()), Elems(), z, key)
    {
      hide Zip; hide PathOk; hide BlackHeight; hide NoRedRed; hide Distinct;
      hide InOrder; hide Sorted; hide InsertedAt; hide Plug;
      InOrderNodes(shape);
      ghost var h :| BlackHeight(shape, h);
      ghost var p := InsertBinary(z);
      h := UnplugRedBlack(p, Leaf, h);
      Paint(z, true, p, Bin(Leaf, z, red[z], Leaf));
      ghost var t := Bin(Leaf, z, true, Leaf);
      FreshLeafOk(z, h);
      AttachedInOrder(p, z, key);
      InsertFixup(z, p, t, h);
    }

    // ----- Deletion -----

    // `x` is what fills the hole of `p`; the sentinel, too, knows its holder.
    ghost predicate At(x: Ptr, p: Path, t: Tree)
      reads this
    {
      && Sentinels() && Zip(M(), p, t, root, nil)
      && x == TopNode(t, nil) && x in parent && parent[x] == Holder(p, root)
    }

    // The subtree `t`, topped by `x`, is one black node short of what its path expects.
    ghost predicate Short(x: Ptr, p: Path, t: Tree, h: nat)
      reads this
    {
      At(x, p, t) && PathOk(p, h + 1) && BlackHeight(t, h) && NoRedRed(Blacken(t))
    }

    // No shortage is left.
    ghost predicate Repaired(p: Path, t: Tree, h: nat)
      reads this
    {
      && Sentinels() && Zip(M(), p, t, root, nil)
      && PathOk(p, h) && BlackHeight(t, h) && NoRedRed(t)
      && (IsRed(t) ==> !PathRed(p) && p.Step?)
    }

    // RB_DELETE_FIXUP_SUB, sibling red: rotate it above the parent.
    method DeleteRedSibling(x: Ptr, d: Dir, ghost up: Path, ghost pn: Ptr, ghost wn: Tree, ghost w: Ptr, ghost wf: Tree, ghost t: Tree)
      requires At(x, Step(d, up, pn, false, Mk(d, wn, w, true, wf)), t)
      modifies `red, `parent, `kid
      ensures At(x, Step(d, Step(d, up, w, false, wf), pn, true, wn), t)
    {
      hide Zip;
      ghost var p := Step(d, up, pn, false, Mk(d, wn, w, true, wf));
      ZipFields(M(), p, t, root, nil);
      ZipOver(M(), p, t, root, nil);
      Paint(kid[Slot(parent[x], Opp(d))], false, Step(Opp(d), up, pn, false, t), Mk(d, wn, w, true, wf));
      ghost var sib := Mk(d, wn, w, false, wf);
      ZipOver(M(), Step(d, up, pn, false, sib), t, root, nil);
      ZipUp(M(), Step(d, up, pn, false, sib), t, root, nil);
      Paint(parent[x], true, up, Mk(d, t, pn, false, sib));
      Rotate(parent[x], d, up, t, true, wn, w, false, wf);
      ghost var q := Step(d, up, w, false, wf);
      ZipUp(M(), q, Mk(d, t, pn, true, wn), root, nil);
      ZipUp(M(), Step(d, q, pn, true, wn), t, root, nil);
      ZipFields(M(), Step(d, q, pn, true, wn), t, root, nil);
    }

    // RB_DELETE_FIXUP_SUB, only the near nephew red: rotate it above the sibling.
    method DeleteNearNephew(x: Ptr, d: Dir, ghost up: Path, ghost pn: Ptr, ghost pc: bool,
                            ghost wn: Tree, ghost w: Ptr, ghost wf: Tree, ghost t: Tree)
      requires wn.Bin? && At(x, Step(d, up, pn, pc, Mk(d, wn, w, false, wf)), t)
      modifies `red, `parent, `kid
      ensures At(x, Step(d, up, pn, pc, Mk(d, Sub(wn, d), wn.n, false, Mk(d, Sub(wn, Opp(d)), w, true, wf))), t)
    {
      hide Zip;
      ghost var p := Step(d, up, pn, pc, Mk(d, wn, w, false, wf));
      ghost var q := Step(Opp(d), up, pn, pc, t);
      ZipFields(M(), p, t, root, nil);
      ZipOver(M(), p, t, root, nil);
      var w' := kid[Slot(parent[x], Opp(d))];
      ZipUp(M(), Step(d, q, w, false, wf), wn, root, nil);
      ZipFields(M(), Step(d, q, w, false, wf), wn, root, nil);
      Paint(kid[Slot(w', d)], false, Step(d, q, w, false, wf), wn);
      ghost var wn' := wn.(red := false);
      ZipUp(M(), Step(d, q, w, false, wf), wn', root, nil);
      Paint(w', true, q, Mk(d, wn', w, false, wf));
      ghost var a, b := Sub(wn, d), Sub(wn, Opp(d));
      MkSub(d, wn');
      Rotate(w', Opp(d), q, wf, true, b, wn.n, false, a);
      ghost var sib := Mk(d, a, wn.n, false, Mk(d, b, w, true, wf));
      ZipOver(M(), q, sib, root, nil);
      ZipFields(M(), Step(d, up, pn, pc, sib), t, root, nil);
    }

    // RB_DELETE_FIXUP_SUB, far nephew red: rotate the sibling above the parent and stop.
    method DeleteFarNephew(x: Ptr, d: Dir, ghost up: Path, ghost pn: Ptr, ghost pc: bool,
                           ghost wn: Tree, ghost w: Ptr, ghost wf: Tree, ghost t: Tree)
      requires wf.Bin? && At(x, Step(d, up, pn, pc, Mk(d, wn, w, false, wf)), t)
      modifies `red, `parent, `kid
      ensures Sentinels() && pn in red && !red[pn]
      ensures Zip(M(), up, Mk(d, Mk(d, t, pn, false, wn), w, pc, wf.(red := false)), root, nil)
    {
      hide Zip;
      var w' := PaintSibling(x, d, up, pn, pc, wn, w, wf, t);
      ghost var q' := Step(Opp(d), up, pn, false, t);
      ZipUp(M(), Step(Opp(d), q', w, pc, wn), wf, root, nil);
      ZipFields(M(), Step(Opp(d), q', w, pc, wn), wf, root, nil);
      Paint(kid[Slot(w', Opp(d))], false, Step(Opp(d), q', w, pc, wn), wf);
      ghost var wf' := wf.(red := false);
      ZipUp(M(), Step(Opp(d), q', w, pc, wn), wf', root, nil);
      ZipUp(M(), q', Mk(d, wn, w, pc, wf'), root, nil);
      ZipFields(M(), up, Mk(d, t, pn, false, Mk(d, wn, w, pc, wf')), root, nil);
      Rotate(parent[x], d, up, t, false, wn, w, pc, wf');
    }

    // The sibling takes the colour of the parent, which becomes black.
    method PaintSibling(x: Ptr, d: Dir, ghost up: Path, ghost pn: Ptr, ghost pc: bool,
                        ghost wn: Tree, ghost w: Ptr, ghost wf: Tree, ghost t: Tree) returns (w': Ptr)
      requires At(x, Step(d, up, pn, pc, Mk(d, wn, w, false, wf)), t)
      modifies `red
      ensures Sentinels() && pn in red && !red[pn] && w' == w && x in parent && parent[x] == pn
      ensures Zip(M(), Step(Opp(d), up, pn, false, t), Mk(d, wn, w, pc, wf), root, nil)
    {
      hide Zip;
      ghost var p := Step(d, up, pn, pc, Mk(d, wn, w, false, wf));
      ghost var q := Step(Opp(d), up, pn, pc, t);
      ZipFields(M(), p, t, root, nil);
      ZipOver(M(), p, t, root, nil);
      w' := kid[Slot(parent[x], Opp(d))];
      Paint(w', red[parent[x]], q, Mk(d, wn, w, false, wf));
      ghost var sib := Mk(d, wn, w, pc, wf);
      ZipUp(M(), q, sib, root, nil);
      Paint(parent[x], false, up, Mk(d, t, pn, pc, sib));
      ZipUp(M(), Step(Opp(d), up, pn, false, t), sib, root, nil);
    }

    /**
     * RB_DELETE_FIXUP_SUB once the sibling is black.  If a nephew is red the
     * shortage is repaired (`done`), else it moves up to the parent.
     */
    method DeleteBlackSibling(x: Ptr, d: Dir, r0: Ptr, ghost p: Path, ghost t: Tree, ghost h: nat)
      returns (x': Ptr, ghost t': Tree, ghost h': nat, ghost done: bool)
      requires p.Step? && p.d == d && p.sib.Bin? && !p.sib.red && At(x, p, t)
      requires PathOk(p, h + 1) && BlackHeight(t, h) && NoRedRed(t) && !IsRed(t)
      modifies `red, `parent, `kid
      ensures InOrder(Plug(p.up, t')) == InOrder(Plug(p, t))
      ensures done ==> Repaired(p.up, t', h') && x' == r0 && p.n in red && !red[p.n]
      ensures !done ==> Short(x', p.up, t', h') && t'.Bin? && t'.n == p.n && t'.red == p.red
    {
      hide Zip; hide PathOk; hide BlackHeight; hide NoRedRed; hide InOrder;
      ghost var up, pn, pc, sib := p.up, p.n, p.red, p.sib;
      ghost var q := Step(Opp(d), up, pn, pc, t);
      ghost var old' := Mk(d, t, pn, pc, sib);
      ZipFields(M(), p, t, root, nil);
      ZipOver(M(), p, t, root, nil);
      var w := kid[Slot(parent[x], Opp(d))];
      MkSub(d, sib);
      KidColours(M(), q, sib, root, nil);
      if !red[kid[Slot(w, d)]] && !red[kid[Slot(w, Opp(d))]] {
        BlackNephewsKeep(up, d, pn, pc, sib, t, h);
        Paint(w, true, q, sib);
        ZipUp(M(), q, sib.(red := true), root, nil);
        x' := parent[x];
        t', h', done := Mk(d, t, pn, pc, sib.(red := true)), if pc then h else h + 1, false;
        ZipFields(M(), up, t', root, nil);
      } else {
        ghost var wn, wn', wf := sib.n, Sub(sib, d), Sub(sib, Opp(d));
        if !red[kid[Slot(w, Opp(d))]] {
          NearNephewKeeps(up, d, pn, pc, wn', wn, wf, t, h);
          DeleteNearNephew(x, d, up, pn, pc, wn', wn, wf, t);
          wn, wn', wf := wn'.n, Sub(wn', d), Mk(d, Sub(wn', Opp(d)), wn, true, wf);
        }
        FarNephewKeeps(up, d, pn, pc, wn', wn, wf, t, h);
        DeleteFarNephew(x, d, up, pn, pc, wn', wn, wf, t);
        x' := r0;
        t', h', done := Mk(d, Mk(d, t, pn, false, wn'), wn, pc, wf.(red := false)), if pc then h + 1 else h + 2, true;
      }
      PlugSameInOrder(up, t', old');
    }

    /**
     * One round of RB_DELETE_FIXUP_SUB.  The code keeps the real root found at
     * the start in `r0`; a rotation may have pushed it down, but then it is
     * either the red node the shortage has moved to, or black.
     */
    method DeleteRound(x: Ptr, r0: Ptr, ghost p: Path, ghost t: Tree, ghost h: nat)
      returns (x': Ptr, ghost p': Path, ghost t': Tree, ghost h': nat, ghost done: bool)
      requires p.Step? && At(x, p, t) && r0 == TopNode(Plug(p, t), nil)
      requires PathOk(p, h + 1) && BlackHeight(t, h) && NoRedRed(t) && !IsRed(t)
      modifies `red, `parent, `kid
      ensures InOrder(Plug(p', t')) == InOrder(Plug(p, t))
      ensures done ==> Repaired(p', t', h') && x' == r0 && r0 in red && !red[r0]
      ensures !done ==>
                && Short(x', p', t', h')
                && (Depth(p') < Depth(p) || IsRed(t'))
                && (r0 == TopNode(Plug(p', t'), nil) || (IsRed(t') && x' == r0))
    {
      hide Zip; hide PathOk; hide BlackHeight; hide NoRedRed; hide InOrder;
      SiblingIsNode(p, h);
      ZipFields(M(), p, t, root, nil);
      ZipOver(M(), p, t, root, nil);
      ZipFields(M(), Step(Opp(p.d), p.up, p.n, p.red, t), p.sib, root, nil);
      SiblingElsewhere(M(), p, t, root, nil);
      var d := Right;
      if x == kid[Slot(parent[x], Left)] {
        d := Left;
      }
      ghost var p1 := p;
      assert Plug(p, t) == Plug(p.up, Mk(d, t, p.n, p.red, p.sib));
      if red[kid[Slot(parent[x], Opp(d))]] {
        ghost var wn, w, wf := Sub(p.sib, d), p.sib.n, Sub(p.sib, Opp(d));
        MkSub(d, p.sib);
        RedSiblingKeeps(p.up, d, p.n, p.red, wn, w, wf, t, h);
        DeleteRedSibling(x, d, p.up, p.n, wn, w, wf, t);
        p1 := Step(d, Step(d, p.up, w, false, wf), p.n, true, wn);
        PlugSameInOrder(p.up, Mk(d, Mk(d, t, p.n, true, wn), w, false, wf), Mk(d, t, p.n, p.red, p.sib));
      }
      x', t', h', done := DeleteBlackSibling(x, d, r0, p1, t, h);
      p' := p1.up;
      ghost var inner := if p' == p.up then t' else Mk(p'.d, t', p'.n, p'.red, p'.sib);
      assert Plug(p', t') == Plug(p.up, inner);
      if p.up.Step? {
        PlugTop(p.up, Mk(d, t, p.n, p.red, p.sib), inner);
        if done {
          RealRootBlack(M(), p', t', h', root, nil);
        }
      }
    }

    // The loop of rb_delete_fixup.
    method DeleteLoop(x0: Ptr, r0: Ptr, ghost p0: Path, ghost t0: Tree, ghost h0: nat)
      returns (x: Ptr, ghost p: Path, ghost t: Tree, ghost h: nat, ghost done: bool)
      requires Short(x0, p0, t0, h0) && r0 == TopNode(Plug(p0, t0), nil)
      modifies `red, `parent, `kid
      ensures Sentinels() && x in red && (x == r0 || red[x])
      ensures InOrder(Plug(p, t)) == InOrder(Plug(p0, t0))
      ensures done ==> Repaired(p, t, h) && !red[x]
      ensures !done ==>
                && Short(x, p, t, h) && red[x] == IsRed(t)
                && (r0 == TopNode(Plug(p, t), nil) || (IsRed(t) && x == r0))
    {
      hide Zip; hide PathOk; hide BlackHeight; hide NoRedRed; hide InOrder; hide Blacken;
      p, t, h, done := p0, t0, h0, false;
      x := x0;
      ZipFields(M(), p, t, root, nil);
      while x != r0 && !red[x]
        invariant Sentinels() && x in red
        invariant InOrder(Plug(p, t)) == InOrder(Plug(p0, t0))
        invariant done ==> Repaired(p, t, h) && x == r0 && !red[r0]
        invariant !done ==> Short(x, p, t, h) && red[x] == IsRed(t)
        invariant !done ==> r0 == TopNode(Plug(p, t), nil) || (IsRed(t) && x == r0)
        decreases if done || IsRed(t) then 0 else 1 + Depth(p)
      {
        BlackenSame(t);
        x, p, t, h, done := DeleteRound(x, r0, p, t, h);
        if !done {
          ZipFields(M(), p, t, root, nil);
        }
      }
    }

    // rb_delete_fixup: repairs a tree in which the subtree topped by `x` is one black node short.
    method DeleteFixup(x0: Ptr, ghost p0: Path, ghost t0: Tree, ghost h0: nat)
      requires At(x0, p0, t0) && PathOk(p0, h0 + 1) && BlackHeight(t0, h0) && NoRedRed(t0)
      modifies `red, `parent, `kid, `shape
      ensures Sentinels() && Zip(M(), Top, shape, root, nil)
      ensures RedBlack(shape) && Elems() == InOrder(Plug(p0, t0))
    {
      hide Zip; hide PathOk; hide BlackHeight; hide NoRedRed; hide InOrder; hide RedBlack; hide Blacken;
      BlackenNoRedRed(t0);
      ZipPlug(M(), p0, t0, root, nil);
      ZipFields(M(), Top, Plug(p0, t0), root, nil);
      ghost var p, t, h, done;
      var r0 := kid[Slot(root, Left)];
      var x;
      x, p, t, h, done := DeleteLoop(x0, r0, p0, t0, h0);
      if done {
        assert red[x := false] == red;
        WholeRedBlack(M(), p, t, h, root, nil);
        shape := Plug(p, t);
      } else {
        ShortBlackened(M(), x, p, t, h, r0, root, nil);
        shape := Plug(p, Blacken(t));
      }
      red := red[x := false];
    }

    // The descent of rb_tree_successor when there is a right subtree: its leftmost node.
    method LeftmostBelow(z: Ptr, ghost outer: Path, ghost t: Tree) returns (y: Ptr, ghost inner: Path, ghost f: Tree)
      requires t.Bin? && Zip(M(), outer, t, root, nil) && Slot(z, Right) in kid && kid[Slot(z, Right)] == t.n
      ensures f.Bin? && f.n == y && f.l.Leaf? && AllLeft(inner) && Plug(inner, f) == t
      ensures Zip(M(), Append(inner, outer), f, root, nil)
    {
      hide Zip;
      y := kid[Slot(z, Right)];
      inner, f := Top, t;
      ZipFields(M(), outer, f, root, nil);
      while kid[Slot(y, Left)] != nil
        invariant f.Bin? && f.n == y && AllLeft(inner) && Plug(inner, f) == t
        invariant Zip(M(), Append(inner, outer), f, root, nil)
        invariant Slot(y, Left) in kid && kid[Slot(y, Left)] == TopNode(f.l, nil)
        decreases f
      {
        y := kid[Slot(y, Left)];
        ZipDown(M(), Append(inner, outer), f, Left, root, nil);
        inner, f := Step(Left, inner, f.n, f.red, f.r), f.l;
        ZipFields(M(), Append(inner, outer), f, root, nil);
      }
      ZipFields(M(), Append(inner, outer), f, root, nil);
    }

    // The first half of rb_delete: `y`, with at most one child `x`, is cut out.
    method Unlink(y: Ptr, ghost p: Path, ghost f: Tree) returns (x: Ptr)
      requires Sentinels() && Zip(M(), p, f, root, nil)
      requires f.Bin? && f.n == y && (f.l.Leaf? || f.r.Leaf?)
      modifies `parent, `kid
      ensures At(x, p, if f.l.Bin? then f.l else f.r) && Has(M(), y)
    {
      hide Zip;
      ZipFields(M(), p, f, root, nil);
      x := if kid[Slot(y, Left)] != nil then kid[Slot(y, Left)] else kid[Slot(y, Right)];
      UnlinkDone(M(), x, p, f, root, nil);
      ZipFieldSides(M(), p, f, root, nil);
      parent := parent[x := parent[y]];
      if y == kid[Slot(parent[y], Left)] {
        kid := kid[Slot(parent[y], Left) := x];
      } else {
        kid := kid[Slot(parent[y], Right) := x];
      }
    }

    // The assignments of the second half of rb_delete, ending with the record copy.
    method CopyRecord(y: Ptr, z: Ptr)
      requires Has(M(), y) && Has(M(), z) && Has(M(), parent[z]) && y != z
      requires parent[z] != z && kid[Slot(z, Left)] != z && kid[Slot(z, Right)] != z
      modifies `red, `parent, `kid
      ensures M() == Copied(old(M()), y, z)
    {
      if z == kid[Slot(parent[z], Left)] {
        kid := kid[Slot(parent[z], Left) := y];
      } else {
        kid := kid[Slot(parent[z], Right) := y];
      }
      parent := parent[kid[Slot(z, Right)] := y];
      parent := parent[kid[Slot(z, Left)] := y];
      red := red[y := red[z]];
      parent := parent[y := parent[z]];
      kid := kid[Slot(y, Left) := kid[Slot(z, Left)]];
      kid := kid[Slot(y, Right) := kid[Slot(z, Right)]];
    }

    // The second half of rb_delete: `y` takes over the place and the record of `z`.
    method TakePlace(y: Ptr, z: Ptr, ghost p: Path, ghost f: Tree)
      requires Sentinels() && Zip(M(), p, f, root, nil) && f.Bin? && f.n == z && f.l.Bin?
      requires Has(M(), y) && y != nil && y != root && y !in Nodes(f) && y !in PathNodes(p)
      modifies `red, `parent, `kid
      ensures Sentinels() && Zip(M(), p, f.(n := y), root, nil)
      ensures parent[nil] == if f.r.Leaf? then y else old(parent[nil])
    {
      hide Zip; hide Nodes; hide PathNodes;
      CopySafe(M(), y, p, f, root, nil);
      CopiedTook(M(), y, z, Hole(p, root));
      TookZip(M(), Copied(M(), y, z), y, p, f, root, nil);
      CopiedSentinels(M(), y, p, f, root, nil);
      CopyRecord(y, z);
    }

    // `y`, already cut out from below `z`, takes over from `z`; the hole `x` fills moves along.
    method ReplaceAbove(x: Ptr, y: Ptr, z: Ptr, ghost inner: Path, ghost pz: Path, ghost zc: bool, ghost zl: Tree, ghost c: Tree)
      requires At(x, Append(inner, Step(Right, pz, z, zc, zl)), c) && zl.Bin?
      requires Has(M(), y) && y != nil && y != root
      requires y !in Nodes(c) && y !in PathNodes(Append(inner, Step(Right, pz, z, zc, zl)))
      modifies `red, `parent, `kid
      ensures At(x, Append(inner, Step(Right, pz, y, zc, zl)), c)
    {
      hide Zip; hide Nodes; hide PathNodes;
      ghost var f := Bin(zl, z, zc, Plug(inner, c));
      ZipAppend(M(), inner, Step(Right, pz, z, zc, zl), c, root, nil);
      ZipUp(M(), Step(Right, pz, z, zc, zl), Plug(inner, c), root, nil);
      NotAppended(y, inner, pz, z, zc, zl, c);
      TakePlace(y, z, pz, f);
      ZipUp(M(), Step(Right, pz, y, zc, zl), Plug(inner, c), root, nil);
      ZipAppend(M(), inner, Step(Right, pz, y, zc, zl), c, root, nil);
      ZipFields(M(), Append(inner, Step(Right, pz, y, zc, zl)), c, root, nil);
      if inner.Step? {
        PlugStepNotLeaf(inner, c);
      }
    }

    /**
     * rb_delete: exactly `z` leaves the tree, everything else keeps its order,
     * and the tree is red-black again.
     */
    method Delete(z: Ptr)
      requires Valid() && z in Elems()
      modifies `red, `parent, `kid, `shape
      ensures Valid()
      ensures Removed(old(Elems()), Elems(), z)
    {
      hide Zip; hide PathOk; hide BlackHeight; hide NoRedRed; hide InOrder; hide Sorted; hide Nodes; hide PathNodes;
      hide Removed;
      InOrderNodes(shape);
      ghost var h :| BlackHeight(shape, h);
      ghost var pz, fz := FindPath(shape, z);
      ZipPlug(M(), pz, fz, root, nil);
      ZipFields(M(), pz, fz, root, nil);
      ghost var p, f, inner, outer := pz, fz, Top, Step(Right, pz, z, fz.red, fz.l);
      var y := z;
      if !(kid[Slot(z, Left)] == nil || kid[Slot(z, Right)] == nil) {
        ZipDown(M(), pz, fz, Right, root, nil);
        y, inner, f := LeftmostBelow(z, outer, fz.r);
        p := Append(inner, outer);
        PlugAppend(inner, outer, f);
        ZipFields(M(), p, f, root, nil);
      }
      h := UnplugRedBlack(p, f, h);
      CutHeight(f, h);
      CutApart(M(), p, f, root, nil);
      ghost var c := if f.l.Bin? then f.l else f.r;
      if y == z {
        CutInOrder(pz, fz, key);
      } else {
        SuccessorInOrder(pz, fz, inner, f, key);
      }
      var x := Unlink(y, p, f);
      var needFixup := !red[y];
      if y != z {
        ReplaceAbove(x, y, z, inner, pz, fz.red, fz.l, c);
        PathOkRenamed(inner, Right, pz, z, y, fz.red, fz.l, h);
        p := Append(inner, Step(Right, pz, y, fz.red, fz.l));
      }
      if needFixup {
        DeleteFixup(x, p, c, h - 1);
      } else {
        WholeRedBlack(M(), p, c, h, root, nil);
        shape := Plug(p, c);
      }
    }

    // ----- Queries -----

    // rb_search: finds a node with key `k` exactly when there is one.
    method Search(k: int) returns (found: bool, x: Ptr)
      requires Valid()
      ensures found ==> x in Elems() && key[x] == k
      ensures !found ==> forall n <- Elems() :: key[n] != k
    {
      hide Zip; hide InOrder; hide Sorted; hide RedBlack;
      ghost var p, t := Top, shape;
      ZipFields(M(), p, t, root, nil);
      x := kid[Slot(root, Left)];
      SortedKeys(Elems(), key);
      TopInElems(p, t);
      while x != nil && key[x] != k
        invariant Zip(M(), p, t, root, nil) && Plug(p, t) == shape && x == TopNode(t, nil)
        invariant t.Bin? ==> x in Elems()
        invariant forall n <- Before(p) :: n in key && key[n] < k
        invariant forall n <- After(p) :: n in key && key[n] > k
        decreases t
      {
        ZipFields(M(), p, t, root, nil);
        SortedDownStrict(p, t, key, k);
        var d := if key[x] > k then Left else Right;
        ZipDown(M(), p, t, d, root, nil);
        p, t := Step(d, p, t.n, t.red, Sub(t, Opp(d))), Sub(t, d);
        x := kid[Slot(x, d)];
        TopInElems(p, t);
        ZipFields(M(), p, t, root, nil);
      }
      found := x != nil;
      if !found {
        ZipFields(M(), p, t, root, nil);
        HoleMisses(p, key, k);
      }
    }

    // The walk of CFS_pick_next: the leftmost node of a non-empty tree comes first in order.
    method Leftmost() returns (x: Ptr)
      requires Valid() && Elems() != []
      ensures x == Elems()[0]
    {
      hide Zip; hide RedBlack; hide Sorted;
      ghost var p, t := Top, shape;
      ZipFields(M(), p, t, root, nil);
      x := kid[Slot(root, Left)];
      var node := x;
      while node != nil
        invariant Zip(M(), p, t, root, nil) && Plug(p, t) == shape && AllLeft(p) && node == TopNode(t, nil)
        invariant t.Leaf? ==> p.Step? && x == p.n
        decreases t
      {
        x := node;
        ZipFields(M(), p, t, root, nil);
        ZipDown(M(), p, t, Left, root, nil);
        node := kid[Slot(node, Left)];
        p, t := Step(Left, p, t.n, t.red, t.r), t.l;
        ZipFields(M(), p, t, root, nil);
      }
      ZipFields(M(), p, t, root, nil);
      LeftmostFirst(p, t);
      PlugInOrder(p, t);
    }

    // rb_tree_successor: the next node in order, or the sentinel after the last one.
    method Successor(z: Ptr) returns (y: Ptr)
      requires Valid() && z in Elems()
      ensures Follows(Elems(), z, y, nil)
    {
      hide Zip; hide RedBlack; hide Sorted; hide InOrder; hide Nodes; hide Follows;
      InOrderNodes(shape);
      ghost var p, t := FindPath(shape, z);
      ZipPlug(M(), p, t, root, nil);
      ZipFields(M(), p, t, root, nil);
      if kid[Slot(z, Right)] != nil {
        ghost var inner, f;
        ZipDown(M(), p, t, Right, root, nil);
        y, inner, f := LeftmostBelow(z, Step(Right, p, z, t.red, t.l), t.r);
        FollowsBelow(p, t, inner, f, nil);
      } else {
        var x := z;
        y := parent[z];
        ghost var q, u := p, t;
        LastOfItself(t);
        ZipRightSide(M(), q, u, root, nil);
        while x == kid[Slot(y, Right)]
          invariant Zip(M(), q, u, root, nil) && Plug(q, u) == shape && u.Bin?
          invariant x == u.n && y == Holder(q, root) && Slot(y, Right) in kid && LastIs(u, z)
          invariant x == kid[Slot(y, Right)] <==> q.Step? && q.d.Right?
          decreases Depth(q)
        {
          ZipFields(M(), q, u, root, nil);
          ZipUp(M(), q, u, root, nil);
          LastOfParent(q, u, z);
          x := y;
          y := parent[y];
          u, q := Mk(q.d, u, q.n, q.red, q.sib), q.up;
          ZipRightSide(M(), q, u, root, nil);
        }
        ZipFields(M(), q, u, root, nil);
        FollowsAbove(q, u, z, nil);
        if y == root {
          y := nil;
        }
      }
    }

    // The descent of rb_tree_predecessor when there is a left subtree: its rightmost node.
    method RightmostBelow(z: Ptr, ghost outer: Path, ghost t: Tree) returns (y: Ptr, ghost inner: Path, ghost f: Tree)
      requires t.Bin? && Zip(M(), outer, t, root, nil) && Slot(z, Left) in kid && kid[Slot(z, Left)] == t.n
      ensures f.Bin? && f.n == y && f.r.Leaf? && AllRight(inner) && Plug(inner, f) == t
    {
      hide Zip;
      y := kid[Slot(z, Left)];
      inner, f := Top, t;
      ZipFields(M(), outer, f, root, nil);
      while kid[Slot(y, Right)] != nil
        invariant f.Bin? && f.n == y && AllRight(inner) && Plug(inner, f) == t
        invariant Zip(M(), Append(inner, outer), f, root, nil)
        invariant Slot(y, Right) in kid && kid[Slot(y, Right)] == TopNode(f.r, nil)
        decreases f
      {
        y := kid[Slot(y, Right)];
        ZipDown(M(), Append(inner, outer), f, Right, root, nil);
        inner, f := Step(Right, inner, f.n, f.red, f.l), f.r;
        ZipFields(M(), Append(inner, outer), f, root, nil);
      }
      ZipFields(M(), Append(inner, outer), f, root, nil);
    }

    // rb_tree_predecessor: the node before in order, or the sentinel before the first one.
    method Predecessor(z: Ptr) returns (y: Ptr)
      requires Valid() && z in Elems()
      ensures Precedes(Elems(), z, y, nil)
    {
      hide Zip; hide RedBlack; hide Sorted; hide InOrder; hide Nodes; hide Precedes;
      InOrderNodes(shape);
      ghost var p, t := FindPath(shape, z);
      ZipPlug(M(), p, t, root, nil);
      ZipFields(M(), p, t, root, nil);
      if kid[Slot(z, Left)] != nil {
        ghost var inner, f;
        ZipDown(M(), p, t, Left, root, nil);
        y, inner, f := RightmostBelow(z, Step(Left, p, z, t.red, t.r), t.l);
        PrecedesBelow(p, t, inner, f, nil);
      } else {
        var x := z;
        y := parent[z];
        ghost var q, u := p, t;
        FirstOfItself(t);
        ZipLeftSide(M(), q, u, root, nil);
        while x == kid[Slot(y, Left)]
          invariant Zip(M(), q, u, root, nil) && Plug(q, u) == shape && u.Bin?
          invariant x == u.n && y == Holder(q, root) && Slot(y, Left) in kid && FirstIs(u, z)
          invariant x == kid[Slot(y, Left)] <==> q.Top? || q.d.Left?
          decreases Depth(q)
        {
          ZipFields(M(), q, u, root, nil);
          if y == root {
            PrecedesAbove(q, u, z, nil);
            return nil;
          }
          ZipUp(M(), q, u, root, nil);
          FirstOfParent(q, u, z);
          x := y;
          y := parent[y];
          u, q := Mk(q.d, u, q.n, q.red, q.sib), q.up;
          ZipLeftSide(M(), q, u, root, nil);
        }
        PrecedesAbove(q, u, z, nil);
      }
    }

    // A record that is not in the tree gets its key.
    method NewRecord(z: Ptr, k: int)
      requires Valid() && z != nil && z != root && z !in Elems()
      modifies `red, `parent, `kid, `key
      ensures Valid() && Elems() == old(Elems()) && Has(M(), z) && key == old(key)[z := k]
    {
      hide RedBlack;
      InOrderNodes(shape);
      ghost var m := M();
      red, parent := red[z := false], parent[z := nil];
      kid := kid[Slot(z, Left) := nil][Slot(z, Right) := nil];
      key := key[z := k];
      RecordAdded(m, M(), z, shape, root, nil);
    }

    // The keys of nodes change, but not their order.
    method Rekey(z: Ptr, k: int)
      requires Valid() && Sorted(Elems(), key[z := k])
      modifies `key
      ensures Valid() && key == old(key)[z := k]
    {
      key := key[z := k];
    }
  }
}
