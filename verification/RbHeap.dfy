/**
 * The link between the pointer structure in memory and the shapes of
 * `RbShape`, with what rotations, recolouring and relinking do to it.
 * Memory holds one table per record field; the two child fields share a table
 * that is indexed by node and side, as the C macros are.
 */
module RbHeap {
  import opened RbShape

  datatype Slot = Slot(n: Ptr, d: Dir)

  datatype Mem = Mem(red: map<Ptr, bool>, parent: map<Ptr, Ptr>, kid: map<Slot, Ptr>)

  // There is a record at address `n`.
  ghost predicate Has(m: Mem, n: Ptr) {
    n in m.red && n in m.parent && forall d :: Slot(n, d) in m.kid
  }

  function TopNode(t: Tree, nil: Ptr): Ptr {
    if t.Leaf? then nil else t.n
  }

  function Holder(p: Path, root: Ptr): Ptr {
    if p.Top? then root else p.n
  }

  // The child field of the holder that the hole of `p` is.
  function Hole(p: Path, root: Ptr): Slot {
    if p.Top? then Slot(root, Left) else Slot(p.n, p.d)
  }

  // The memory below `t` looks exactly like `t`, and its top node hangs under `q`.
  ghost predicate Rep(m: Mem, t: Tree, q: Ptr, nil: Ptr) {
    match t
    case Leaf => true
    case Bin(l, n, red, r) =>
      && Has(m, n) && m.parent[n] == q && m.red[n] == red
      && m.kid[Slot(n, Left)] == TopNode(l, nil) && m.kid[Slot(n, Right)] == TopNode(r, nil)
      && Rep(m, l, n, nil) && Rep(m, r, n, nil)
  }

  // The memory around the hole of `p` looks exactly like `p`, with `c` in the hole.
  ghost predicate RepPath(m: Mem, p: Path, c: Ptr, root: Ptr, nil: Ptr) {
    match p
    case Top => Has(m, root) && m.kid[Slot(root, Left)] == c && m.kid[Slot(root, Right)] == nil
    case Step(d, up, n, red, sib) =>
      && Has(m, n) && m.kid[Slot(n, d)] == c && m.kid[Slot(n, Opp(d))] == TopNode(sib, nil)
      && m.red[n] == red && m.parent[n] == Holder(up, root)
      && Rep(m, sib, n, nil) && RepPath(m, up, n, root, nil)
  }

  // No node occurs twice, and the two sentinels are not tree nodes.
  ghost predicate Apart(p: Path, t: Tree, root: Ptr, nil: Ptr) {
    && Distinct(t) && DistinctPath(p) && Nodes(t) !! PathNodes(p)
    && root != nil
    && root !in Nodes(t) && nil !in Nodes(t)
    && root !in PathNodes(p) && nil !in PathNodes(p)
  }

  ghost predicate Zip(m: Mem, p: Path, t: Tree, root: Ptr, nil: Ptr) {
    && Apart(p, t, root, nil)
    && RepPath(m, p, TopNode(t, nil), root, nil)
    && Rep(m, t, Holder(p, root), nil)
  }

  lemma ZipUp(m: Mem, p: Path, t: Tree, root: Ptr, nil: Ptr)
    requires p.Step?
    ensures Zip(m, p, t, root, nil) <==>
            Zip(m, p.up, Mk(p.d, t, p.n, p.red, p.sib), root, nil)
  {
    MkNodes(p.d, t, p.n, p.red, p.sib);
  }

  // A position in the tree and the whole tree say the same about memory.
  lemma {:induction false} ZipPlug(m: Mem, p: Path, t: Tree, root: Ptr, nil: Ptr)
    ensures Zip(m, p, t, root, nil) <==> Zip(m, Top, Plug(p, t), root, nil)
  {
    match p {
      case Top =>
      case Step(d, up, n, red, sib) =>
        ZipPlug(m, up, Mk(d, t, n, red, sib), root, nil);
        ZipUp(m, p, t, root, nil);
    }
  }

  lemma RepMk(m: Mem, d: Dir, near: Tree, n: Ptr, red: bool, far: Tree, q: Ptr, nil: Ptr)
    ensures Rep(m, Mk(d, near, n, red, far), q, nil) <==>
            && Has(m, n) && m.parent[n] == q && m.red[n] == red
            && m.kid[Slot(n, d)] == TopNode(near, nil) && m.kid[Slot(n, Opp(d))] == TopNode(far, nil)
            && Rep(m, near, n, nil) && Rep(m, far, n, nil)
  {
  }

  // ----- What a memory change leaves alone -----

  // The record at `n` is still there, with the same fields.
  ghost predicate Same(m: Mem, m': Mem, n: Ptr) {
    Has(m, n) ==>
      && Has(m', n)
      && m'.red[n] == m.red[n] && m'.parent[n] == m.parent[n]
      && forall d :: m'.kid[Slot(n, d)] == m.kid[Slot(n, d)]
  }

  lemma {:induction false} RepSame(m: Mem, m': Mem, t: Tree, q: Ptr, nil: Ptr)
    requires Rep(m, t, q, nil) && forall n <- Nodes(t) :: Same(m, m', n)
    ensures Rep(m', t, q, nil)
  {
    match t {
      case Leaf =>
      case Bin(l, n, red, r) =>
        RepSame(m, m', l, n, nil);
        RepSame(m, m', r, n, nil);
        assert Same(m, m', n);
    }
  }

  lemma {:induction false} PathSame(m: Mem, m': Mem, p: Path, c: Ptr, root: Ptr, nil: Ptr)
    requires RepPath(m, p, c, root, nil)
    requires Same(m, m', root) && forall n <- PathNodes(p) :: Same(m, m', n)
    ensures RepPath(m', p, c, root, nil)
  {
    match p {
      case Top =>
      case Step(d, up, n, red, sib) =>
        RepSame(m, m', sib, n, nil);
        PathSame(m, m', up, n, root, nil);
        assert Same(m, m', n);
    }
  }

  // The top node gets a new parent and a new colour, nothing else changes.
  lemma RepMoved(m: Mem, m': Mem, t: Tree, q: Ptr, q': Ptr, red': bool, nil: Ptr)
    requires t.Bin? && Distinct(t) && Rep(m, t, q, nil)
    requires Has(m', t.n) && m'.parent[t.n] == q' && m'.red[t.n] == red'
    requires forall d :: m'.kid[Slot(t.n, d)] == m.kid[Slot(t.n, d)]
    requires forall n <- Nodes(t) :: n != t.n ==> Same(m, m', n)
    ensures Rep(m', t.(red := red'), q', nil)
  {
    RepSame(m, m', t.l, t.n, nil);
    RepSame(m, m', t.r, t.n, nil);
  }

  // Only the child field at the hole changes.
  lemma PathRefilled(m: Mem, m': Mem, p: Path, c: Ptr, c': Ptr, root: Ptr, nil: Ptr)
    requires DistinctPath(p) && root !in PathNodes(p) && RepPath(m, p, c, root, nil)
    requires var h := Holder(p, root);
             && Has(m', h) && m'.red[h] == m.red[h] && m'.parent[h] == m.parent[h]
             && m'.kid[Hole(p, root)] == c'
             && m'.kid[Slot(h, Opp(Hole(p, root).d))] == m.kid[Slot(h, Opp(Hole(p, root).d))]
    requires p.Step? ==> Same(m, m', root)
    requires forall n <- PathNodes(p) :: n != Holder(p, root) ==> Same(m, m', n)
    ensures RepPath(m', p, c', root, nil)
  {
    if p.Step? {
      RepSame(m, m', p.sib, p.n, nil);
      PathSame(m, m', p.up, p.n, root, nil);
    }
  }

  // A node hangs on the side of its parent that the path says, and only there.
  lemma HoleSide(m: Mem, p: Path, d: Dir, x: Ptr, root: Ptr, nil: Ptr)
    requires RepPath(m, p, x, root, nil) && x != nil && x !in PathNodes(p)
    ensures x == m.kid[Slot(Holder(p, root), d)] <==> Slot(Holder(p, root), d) == Hole(p, root)
  {
  }
}
