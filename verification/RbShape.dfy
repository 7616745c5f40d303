/**
 * Red-black trees as pure shapes.  A `Tree` records which node sits where and
 * which colour it carries; a `Path` is the context of a subtree, innermost
 * frame first, so that a position inside a tree is a pair (path, subtree).
 * The C macros in util/rbtree.c are instantiated twice with `left` and `right`
 * exchanged; here that exchange is the parameter `Dir`.
 */
module RbShape {

  // The address of a node.
  type Ptr = nat

  datatype Dir = Left | Right

  function Opp(d: Dir): Dir {
    if d.Left? then Right else Left
  }

  datatype Tree = Leaf | Bin(l: Tree, n: Ptr, red: bool, r: Tree)

  datatype Path = Top | Step(d: Dir, up: Path, n: Ptr, red: bool, sib: Tree)

  // The tree whose child on side `d` is `near` and whose other child is `far`.
  function Mk(d: Dir, near: Tree, n: Ptr, red: bool, far: Tree): Tree {
    if d.Left? then Bin(near, n, red, far) else Bin(far, n, red, near)
  }

  function Sub(t: Tree, d: Dir): Tree
    requires t.Bin?
  {
    if d.Left? then t.l else t.r
  }

  function Plug(p: Path, t: Tree): Tree {
    match p
    case Top => t
    case Step(d, up, n, red, sib) => Plug(up, Mk(d, t, n, red, sib))
  }

  function Depth(p: Path): nat {
    match p
    case Top => 0
    case Step(_, up, _, _, _) => 1 + Depth(up)
  }

  ghost function Nodes(t: Tree): set<Ptr> {
    match t
    case Leaf => {}
    case Bin(l, n, _, r) => {n} + Nodes(l) + Nodes(r)
  }

  ghost function PathNodes(p: Path): set<Ptr> {
    match p
    case Top => {}
    case Step(_, up, n, _, sib) => {n} + Nodes(sib) + PathNodes(up)
  }

  // No node occurs twice.
  ghost predicate Distinct(t: Tree) {
    match t
    case Leaf => true
    case Bin(l, n, _, r) =>
      && n !in Nodes(l) && n !in Nodes(r) && Nodes(l) !! Nodes(r)
      && Distinct(l) && Distinct(r)
  }

  ghost predicate DistinctPath(p: Path) {
    match p
    case Top => true
    case Step(_, up, n, _, sib) =>
      && n !in Nodes(sib) && n !in PathNodes(up) && Nodes(sib) !! PathNodes(up)
      && Distinct(sib) && DistinctPath(up)
  }

  function InOrder(t: Tree): seq<Ptr> {
    match t
    case Leaf => []
    case Bin(l, n, _, r) => InOrder(l) + [n] + InOrder(r)
  }

  // The nodes to the left of the hole of `p`, in order, and those to its right.
  function Before(p: Path): seq<Ptr> {
    match p
    case Top => []
    case Step(d, up, n, _, sib) =>
      if d.Left? then Before(up) else Before(up) + InOrder(sib) + [n]
  }

  function After(p: Path): seq<Ptr> {
    match p
    case Top => []
    case Step(d, up, n, _, sib) =>
      if d.Left? then [n] + InOrder(sib) + After(up) else After(up)
  }

  predicate IsRed(t: Tree) {
    t.Bin? && t.red
  }

  predicate PathRed(p: Path) {
    p.Step? && p.red
  }

  function Blacken(t: Tree): Tree {
    if t.Leaf? then t else t.(red := false)
  }

  // No red node has a red child.
  predicate NoRedRed(t: Tree) {
    match t
    case Leaf => true
    case Bin(l, _, red, r) =>
      && (red ==> !IsRed(l) && !IsRed(r))
      && NoRedRed(l) && NoRedRed(r)
  }

  // Every way down from the root of `t` meets exactly `h` black nodes.
  predicate BlackHeight(t: Tree, h: nat) {
    match t
    case Leaf => h == 0
    case Bin(l, _, red, r) =>
      if red then BlackHeight(l, h) && BlackHeight(r, h)
      else h > 0 && BlackHeight(l, h - 1) && BlackHeight(r, h - 1)
  }

  /**
   * `p` becomes a red-black tree once a subtree of black height `h` is plugged
   * in, up to a possible red-red edge at the hole itself.
   */
  predicate PathOk(p: Path, h: nat) {
    match p
    case Top => true
    case Step(_, up, _, red, sib) =>
      && BlackHeight(sib, h) && NoRedRed(sib)
      && (red ==> !IsRed(sib) && !PathRed(up) && up.Step?)
      && PathOk(up, if red then h else h + 1)
  }

  ghost predicate RedBlack(t: Tree) {
    !IsRed(t) && NoRedRed(t) && exists h: nat :: BlackHeight(t, h)
  }

  // ----- Facts about shapes -----

  lemma Regroup(a: seq<Ptr>, b: seq<Ptr>, c: seq<Ptr>, d: seq<Ptr>, e: seq<Ptr>)
    ensures a + (b + c + d) + e == a + b + (c + d + e)
    ensures a + (b + c + d) + e == (a + b + c) + d + e
  {
  }

  lemma {:induction false} PlugInOrder(p: Path, t: Tree)
    ensures InOrder(Plug(p, t)) == Before(p) + InOrder(t) + After(p)
  {
    match p {
      case Top =>
      case Step(d, up, n, red, sib) =>
        PlugInOrder(up, Mk(d, t, n, red, sib));
        if d.Left? {
          Regroup(Before(up), InOrder(t), [n], InOrder(sib), After(up));
        } else {
          Regroup(Before(up), InOrder(sib), [n], InOrder(t), After(up));
        }
    }
  }

  lemma {:induction false} PlugNodes(p: Path, t: Tree)
    ensures Nodes(Plug(p, t)) == PathNodes(p) + Nodes(t)
  {
    match p {
      case Top =>
      case Step(d, up, n, red, sib) => PlugNodes(up, Mk(d, t, n, red, sib));
    }
  }

  lemma {:induction false} PlugRedBlack(p: Path, t: Tree, h: nat)
    requires PathOk(p, h) && BlackHeight(t, h) && NoRedRed(t)
    requires IsRed(t) ==> !PathRed(p)
    ensures NoRedRed(Plug(p, t))
    ensures exists h': nat :: BlackHeight(Plug(p, t), h')
    ensures p.Step? ==> !IsRed(Plug(p, t))
  {
    match p {
      case Top =>
      case Step(d, up, n, red, sib) =>
        PlugRedBlack(up, Mk(d, t, n, red, sib), if red then h else h + 1);
    }
  }

  lemma {:induction false} UnplugRedBlack(p: Path, t: Tree, h: nat) returns (k: nat)
    requires NoRedRed(Plug(p, t)) && BlackHeight(Plug(p, t), h) && !IsRed(Plug(p, t))
    ensures PathOk(p, k) && BlackHeight(t, k) && NoRedRed(t)
    ensures IsRed(t) ==> !PathRed(p) && p.Step?
  {
    match p {
      case Top => k := h;
      case Step(d, up, n, red, sib) =>
        k := UnplugRedBlack(up, Mk(d, t, n, red, sib), h);
        k := if red then k else k - 1;
    }
  }

  lemma {:induction false} PlugStepNotLeaf(p: Path, t: Tree)
    requires p.Step? || t.Bin?
    ensures Plug(p, t).Bin?
    ensures p.Step? ==> Plug(p, t).n in PathNodes(p)
  {
    match p {
      case Top =>
      case Step(d, up, n, red, sib) => PlugStepNotLeaf(up, Mk(d, t, n, red, sib));
    }
  }

  lemma {:induction false} InOrderNodes(t: Tree)
    ensures forall n :: n in InOrder(t) <==> n in Nodes(t)
  {
    match t {
      case Leaf =>
      case Bin(l, n, _, r) =>
        InOrderNodes(l);
        InOrderNodes(r);
    }
  }

  lemma MkNodes(d: Dir, near: Tree, n: Ptr, red: bool, far: Tree)
    ensures Nodes(Mk(d, near, n, red, far)) == {n} + Nodes(near) + Nodes(far)
    ensures Distinct(Mk(d, near, n, red, far)) <==>
            && n !in Nodes(near) && n !in Nodes(far) && Nodes(near) !! Nodes(far)
            && Distinct(near) && Distinct(far)
  {
  }

  lemma MkTwoDistinct(d: Dir, a: Tree, x: Ptr, xr: bool, b: Tree, y: Ptr, yr: bool, c: Tree)
    requires Distinct(Mk(d, a, x, xr, Mk(d, b, y, yr, c)))
    ensures x != y && x !in Nodes(a) && x !in Nodes(b) && x !in Nodes(c)
    ensures y !in Nodes(a) && y !in Nodes(b) && y !in Nodes(c)
    ensures Nodes(a) !! Nodes(b) && Nodes(b) !! Nodes(c) && Nodes(a) !! Nodes(c)
    ensures Distinct(a) && Distinct(b) && Distinct(c)
  {
    MkNodes(d, b, y, yr, c);
    MkNodes(d, a, x, xr, Mk(d, b, y, yr, c));
  }

  lemma RotatedNodes(d: Dir, a: Tree, x: Ptr, xr: bool, b: Tree, y: Ptr, yr: bool, c: Tree)
    requires Distinct(Mk(d, a, x, xr, Mk(d, b, y, yr, c)))
    ensures Distinct(Mk(d, Mk(d, a, x, xr, b), y, yr, c))
    ensures Nodes(Mk(d, Mk(d, a, x, xr, b), y, yr, c)) == Nodes(Mk(d, a, x, xr, Mk(d, b, y, yr, c)))
  {
    MkTwoDistinct(d, a, x, xr, b, y, yr, c);
    MkNodes(d, a, x, xr, b);
    MkNodes(d, Mk(d, a, x, xr, b), y, yr, c);
    MkNodes(d, b, y, yr, c);
    MkNodes(d, a, x, xr, Mk(d, b, y, yr, c));
  }

  lemma ThreeParts(a: seq<Ptr>, x: Ptr, b: seq<Ptr>, y: Ptr, c: seq<Ptr>)
    ensures a + [x] + (b + [y] + c) == a + [x] + b + [y] + c
  {
  }

  // Rotation keeps the in-order sequence.
  lemma RotatedInOrder(d: Dir, a: Tree, x: Ptr, xr: bool, b: Tree, y: Ptr, yr: bool, c: Tree)
    ensures InOrder(Mk(d, Mk(d, a, x, xr, b), y, yr, c)) == InOrder(Mk(d, a, x, xr, Mk(d, b, y, yr, c)))
  {
    if d.Left? {
      ThreeParts(InOrder(a), x, InOrder(b), y, InOrder(c));
    } else {
      ThreeParts(InOrder(c), y, InOrder(b), x, InOrder(a));
    }
  }

  lemma MkSub(d: Dir, t: Tree)
    requires t.Bin?
    ensures t == Mk(d, Sub(t, d), t.n, t.red, Sub(t, Opp(d)))
  {
  }

  /**
   * The subtree that RB_INSERT_SUB leaves when the uncle is black.  Before, `t`
   * hung on side `e` of `pn`, and `pn` on side `d` of `g`.
   */
  function InsertRotated(d: Dir, e: Dir, g: Ptr, uncle: Tree, pn: Ptr, sib: Tree, t: Tree): Tree
    requires t.Bin?
  {
    if e == d then
      Mk(Opp(d), Mk(Opp(d), uncle, g, true, sib), pn, false, t)
    else
      Mk(Opp(d), Mk(Opp(d), uncle, g, true, Sub(t, Opp(d))), t.n, false, Mk(d, sib, pn, true, Sub(t, d)))
  }

  // ----- Insertion on shapes -----

  lemma RecolourKeeps(up: Path, d: Dir, e: Dir, g: Ptr, uncle: Tree, pn: Ptr, sib: Tree, t: Tree, h: nat)
    requires PathOk(Step(e, Step(d, up, g, false, uncle), pn, true, sib), h)
    requires BlackHeight(t, h) && NoRedRed(t) && IsRed(uncle)
    ensures var t' := Mk(d, Mk(e, t, pn, false, sib), g, true, uncle.(red := false));
            && PathOk(up, h + 1) && BlackHeight(t', h + 1) && NoRedRed(t')
            && InOrder(t') == InOrder(Mk(d, Mk(e, t, pn, true, sib), g, false, uncle))
  {
  }

  lemma InsertRotateKeeps(up: Path, d: Dir, e: Dir, g: Ptr, uncle: Tree, pn: Ptr, sib: Tree, t: Tree, h: nat)
    requires PathOk(Step(e, Step(d, up, g, false, uncle), pn, true, sib), h)
    requires BlackHeight(t, h) && NoRedRed(t) && IsRed(t) && !IsRed(uncle)
    ensures var t' := InsertRotated(d, e, g, uncle, pn, sib, t);
            && PathOk(up, h + 1) && BlackHeight(t', h + 1) && NoRedRed(t') && !IsRed(t')
            && InOrder(t') == InOrder(Mk(d, Mk(e, t, pn, true, sib), g, false, uncle))
  {
    if e == d {
      RotatedInOrder(Opp(d), uncle, g, true, sib, pn, false, t);
    } else {
      MkSub(d, t);
      RotatedInOrder(d, sib, pn, true, Sub(t, d), t.n, true, Sub(t, Opp(d)));
      RotatedInOrder(Opp(d), uncle, g, true, Sub(t, Opp(d)), t.n, false, Mk(d, sib, pn, true, Sub(t, d)));
    }
  }

  lemma PlugSameInOrder(p: Path, t: Tree, t': Tree)
    requires InOrder(t) == InOrder(t')
    ensures InOrder(Plug(p, t)) == InOrder(Plug(p, t'))
  {
    PlugInOrder(p, t);
    PlugInOrder(p, t');
  }

  lemma BlackenRedBlack(t: Tree)
    requires NoRedRed(t) && exists h: nat :: BlackHeight(t, h)
    ensures RedBlack(Blacken(t)) && InOrder(Blacken(t)) == InOrder(t)
  {
    var h: nat :| BlackHeight(t, h);
    assert BlackHeight(Blacken(t), if IsRed(t) then h + 1 else h);
  }

  lemma MkColours(d: Dir, near: Tree, n: Ptr, red: bool, far: Tree, h: nat)
    ensures BlackHeight(Mk(d, near, n, red, far), h) <==>
            if red then BlackHeight(near, h) && BlackHeight(far, h)
            else h > 0 && BlackHeight(near, h - 1) && BlackHeight(far, h - 1)
    ensures NoRedRed(Mk(d, near, n, red, far)) <==>
            (red ==> !IsRed(near) && !IsRed(far)) && NoRedRed(near) && NoRedRed(far)
  {
  }

  // ----- Deletion on shapes -----

  /**
   * In each of the next four lemmas the hole of `Step(d, up, pn, pc, sib)` holds
   * a subtree `t` that is one black node short of what the path expects.
   */
  lemma RedSiblingKeeps(up: Path, d: Dir, pn: Ptr, pc: bool, wn: Tree, w: Ptr, wf: Tree, t: Tree, h: nat)
    requires PathOk(Step(d, up, pn, pc, Mk(d, wn, w, true, wf)), h + 1)
    ensures !pc && wn.Bin? && !wn.red
    ensures PathOk(Step(d, Step(d, up, w, false, wf), pn, true, wn), h + 1)
    ensures InOrder(Mk(d, Mk(d, t, pn, true, wn), w, false, wf)) ==
            InOrder(Mk(d, t, pn, pc, Mk(d, wn, w, true, wf)))
  {
    RotatedInOrder(d, t, pn, true, wn, w, false, wf);
    MkColours(d, wn, w, true, wf, h + 1);
    assert wn.Bin?;
    assert InOrder(Mk(d, wn, w, true, wf)) == InOrder(Mk(d, wn, w, false, wf));
  }

  lemma BlackNephewsKeep(up: Path, d: Dir, pn: Ptr, pc: bool, sib: Tree, t: Tree, h: nat)
    requires PathOk(Step(d, up, pn, pc, sib), h + 1)
    requires BlackHeight(t, h) && NoRedRed(t) && !IsRed(t)
    requires sib.Bin? && !sib.red && !IsRed(sib.l) && !IsRed(sib.r)
    ensures var t' := Mk(d, t, pn, pc, sib.(red := true));
            var h' := if pc then h else h + 1;
            && PathOk(up, h' + 1) && BlackHeight(t', h') && NoRedRed(Blacken(t'))
            && InOrder(t') == InOrder(Mk(d, t, pn, pc, sib))
  {
  }

  lemma NearNephewKeeps(up: Path, d: Dir, pn: Ptr, pc: bool, wn: Tree, w: Ptr, wf: Tree, t: Tree, h: nat)
    requires PathOk(Step(d, up, pn, pc, Mk(d, wn, w, false, wf)), h + 1)
    requires IsRed(wn) && !IsRed(wf)
    ensures var sib := Mk(d, wn, w, false, wf);
            var sib' := Mk(d, Sub(wn, d), wn.n, false, Mk(d, Sub(wn, Opp(d)), w, true, wf));
            && PathOk(Step(d, up, pn, pc, sib'), h + 1)
            && InOrder(Mk(d, t, pn, pc, sib')) == InOrder(Mk(d, t, pn, pc, sib))
  {
    MkSub(d, wn);
    var a, b := Sub(wn, d), Sub(wn, Opp(d));
    MkColours(d, wn, w, false, wf, h + 1);
    MkColours(d, a, wn.n, true, b, h);
    MkColours(d, b, w, true, wf, h);
    MkColours(d, a, wn.n, false, Mk(d, b, w, true, wf), h + 1);
    RotatedInOrder(Opp(d), wf, w, true, b, wn.n, false, a);
    assert InOrder(Mk(d, a, wn.n, false, b)) == InOrder(wn);
    assert InOrder(Mk(d, Mk(d, a, wn.n, false, b), w, true, wf)) == InOrder(Mk(d, wn, w, false, wf));
  }

  lemma FarNephewKeeps(up: Path, d: Dir, pn: Ptr, pc: bool, wn: Tree, w: Ptr, wf: Tree, t: Tree, h: nat)
    requires PathOk(Step(d, up, pn, pc, Mk(d, wn, w, false, wf)), h + 1)
    requires BlackHeight(t, h) && NoRedRed(t) && !IsRed(t) && IsRed(wf)
    ensures var t' := Mk(d, Mk(d, t, pn, false, wn), w, pc, wf.(red := false));
            var h' := if pc then h + 1 else h + 2;
            && PathOk(up, h') && BlackHeight(t', h') && NoRedRed(t')
            && (IsRed(t') ==> !PathRed(up) && up.Step?)
            && InOrder(t') == InOrder(Mk(d, t, pn, pc, Mk(d, wn, w, false, wf)))
  {
    MkColours(d, wn, w, false, wf, h + 1);
    MkColours(d, t, pn, false, wn, h + 1);
    MkColours(d, Mk(d, t, pn, false, wn), w, pc, wf.(red := false), if pc then h + 1 else h + 2);
    assert BlackHeight(wf.(red := false), h + 1);
    RotatedInOrder(d, t, pn, false, wn, w, pc, wf);
    assert InOrder(wf.(red := false)) == InOrder(wf);
  }

  // The sibling of a subtree that is one black node short is a real node.
  lemma SiblingIsNode(p: Path, h: nat)
    requires p.Step? && PathOk(p, h + 1)
    ensures p.sib.Bin?
  {
  }

  lemma {:induction false} PlugTop(p: Path, t: Tree, t': Tree)
    requires p.Step?
    ensures Plug(p, t).Bin? && Plug(p, t').Bin? && Plug(p, t).n == Plug(p, t').n
  {
    if p.up.Step? {
      PlugTop(p.up, Mk(p.d, t, p.n, p.red, p.sib), Mk(p.d, t', p.n, p.red, p.sib));
    }
  }

  lemma {:induction false} PlugTopBlack(p: Path, t: Tree, h: nat)
    requires p.Step? && PathOk(p, h)
    ensures Plug(p, t).Bin? && !Plug(p, t).red
  {
    if p.up.Step? {
      PlugTopBlack(p.up, Mk(p.d, t, p.n, p.red, p.sib), if p.red then h else h + 1);
    }
  }

  // ----- Paths within paths -----

  function Append(inner: Path, outer: Path): Path {
    match inner
    case Top => outer
    case Step(d, up, n, red, sib) => Step(d, Append(up, outer), n, red, sib)
  }

  lemma {:induction false} PlugAppend(inner: Path, outer: Path, t: Tree)
    ensures Plug(Append(inner, outer), t) == Plug(outer, Plug(inner, t))
  {
    match inner {
      case Top =>
      case Step(d, up, n, red, sib) => PlugAppend(up, outer, Mk(d, t, n, red, sib));
    }
  }

  // Balance does not depend on which node carries the colours of one frame.
  lemma {:induction false} PathOkRenamed(inner: Path, d: Dir, up: Path, n: Ptr, n': Ptr, red: bool, sib: Tree, h: nat)
    requires PathOk(Append(inner, Step(d, up, n, red, sib)), h)
    ensures PathOk(Append(inner, Step(d, up, n', red, sib)), h)
  {
    match inner {
      case Top =>
      case Step(e, up', m, c, s) => PathOkRenamed(up', d, up, n, n', red, sib, if c then h else h + 1);
    }
  }

  // A path that goes left at every step, so that its hole is the leftmost place.
  predicate AllLeft(p: Path) {
    match p
    case Top => true
    case Step(d, up, _, _, _) => d.Left? && AllLeft(up)
  }

  lemma {:induction false} LeftmostFirst(inner: Path, t: Tree)
    requires AllLeft(inner)
    ensures Before(inner) == []
  {
    match inner {
      case Top =>
      case Step(_, up, n, red, sib) => LeftmostFirst(up, t);
    }
  }

  predicate AllRight(p: Path) {
    match p
    case Top => true
    case Step(d, up, _, _, _) => d.Right? && AllRight(up)
  }

  lemma {:induction false} RightmostLast(inner: Path, t: Tree)
    requires AllRight(inner)
    ensures After(inner) == []
  {
    match inner {
      case Top =>
      case Step(_, up, n, red, sib) => RightmostLast(up, t);
    }
  }

  // Every node of a tree has a position in it.
  lemma {:induction false} FindPath(t: Tree, z: Ptr) returns (p: Path, f: Tree)
    requires z in Nodes(t)
    ensures Plug(p, f) == t && f.Bin? && f.n == z
  {
    if t.n == z {
      p, f := Top, t;
    } else {
      var d := if z in Nodes(t.l) then Left else Right;
      var q;
      q, f := FindPath(Sub(t, d), z);
      p := Append(q, Step(d, Top, t.n, t.red, Sub(t, Opp(d))));
      PlugAppend(q, Step(d, Top, t.n, t.red, Sub(t, Opp(d))), f);
    }
  }

  function Height(t: Tree): nat {
    match t
    case Leaf => 0
    case Bin(l, _, _, r) => 1 + if Height(l) > Height(r) then Height(l) else Height(r)
  }

  function Pow2(h: nat): nat {
    if h == 0 then 1 else 2 * Pow2(h - 1)
  }

  // A tree of black height `h` has at least 2^h - 1 nodes, and a path of it at most 2 h + 1.
  lemma {:induction false} Bushy(t: Tree, h: nat)
    requires BlackHeight(t, h) && NoRedRed(t)
    ensures Pow2(h) <= |InOrder(t)| + 1
    ensures Height(t) <= 2 * h + if IsRed(t) then 1 else 0
  {
    match t {
      case Leaf =>
      case Bin(l, n, red, r) =>
        var k := if red then h else h - 1;
        Bushy(l, k);
        Bushy(r, k);
    }
  }

  // No path of a red-black tree is longer than twice the logarithm of the number of nodes.
  lemma Balanced(t: Tree) returns (h: nat)
    requires RedBlack(t)
    ensures Pow2(h) <= |InOrder(t)| + 1 && forall p, f :: Plug(p, f) == t ==> Depth(p) <= 2 * h
  {
    h :| BlackHeight(t, h);
    Bushy(t, h);
    forall p, f | Plug(p, f) == t
      ensures Depth(p) <= 2 * h
    {
      NotDeeper(p, f);
    }
  }

  lemma {:induction false} NotDeeper(p: Path, f: Tree)
    ensures Depth(p) + Height(f) <= Height(Plug(p, f))
  {
    if p.Step? {
      NotDeeper(p.up, Mk(p.d, f, p.n, p.red, p.sib));
    }
  }

  // Neither number can be improved: for every height there is a tree with as few nodes, ...
  lemma {:induction false} Sparsest(h: nat) returns (t: Tree)
    ensures RedBlack(t) && BlackHeight(t, h) && |InOrder(t)| + 1 == Pow2(h)
  {
    if h == 0 {
      t := Leaf;
      assert BlackHeight(t, 0);
    } else {
      var u := Sparsest(h - 1);
      t := Bin(u, 0, false, u);
      assert BlackHeight(t, h);
    }
  }

  // ... and one with as long a path.
  lemma {:induction false} Deepest(h: nat) returns (t: Tree, p: Path)
    ensures RedBlack(t) && BlackHeight(t, h) && Plug(p, Leaf) == t && Depth(p) == 2 * h
  {
    if h == 0 {
      t, p := Leaf, Top;
      assert BlackHeight(t, 0);
    } else {
      var u, q := Deepest(h - 1);
      var s := Sparsest(h - 1);
      var red, top := Bin(u, 0, true, s), Step(Left, Top, 0, false, s);
      var outer := Step(Left, top, 0, true, s);
      t, p := Bin(red, 0, false, s), Append(q, outer);
      PlugAppend(q, outer, Leaf);
      DepthAppend(q, outer);
      assert Plug(outer, u) == Plug(top, red) == t && Depth(outer) == 1 + Depth(top) == 2;
      assert BlackHeight(red, h - 1) && BlackHeight(t, h);
    }
  }

  lemma {:induction false} DepthAppend(inner: Path, outer: Path)
    ensures Depth(Append(inner, outer)) == Depth(inner) + Depth(outer)
  {
    if inner.Step? {
      DepthAppend(inner.up, outer);
    }
  }
}
