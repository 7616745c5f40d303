/**
 * Whole runs of the paging code: whatever the interleaving of loads, stores,
 * forks, unmappings and swapping, every load returns what a machine would with a
 * memory of its own for each address space.
 */
module PagingRuns {
  import opened PageState
  import opened PageSteps
  import opened PageFork
  import opened Paging

  // `vw`: the page lies in a writable mapping.
  datatype Op =
    | LoadOp(k: Key, vw: bool)
    | StoreOp(k: Key, c: Content)
    | ForkOp(parent: int, child: int, vas: seq<int>)
    | UnmapOp(mm: int, vas: seq<int>)
    | StackOp(k: Key)
    | SwapOutOp(mm: int, vas: seq<int>, require: nat)
    | RefillOp
    | LaunderOp

  // What an operation returns.  Failed: there was no memory, or the child is not new.  Stopped: an assertion stopped the kernel.
  datatype Out = Got(c: Content) | Done | Failed | Stopped

  // One private memory per address space.
  type Memory = Key -> Content

  // What `op` does, and may return, on private memories.
  ghost predicate Step(m: Memory, op: Op, out: Out, m': Memory) {
    match op
    case LoadOp(k, _) => Same(m, m') && (out.Got? ==> out.c == m(k))
    case StoreOp(k, c) => forall k' :: m'(k') == if k' == k && out.Done? then c else m(k')
    case ForkOp(parent, child, vas) =>
      forall k' :: m'(k') == if k'.mm == child && k'.va in vas && out.Done? then m(Key(parent, k'.va)) else m(k')
    case UnmapOp(mm, vas) => forall k' :: m'(k') == if k'.mm == mm && k'.va in vas then Zero() else m(k')
    case _ => Same(m, m')
  }

  ghost predicate Same(m: Memory, m': Memory) {
    forall k :: m'(k) == m(k)
  }

  // The outputs are those of a run on private memories from `m` to `m'`.
  ghost predicate Steps(m: Memory, ops: seq<Op>, outs: seq<Out>, m': Memory)
    requires |ops| == |outs|
  {
    if ops == [] then Same(m, m')
    else exists m1 :: Step(m, ops[0], outs[0], m1) && Steps(m1, ops[1..], outs[1..], m')
  }

  ghost function MemoryOf(s: St): Memory {
    k => Mem(s, k)
  }

  // The access needs no fault, or a fault that finds the memory it needs and is not lost.
  ghost predicate CanAccess(s: St, k: Key, write: bool, vw: bool) {
    Accessible(s, k, write) || !(NoMemory(s, k, vw) || LostFault(s, k, write))
  }

  // An access to a page, with at most one page fault.
  method Access(p: Paging, k: Key, write: bool, vw: bool) returns (ok: bool)
    requires p.Idle() && (write ==> vw)
    modifies p`s, p`held, p`own
    ensures p.Idle() && Alike(old(p.s), p.s) && (ok <==> Accessible(p.s, k, write))
    ensures ok <==> CanAccess(old(p.s), k, write, vw)
  {
    hide Inv; hide View; hide Area; hide Shared; hide Zero;
    if !(k in p.s.pt && p.s.pt[k].to.InMem? && (write ==> p.s.pt[k].w)) {
      var ret := p.Fault(k, write, vw);
    }
    ok := k in p.s.pt && p.s.pt[k].to.InMem? && (write ==> p.s.pt[k].w);
  }

  method Perform(p: Paging, op: Op) returns (out: Out)
    requires p.Idle()
    modifies p
    ensures p.Idle() && (out.Stopped? || Step(MemoryOf(old(p.s)), op, out, MemoryOf(p.s)))
    ensures out.Stopped? ==> (op.ForkOp? && !ForkRoom(old(p.s), op.parent, op.vas)) || op.SwapOutOp?
    ensures out.Stopped? ==> Exhausted(p.s)
    ensures op.LoadOp? ==> (out.Got? <==> CanAccess(old(p.s), op.k, false, op.vw))
    ensures op.StoreOp? ==> (out.Done? <==> CanAccess(old(p.s), op.k, true, true))
    ensures op.ForkOp? ==> (out.Failed? <==> op.parent == op.child || exists k :: k in old(p.s).pt && k.mm == op.child)
    ensures op.ForkOp? && !out.Failed? ==> (out.Done? <==> ForkRoom(old(p.s), op.parent, op.vas))
    ensures op.StackOp? ==> (out.Done? <==> op.k !in old(p.s).pt && old(p.s).free != {})
    ensures op.LoadOp? || op.StoreOp? || op.StackOp? ==> !out.Stopped? && (out.Done? ==> !op.LoadOp?) && (out.Got? ==> op.LoadOp?)
    ensures op.UnmapOp? || op.RefillOp? || op.LaunderOp? ==> out.Done?
    ensures op.SwapOutOp? ==> out.Done? || out.Stopped?
    ensures op.RefillOp? ==> p.s.active == Sift(old(p.s).active, old(p.s).ref, true)
    ensures op.LaunderOp? ==> p.s.inactive == []
    ensures op.UnmapOp? ==> forall k :: k in p.s.pt <==> k in old(p.s).pt && !(k.mm == op.mm && k.va in op.vas)
    ensures op.LoadOp? && |old(p.s).free| >= 2 ==> out.Got?
    ensures op.StoreOp? && |old(p.s).free| >= 2 ==> out.Done?
  {
    hide Inv; hide View; hide Area; hide Shared; hide Zero; hide Exhausted; hide ForkRoom; hide Moved; hide SwappedOut; hide Unused;
    out := Done;
    match op
    case LoadOp(k, vw) =>
      var ok := Access(p, k, false, vw);
      if ok {
        var c := p.Load(k);
        out := Got(c);
      } else {
        out := Failed;
      }
    case StoreOp(k, c) =>
      var ok := Access(p, k, true, true);
      if ok {
        p.Store(k, c);
      } else {
        out := Failed;
      }
    case ForkOp(parent, child, vas) =>
      if parent == child || exists k :: k in p.s.pt && k.mm == child {
        out := Failed;
      } else {
        var ok := p.Fork(parent, child, vas);
        out := if ok then Done else Stopped;
      }
    case UnmapOp(mm, vas) =>
      p.Unmap(mm, vas);
    case StackOp(k) =>
      if k in p.s.pt {
        out := Failed;
      } else {
        var ok := p.MapStack(k);
        out := if ok then Done else Failed;
      }
    case SwapOutOp(mm, vas, require) =>
      var ok, count := p.SwapOutVma(mm, vas, require);
      out := if ok then Done else Stopped;
    case RefillOp =>
      p.Refill();
    case LaunderOp =>
      var count := p.Launder();
  }

  // Every run, up to the point where an assertion stops the kernel, is a run on private memories.
  method Run(p: Paging, ops: seq<Op>) returns (outs: seq<Out>, ghost last: Memory)
    requires p.Idle()
    modifies p
    ensures p.Idle() && |outs| <= |ops| && Steps(MemoryOf(old(p.s)), ops[..|outs|], outs, last)
    ensures if |outs| == |ops| then Same(last, MemoryOf(p.s)) else Exhausted(p.s)
  {
    hide Inv; hide View; hide Step; hide Zero; hide Exhausted; hide ForkRoom;
    outs, last := [], MemoryOf(p.s);
    while |outs| < |ops|
      invariant p.Idle() && |outs| <= |ops| && Steps(MemoryOf(old(p.s)), ops[..|outs|], outs, last)
      invariant Same(last, MemoryOf(p.s))
      decreases |ops| - |outs|
    {
      ghost var before := MemoryOf(p.s);
      var op := ops[|outs|];
      var out := Perform(p, op);
      if out.Stopped? {
        return;
      }
      StepsEnd(MemoryOf(old(p.s)), ops[..|outs|], outs, last, before, op, out, MemoryOf(p.s));
      assert ops[..|outs| + 1] == ops[..|outs|] + [op];
      outs, last := outs + [out], MemoryOf(p.s);
    }
  }

  lemma {:induction false} StepsEnd(m: Memory, ops: seq<Op>, outs: seq<Out>, m1: Memory, m2: Memory, op: Op, out: Out, m3: Memory)
    requires |ops| == |outs| && Steps(m, ops, outs, m1) && Same(m1, m2) && Step(m2, op, out, m3)
    ensures Steps(m, ops + [op], outs + [out], m3)
  {
    if ops == [] {
      assert Step(m, op, out, m3);
      assert Steps(m3, [], [], m3);
      assert ([op])[1..] == [] && ([out])[1..] == [];
      assert ops + [op] == [op] && outs + [out] == [out];
    } else {
      var m0 :| Step(m, ops[0], outs[0], m0) && Steps(m0, ops[1..], outs[1..], m1);
      StepsEnd(m0, ops[1..], outs[1..], m1, m2, op, out, m3);
      assert (ops + [op])[1..] == ops[1..] + [op] && (outs + [out])[1..] == outs[1..] + [out];
    }
  }

  // A page that has a slot, or can get one, is swapped out in two passes at most.
  method SwapOut(p: Paging, k: Key) returns (ghost e: int)
    requires p.Idle() && k in p.s.pt && p.s.pt[k].to.InMem?
    requires !AtLimit(p.s, p.s.pt[k].to.f) && HasSlot(p.s, p.s.pt[k].to.f)
    modifies p
    ensures p.Idle() && Alike(old(p.s), p.s) && p.s.pt == old(p.s).pt[k := Pte(OnDisk(e), false, false, false, false)]
    ensures CopyOf(old(p.s), p.s, old(p.s).pt[k].to.f, e)
  {
    hide Inv; hide View; hide Area; hide Zero;
    ghost var s0 := p.s;
    var ok, freed := p.SwapOutPage(k);
    if !freed {
      ok, freed := p.SwapOutPage(k);
    }
    e :| p.s.pt == s0.pt[k := Pte(OnDisk(e), false, false, false, false)] && CopyOf(s0, p.s, s0.pt[k].to.f, e);
  }

  /**
   * The lost fault is reached with one frame: a page is written and shared by a
   * fork, both entries are swapped out, and the page is written again.
   */
  method LostFaultReached(c: Content) returns (p: Paging, ret: int)
    ensures p.Idle() && LostFault(p.s, Key(1, 0), true) && ret == 0 && !Accessible(p.s, Key(1, 0), true) && Mem(p.s, Key(1, 0)) == c
  {
    hide Inv; hide View; hide Area; hide Zero; hide Shared; hide HasSlot; hide AtLimit; hide CopyOf; hide Copied;
    p := new Paging({7}, 1024);
    var k1, k2 := Key(1, 0), Key(2, 0);
    var first := p.FaultEmpty(k1, true);
    p.Store(k1, c);
    InFrame(p, k1);
    ghost var s0 := p.s;
    var ok := p.CopyPage(k1, k2);
    Forked(s0, p.s, k1, k2);
    CanSwap(p, k1);
    ghost var s1 := p.s;
    ghost var e := SwapOut(p, k1);
    ghost var s2 := p.s;
    CanSwapNext(p, s1, s2, k1, k2, e);
    ghost var e2 := SwapOut(p, k2);
    BothOut(p, s1, s2, k1, k2, e, e2);
    ret := p.Fault(k1, true, true);
  }

  lemma InFrame(p: Paging, k: Key)
    requires p.Idle() && p.frames == {7} && k in p.s.pt && p.s.pt[k].to.InMem?
    ensures p.s.pt[k].to == InMem(7)
  {
    PteFacts(p.s, p.held, p.own, k);
  }

  lemma Forked(s: St, s': St, k1: Key, k2: Key)
    requires k1 in s.pt && s.pt.Keys == {k1} && s.pt[k1].to == InMem(7) && !s.pt[k1].stack && k1 != k2 && Copied(s, s', k1, k2)
    ensures s'.pt.Keys == {k1, k2} && s'.pt[k1].to == s'.pt[k2].to == InMem(7)
  {
  }

  // With no entry on the disk the frame is not cached, and every slot is unused.
  lemma CanSwap(p: Paging, k: Key)
    requires p.Idle() && p.slots == 1024 && k in p.s.pt && p.s.pt[k].to.InMem? && forall k' :: k' in p.s.pt ==> p.s.pt[k'].to.InMem?
    ensures !AtLimit(p.s, p.s.pt[k].to.f) && HasSlot(p.s, p.s.pt[k].to.f) && p.s.pt[k].to.f !in p.s.index
  {
    var s, f := p.s, p.s.pt[k].to.f;
    Accounting(s);
    assert forall e :: Holders(s.pt, OnDisk(e)) == {};
    assert 1 in s.memMap && s.memMap[1] == SWAP_UNUSED;
    if f in s.index {
      IndexFacts(s, p.held, p.own, f);
      CacheFacts(s, p.held, p.own, s.index[f]);
    }
  }

  lemma CanSwapNext(p: Paging, s1: St, s2: St, k1: Key, k2: Key, e: int)
    requires p.Idle() && p.s == s2 && k1 != k2 && s1.pt.Keys == {k1, k2} && s1.pt[k1].to == s1.pt[k2].to == InMem(7)
    requires s2.pt == s1.pt[k1 := Pte(OnDisk(e), false, false, false, false)] && CopyOf(s1, s2, 7, e)
    ensures s2.pt[k2].to == InMem(7) && 7 in s2.index && s2.index[7] == e && !AtLimit(s2, 7) && HasSlot(s2, 7)
  {
    hide Inv;
    Accounting(s2);
    CacheFacts(s2, p.held, p.own, e);
    assert Holders(s2.pt, OnDisk(e)) == {k1};
  }

  lemma BothOut(p: Paging, s1: St, s2: St, k1: Key, k2: Key, e: int, e2: int)
    requires p.Idle() && p.frames == {7} && k1 != k2 && s1.pt.Keys == {k1, k2}
    requires s2.pt == s1.pt[k1 := Pte(OnDisk(e), false, false, false, false)] && 7 in s2.index && s2.index[7] == e
    requires p.s.pt == s2.pt[k2 := Pte(OnDisk(e2), false, false, false, false)] && CopyOf(s2, p.s, 7, e2)
    ensures LostFault(p.s, k1, true)
  {
    var s := p.s;
    Accounting(s);
    CacheFacts(s, p.held, p.own, e);
    assert Holders(s.pt, OnDisk(e)) == {k1, k2};
    assert 7 !in s.free;
    FreeKnown(s, p.held, p.own);
    assert s.free == {};
  }

  lemma FreeKnown(s: St, held: multiset<Target>, own: set<int>)
    requires Inv(s, held, own)
    ensures s.free <= s.ref.Keys
  {
    forall f | f in s.free
      ensures f in s.ref.Keys
    {
      assert f in s.ref;
    }
  }
}
