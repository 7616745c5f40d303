/**
 * The fair scheduler of schedule/sched_CFS.c on one processor: the run list by
 * priority, and the red-black tree of the runnable processes by virtual run time.
 */
module Cfs {
  import opened Common
  import opened RbShape
  import opened RbHeap
  import opened RbLinks
  import opened RbTree

  datatype State = Runnable | Running | Sleeping

  datatype Proc = Proc(prio: int, state: State, vruntime: int, slice: int, alloc: int)

  const PRIO_0_WEIGHT := 1024
  const MIN_SLICE := 5
  const MAX_SLICE := 200

  const WEIGHTS: seq<int> := [
    88761, 71755, 56483, 46273, 36291, 29154, 23254, 18705, 14949, 11916,
    9548, 7620, 6100, 4904, 3906, 3121, 2501, 1991, 1586, 1277,
    1024, 820, 655, 526, 423, 335, 272, 215, 172, 137,
    110, 87, 70, 56, 45, 36, 29, 23, 18, 15]

  function Weight(prio: int): (w: int)
    requires -20 <= prio <= 19
    ensures 15 <= w <= 88761
  {
    WEIGHTS[prio + 20]
  }

  // The run list, and the process records by address.
  datatype Rq = Rq(list: seq<Ptr>, proc: map<Ptr, Proc>)

  ghost predicate ProcOk(p: Proc) {
    -20 <= p.prio <= 19 && p.vruntime >= 0 && 0 <= p.slice <= p.alloc && MIN_SLICE <= p.alloc <= MAX_SLICE
  }

  // Every listed process has a record with a slice in bounds, is listed once, and the list is by priority, higher first.
  ghost predicate ListOk(q: Rq) {
    && (forall i :: 0 <= i < |q.list| ==> q.list[i] in q.proc && q.list[i] > 1 && ProcOk(q.proc[q.list[i]]))
    && (forall i, j :: 0 <= i < j < |q.list| ==> q.list[i] != q.list[j] && q.proc[q.list[i]].prio >= q.proc[q.list[j]].prio)
  }

  ghost predicate IsRunnable(q: Rq, p: Ptr) {
    p in q.list && p in q.proc && q.proc[p].state == Runnable
  }

  // The nodes of the tree, with their keys, are the runnable processes of the list.
  ghost predicate Holds(es: seq<Ptr>, key: map<Ptr, int>, q: Rq) {
    && (forall p :: p in es <==> IsRunnable(q, p))
    && (forall p :: p in es ==> p in key && p in q.proc && key[p] == q.proc[p].vruntime)
  }

  // The node at the left end has the smallest key.
  lemma FirstIsLeast(es: seq<Ptr>, key: map<Ptr, int>, q: Rq)
    requires es != [] && Sorted(es, key) && Holds(es, key, q)
    ensures IsRunnable(q, es[0]) && forall p :: IsRunnable(q, p) ==> q.proc[es[0]].vruntime <= q.proc[p].vruntime
  {
    assert es[0] in es;
    forall p | IsRunnable(q, p)
      ensures q.proc[es[0]].vruntime <= q.proc[p].vruntime
    {
      assert p in es;
      var i :| 0 <= i < |es| && es[i] == p;
    }
  }

  lemma {:induction false} NoTwice(t: Tree)
    requires Distinct(t)
    ensures forall i, j :: 0 <= i < j < |InOrder(t)| ==> InOrder(t)[i] != InOrder(t)[j]
  {
    match t {
      case Leaf =>
      case Bin(l, n, _, r) =>
        NoTwice(l);
        NoTwice(r);
        InOrderNodes(l);
        InOrderNodes(r);
        ApartJoined(InOrder(l), n, InOrder(r));
    }
  }

  lemma ApartJoined(a: seq<Ptr>, n: Ptr, b: seq<Ptr>)
    requires (forall i, j :: 0 <= i < j < |a| ==> a[i] != a[j]) && (forall i, j :: 0 <= i < j < |b| ==> b[i] != b[j])
    requires n !in a && n !in b && forall x :: x in a ==> x !in b
    ensures var s := a + [n] + b; forall i, j :: 0 <= i < j < |s| ==> s[i] != s[j]
  {
    var s := a + [n] + b;
    forall i, j | 0 <= i < j < |s|
      ensures s[i] != s[j]
    {
      assert s[i] in a || s[i] == n || s[i] in b;
      assert i < |a| ==> s[i] in a;
      assert j > |a| ==> s[j] in b;
    }
  }

  lemma TreeNoTwice(t: RbTree)
    requires t.Valid()
    ensures NoRepeat(t.Elems())
  {
    hide InOrder; hide RedBlack; hide Sorted;
    NoTwice(t.shape);
  }

  lemma InsertMembers(es: seq<Ptr>, es': seq<Ptr>, z: Ptr, key: map<Ptr, int>)
    requires z in key && InsertedAt(es, es', z, key)
    ensures forall p :: p in es' <==> p in es || p == z
  {
    var k: nat :| k <= |es| && es' == es[..k] + [z] + es[k..];
    assert es == es[..k] + es[k..];
  }

  ghost predicate NoRepeat(es: seq<Ptr>) {
    forall i, j :: 0 <= i < j < |es| ==> es[i] != es[j]
  }

  lemma RemoveMembers(es: seq<Ptr>, es': seq<Ptr>, z: Ptr)
    requires Removed(es, es', z) && NoRepeat(es)
    ensures forall p :: p in es' <==> p in es && p != z
  {
    hide NoRepeat;
    var k: nat :| k < |es| && es[k] == z && es' == es[..k] + es[k + 1..];
    OnlyThere(es, k);
    assert es == es[..k] + [z] + es[k + 1..];
    WithoutMiddle(es[..k], z, es[k + 1..]);
  }

  lemma OnlyThere(es: seq<Ptr>, k: nat)
    requires NoRepeat(es) && k < |es|
    ensures es[k] !in es[..k] && es[k] !in es[k + 1..]
  {
  }

  lemma WithoutMiddle(a: seq<Ptr>, z: Ptr, b: seq<Ptr>)
    requires z !in a && z !in b
    ensures forall p :: p in a + b <==> p in a + [z] + b && p != z
  {
  }

  // CFS_get_rq_run_info: how many are runnable, their weight, and their virtual run time.
  method RunInfo(q: Rq) returns (count: nat, weight: nat, vruntime: nat)
    requires ListOk(q)
    ensures count == Count(q, |q.list|) && weight == TotalWeight(q, |q.list|) && vruntime == TotalTime(q, |q.list|)
  {
    count, weight, vruntime := 0, 0, 0;
    var i := 0;
    while i < |q.list|
      invariant 0 <= i <= |q.list| && count == Count(q, i) && weight == TotalWeight(q, i) && vruntime == TotalTime(q, i)
    {
      var p := q.proc[q.list[i]];
      assert ProcOk(p);
      if p.state == Runnable {
        weight, vruntime, count := weight + Weight(p.prio), vruntime + p.vruntime, count + 1;
      }
      i := i + 1;
    }
  }

  ghost function Count(q: Rq, n: int): nat
    requires ListOk(q) && 0 <= n <= |q.list|
  {
    if n == 0 then 0 else Count(q, n - 1) + if q.proc[q.list[n - 1]].state == Runnable then 1 else 0
  }

  ghost function TotalWeight(q: Rq, n: int): nat
    requires ListOk(q) && 0 <= n <= |q.list|
  {
    if n == 0 then 0
    else
      var p := q.proc[q.list[n - 1]];
      assert ProcOk(p);
      TotalWeight(q, n - 1) + if p.state == Runnable then Weight(p.prio) else 0
  }

  ghost function TotalTime(q: Rq, n: int): nat
    requires ListOk(q) && 0 <= n <= |q.list|
  {
    if n == 0 then 0
    else
      var p := q.proc[q.list[n - 1]];
      assert ProcOk(p);
      TotalTime(q, n - 1) + if p.state == Runnable then p.vruntime else 0
  }

  // The totals are nought when nobody is runnable, ...
  lemma {:induction false} NobodyRuns(q: Rq, n: int)
    requires ListOk(q) && 0 <= n <= |q.list| && forall x :: !IsRunnable(q, x)
    ensures Count(q, n) == TotalWeight(q, n) == TotalTime(q, n) == 0
  {
    if n > 0 {
      NobodyRuns(q, n - 1);
      assert !IsRunnable(q, q.list[n - 1]);
    }
  }

  // ... and a process that becomes runnable adds itself, its weight and its virtual run time.
  lemma {:induction false} OneMoreRuns(q: Rq, q': Rq, p: Ptr, n: int)
    requires ListOk(q) && ListOk(q') && q'.list == q.list && SameOthers(q, q', p) && 0 <= n <= |q.list|
    requires !IsRunnable(q, p) && IsRunnable(q', p)
    ensures ProcOk(q'.proc[p])
    ensures p in q.list[..n] ==>
              && Count(q', n) == Count(q, n) + 1
              && TotalWeight(q', n) == TotalWeight(q, n) + Weight(q'.proc[p].prio)
              && TotalTime(q', n) == TotalTime(q, n) + q'.proc[p].vruntime
    ensures p !in q.list[..n] ==>
              Count(q', n) == Count(q, n) && TotalWeight(q', n) == TotalWeight(q, n) && TotalTime(q', n) == TotalTime(q, n)
  {
    hide Weight; hide ListOk; hide ProcOk;
    InBounds(q', p);
    if n > 0 {
      OneMoreRuns(q, q', p, n - 1);
      var x := q.list[n - 1];
      assert q.list[..n] == q.list[..n - 1] + [x];
      ListedOnce(q, n);
      InBounds(q, x);
      InBounds(q', x);
    }
  }

  lemma ListedOnce(q: Rq, n: int)
    requires ListOk(q) && 0 < n <= |q.list|
    ensures q.list[n - 1] !in q.list[..n - 1]
  {
  }

  // The slice for a process that is about to run: it is counted once more than it is listed.
  ghost function NewSlice(q: Rq, prio: int): int
    requires ListOk(q) && -20 <= prio <= 19
  {
    Slice(Count(q, |q.list|) + 1, TotalWeight(q, |q.list|), prio)
  }

  // The virtual run time for a process that comes from sleep.
  ghost function MeanTime(q: Rq): int
    requires ListOk(q)
  {
    Average(TotalTime(q, |q.list|), Count(q, |q.list|))
  }

  // Place `k` of the list is behind all of this or a larger priority number and before all others.
  ghost predicate BehindEqual(q: Rq, prio: int, k: nat)
  {
    && k <= |q.list|
    && (forall i :: 0 <= i < k ==> q.list[i] in q.proc && q.proc[q.list[i]].prio >= prio)
    && (forall i :: k <= i < |q.list| ==> q.list[i] in q.proc && q.proc[q.list[i]].prio < prio)
  }

  // `p`, with what `r` says, has joined the queue at place `k`; slice and time are computed with `p` already listed.
  ghost predicate JoinedAt(q: Rq, q': Rq, p: Ptr, r: Proc, k: nat) {
    && k <= |q.list| && p in q'.proc && -20 <= r.prio <= 19 && BehindEqual(q, r.prio, k)
    && var q1 := Rq(q.list[..k] + [p] + q.list[k..], q.proc[p := r.(slice := MIN_SLICE, alloc := MIN_SLICE)]);
    && q'.list == q1.list && ListOk(q1) && q'.proc[p].vruntime == MeanTime(q1)
    && q'.proc[p].slice == q'.proc[p].alloc == Slice(Count(q1, |q1.list|), TotalWeight(q1, |q1.list|), r.prio)
  }

  ghost predicate Joined(q: Rq, q': Rq, p: Ptr, r: Proc) {
    exists k: nat :: JoinedAt(q, q', p, r, k)
  }

  // The part of CFS_enqueue before the tree: place in the list, slice and time.
  method WithNew(q: Rq, p: Ptr, r: Proc) returns (q': Rq)
    requires ListOk(q) && p > 1 && p !in q.list && -20 <= r.prio <= 19 && r.vruntime >= 0
    ensures ListOk(q') && Joined(q, q', p, r) && forall x :: x in q'.list <==> x in q.list || x == p
    ensures p in q'.proc && q'.proc == q.proc[p := q'.proc[p]] && q'.proc[p].prio == r.prio && q'.proc[p].state == r.state
  {
    hide ListOk;
    var k := FindPlace(q, r.prio);
    // A record in bounds stands in until slice and time have been computed.
    var r0 := r.(slice := MIN_SLICE, alloc := MIN_SLICE);
    Listing(q, p, r0, k);
    ListedAt(q.list, p, k);
    var q1 := Rq(q.list[..k] + [p] + q.list[k..], q.proc[p := r0]);
    var count, weight, time := RunInfo(q1);
    var s := Slice(count, weight, r.prio);
    var r1 := r0.(slice := s, alloc := s, vruntime := Average(time, count));
    Changed(q1, p, r1);
    q' := Rq(q1.list, q1.proc[p := r1]);
    assert JoinedAt(q, q', p, r, k);
  }

  // `q` is `a` divided by `b`, rounded down.
  ghost predicate Quotient(q: int, a: int, b: int) {
    q * b <= a < q * b + b
  }

  lemma DivIs(a: int, b: int)
    requires b > 0
    ensures Quotient(a / b, a, b)
  {
    assert a == b * (a / b) + a % b;
  }

  // A larger number has no smaller quotient, and a number has only one.
  lemma QuotientGrows(q: int, a: int, q': int, a': int, b: int)
    requires Quotient(q, a, b) && Quotient(q', a', b) && a <= a' && b > 0
    ensures q <= q'
  {
    assert b * (q - q') == q * b - q' * b;
    if q > q' {
      MulGe(b, q - q');
    }
  }

  lemma MulGe(w: int, d: int)
    requires w > 0 && d >= 1
    ensures w * d >= w
  {
  }

  // The time in which every one of `count` processes is to run once: half of what the bounds allow, rounded down.
  function Latency(count: nat): (l: nat)
    ensures Quotient(l, (MIN_SLICE + MAX_SLICE) * count, 2)
  {
    (MIN_SLICE + MAX_SLICE) * count / 2
  }

  /**
   * The slice for a process: the part of the latency that its weight is of the
   * whole, rounded down and brought between the bounds.
   */
  function Slice(count: nat, weight: nat, prio: int): (s: int)
    requires -20 <= prio <= 19
    ensures MIN_SLICE <= s <= MAX_SLICE
    ensures s > MIN_SLICE ==> s * (weight + 1) <= Latency(count) * Weight(prio)
    ensures s < MAX_SLICE ==> Latency(count) * Weight(prio) < s * (weight + 1) + (weight + 1)
  {
    var s := Latency(count) * Weight(prio) / (weight + 1);
    DivIs(Latency(count) * Weight(prio), weight + 1);
    Clamped(Latency(count) * Weight(prio), weight + 1, s);
    if s < MIN_SLICE then MIN_SLICE else if s > MAX_SLICE then MAX_SLICE else s
  }

  lemma Clamped(a: int, b: int, s: int)
    requires b > 0 && Quotient(s, a, b)
    ensures s < MIN_SLICE ==> a < MIN_SLICE * b + b
    ensures s > MAX_SLICE ==> MAX_SLICE * b <= a
  {
    if s < MIN_SLICE {
      assert MIN_SLICE * b == s * b + (MIN_SLICE - s) * b;
      MulGe(b, MIN_SLICE - s);
    }
    if s > MAX_SLICE {
      assert s * b == MAX_SLICE * b + (s - MAX_SLICE) * b;
      MulGe(b, s - MAX_SLICE);
    }
  }

  // Weights fall strictly as the priority number rises, and a process of priority 0 has weight 1024.
  lemma {:induction false} WeightsFall(a: int, b: int)
    requires -20 <= a < b <= 19
    ensures Weight(a) > Weight(b) && Weight(0) == PRIO_0_WEIGHT
    decreases b - a
  {
    assert WEIGHTS[a + 20] > WEIGHTS[a + 21];
    if a + 1 < b {
      WeightsFall(a + 1, b);
    }
  }

  // Who weighs more gets no shorter slice.
  lemma SliceGrows(count: nat, weight: nat, a: int, b: int)
    requires -20 <= a < b <= 19
    ensures Slice(count, weight, a) >= Slice(count, weight, b)
  {
    hide Slice; hide Weight; hide Latency;
    WeightsFall(a, b);
    var s, t, l := Slice(count, weight, a), Slice(count, weight, b), Latency(count);
    MulMono(Weight(b), Weight(a), l);
    if s < t {
      NotBoth(s, t, l * Weight(a), weight + 1);
    }
  }

  lemma NotBoth(s: int, t: int, a: int, w: int)
    requires s < t && w > 0
    ensures !(t * w <= a < s * w + w)
  {
    MulMono(s + 1, t, w);
    assert (s + 1) * w == s * w + w;
  }

  // The virtual time of `ticks` ticks: 1024 times as long for weight 1, and the ticks themselves for weight 1024.
  function Cost(ticks: nat, prio: int): (c: int)
    requires -20 <= prio <= 19
    ensures c >= 0 && Quotient(c, ticks * PRIO_0_WEIGHT, Weight(prio))
  {
    DivIs(ticks * PRIO_0_WEIGHT, Weight(prio));
    ticks * PRIO_0_WEIGHT / Weight(prio)
  }

  lemma CostGrows(t: nat, u: nat, prio: int)
    requires -20 <= prio <= 19 && t <= u
    ensures Cost(t, prio) <= Cost(u, prio)
  {
    hide Cost; hide Weight;
    QuotientGrows(Cost(t, prio), t * PRIO_0_WEIGHT, Cost(u, prio), u * PRIO_0_WEIGHT, Weight(prio));
  }

  // What a process is charged for the ticks it ran.
  function Charge(p: Proc): (c: int)
    requires ProcOk(p)
    ensures 0 <= c <= MaxCharge(p.prio) && Quotient(c, (p.alloc - p.slice) * PRIO_0_WEIGHT, Weight(p.prio))
  {
    CostGrows(p.alloc - p.slice, MAX_SLICE, p.prio);
    Cost(p.alloc - p.slice, p.prio)
  }

  // The charge for the longest slice.
  function MaxCharge(prio: int): (c: int)
    requires -20 <= prio <= 19
    ensures 0 <= c && Quotient(c, MAX_SLICE * PRIO_0_WEIGHT, Weight(prio))
  {
    Cost(MAX_SLICE, prio)
  }

  class RunQueue {
    var q: Rq
    const tree: RbTree

    ghost predicate Valid()
      reads this, tree
    {
      && ListOk(q) && tree.Valid() && tree.nil == 0 && tree.root == 1
      && Holds(tree.Elems(), tree.key, q)
    }

    // CFS_init
    constructor ()
      ensures Valid() && q.list == [] && fresh(tree)
    {
      tree := new RbTree(0, 1);
      q := Rq([], map[]);
    }

    // rb_insert of a process that is not in the tree, under its virtual run time.
    method IntoTree(p: Ptr)
      requires tree.Valid() && tree.nil == 0 && tree.root == 1 && p > 1 && p !in tree.Elems() && p in q.proc
      requires forall x :: x in tree.Elems() ==> x in tree.key
      modifies tree
      ensures tree.Valid() && (forall x :: x in tree.Elems() <==> x in old(tree.Elems()) || x == p)
      ensures tree.key == old(tree.key)[p := q.proc[p].vruntime]
    {
      hide Zip; hide RedBlack; hide Sorted; hide InOrder; hide InsertedAt; hide RbHeap.Has;
      tree.NewRecord(p, q.proc[p].vruntime);
      ghost var es := tree.Elems();
      tree.Insert(p);
      InsertMembers(es, tree.Elems(), p, tree.key);
    }

    // rb_delete
    method OutOfTree(p: Ptr)
      requires tree.Valid() && tree.nil == 0 && tree.root == 1 && p in tree.Elems()
      modifies tree
      ensures tree.Valid() && (forall x :: x in tree.Elems() <==> x in old(tree.Elems()) && x != p)
      ensures tree.key == old(tree.key)
    {
      hide Zip; hide RedBlack; hide Sorted; hide InOrder; hide Removed;
      ghost var es := tree.Elems();
      TreeNoTwice(tree);
      tree.Delete(p);
      RemoveMembers(es, tree.Elems(), p);
    }

    // CFS_enqueue: behind the processes of the same or higher priority.
    method Enqueue(p: Ptr, r: Proc)
      requires Valid() && p > 1 && p !in q.list && -20 <= r.prio <= 19 && r.vruntime >= 0
      modifies this, tree
      ensures Valid() && (forall x :: x in q.list <==> x in old(q).list || x == p)
      ensures p in q.proc && q.proc == old(q).proc[p := q.proc[p]] && q.proc[p].prio == r.prio && q.proc[p].state == r.state
      ensures Joined(old(q), q, p, r)
    {
      hide Zip; hide RedBlack; hide Sorted; hide InOrder; hide ListOk; hide Joined;
      ghost var q0 := q;
      q := WithNew(q, p, r);
      NotInTree(tree.Elems(), tree.key, q0, p);
      if r.state == Runnable {
        IntoTree(p);
      }
    }

    // CFS_dequeue
    method Dequeue(p: Ptr)
      requires Valid() && p in q.list
      modifies this, tree
      ensures Valid() && q.proc == old(q).proc && (forall x :: x in q.list <==> x in old(q).list && x != p)
      ensures exists k :: 0 <= k < |old(q).list| && old(q).list[k] == p && q.list == old(q).list[..k] + old(q).list[k + 1..]
    {
      hide Zip; hide RedBlack; hide Sorted; hide InOrder;
      var k := IndexOf(q.list, p);
      Unlisting(q, p, k);
      ghost var q0 := q;
      if q.proc[p].state == Runnable {
        OutOfTree(p);
      }
      q := q.(list := q.list[..k] + q.list[k + 1..]);
    }

    // CFS_pick_next: a runnable process with the least virtual run time gets a new slice and runs.
    method Pick() returns (r: Option<Ptr>)
      requires Valid()
      modifies this, tree
      ensures Valid() && q.list == old(q).list
      ensures r.None? <==> forall x :: !IsRunnable(old(q), x)
      ensures r.None? ==> q == old(q)
      ensures r.Some? ==>
                && IsRunnable(old(q), r.value) && (forall x :: IsRunnable(old(q), x) ==> old(q).proc[r.value].vruntime <= old(q).proc[x].vruntime)
                && r.value in q.proc && q.proc[r.value].state == Running && SameTimes(old(q), q, r.value)
                && q.proc[r.value].slice == q.proc[r.value].alloc == NewSlice(old(q), old(q).proc[r.value].prio)
    {
      hide Zip; hide RedBlack; hide InOrder; hide ListOk;
      var node := tree.kid[Slot(tree.root, Left)];
      Emptiness(tree);
      if node == tree.nil {
        assert forall x :: x in tree.Elems() <==> IsRunnable(q, x);
        return None;
      }
      var p := tree.Leftmost();
      FirstIsLeast(tree.Elems(), tree.key, q);
      hide Sorted;
      OutOfTree(p);
      var count, weight, time := RunInfo(q);
      InBounds(q, p);
      var s := Slice(count + 1, weight, q.proc[p].prio);
      var r1 := q.proc[p].(slice := s, alloc := s, state := Running);
      Changed(q, p, r1);
      q := q.(proc := q.proc[p := r1]);
      r := Some(p);
    }

    // CFS_insert_rbtree: charged for its ticks, or given the average if it slept, the process is runnable again.
    method PutBack(p: Ptr)
      requires Valid() && p in q.list && q.proc[p].state != Runnable
      modifies this, tree
      ensures Valid() && q.list == old(q).list && p in q.proc && SameOthers(old(q), q, p)
      ensures q.proc[p].state == Runnable && q.proc[p].prio == old(q).proc[p].prio
      ensures ProcOk(old(q).proc[p]) && q.proc[p] == old(q).proc[p].(state := Runnable, vruntime := q.proc[p].vruntime)
      ensures q.proc[p].vruntime ==
              if old(q).proc[p].state == Running then old(q).proc[p].vruntime + Charge(old(q).proc[p]) else MeanTime(old(q))
    {
      hide Zip; hide RedBlack; hide InOrder; hide Sorted; hide ListOk;
      InBounds(q, p);
      var r := q.proc[p];
      if r.state == Running {
        r := r.(vruntime := r.vruntime + Charge(r));
      } else {
        var count, weight, time := RunInfo(q);
        r := r.(vruntime := Average(time, count));
      }
      Changed(q, p, r.(state := Runnable));
      q := q.(proc := q.proc[p := r.(state := Runnable)]);
      IntoTree(p);
    }

    // CFS_proc_tick
    method Tick(p: Ptr) returns (resched: bool)
      requires Valid() && p in q.list && q.proc[p].state == Running
      modifies `q
      ensures Valid() && q.list == old(q).list && p in q.proc && SameOthers(old(q), q, p)
      ensures q.proc[p] == old(q).proc[p].(slice := q.proc[p].slice)
      ensures q.proc[p].slice == (if old(q).proc[p].slice > 0 then old(q).proc[p].slice - 1 else 0)
      ensures resched <==> q.proc[p].slice == 0
    {
      hide Zip; hide RedBlack; hide InOrder; hide Sorted; hide ListOk;
      InBounds(q, p);
      var r := q.proc[p];
      if r.slice > 0 {
        r := r.(slice := r.slice - 1);
      }
      Changed(q, p, r);
      q := q.(proc := q.proc[p := r]);
      resched := r.slice == 0;
    }

    // A running process goes to sleep.
    method GoToSleep(p: Ptr)
      requires Valid() && p in q.list && q.proc[p].state == Running
      modifies `q
      ensures Valid() && q.list == old(q).list && p in q.proc && SameOthers(old(q), q, p) && q.proc[p] == old(q).proc[p].(state := Sleeping)
    {
      hide Zip; hide RedBlack; hide InOrder; hide Sorted; hide ListOk;
      InBounds(q, p);
      Changed(q, p, q.proc[p].(state := Sleeping));
      q := q.(proc := q.proc[p := q.proc[p].(state := Sleeping)]);
    }

    // The picked process runs for some ticks, which are taken from its slice.
    method RunFor(p: Ptr, ticks: nat)
      requires Valid() && p in q.list && p in q.proc && q.proc[p].state == Running && q.proc[p].slice == q.proc[p].alloc
      modifies this
      ensures Valid() && q.list == old(q).list && p in q.proc && SameOthers(old(q), q, p)
      ensures var r := old(q).proc[p]; q.proc[p] == r.(slice := if ticks < r.alloc then r.alloc - ticks else 0)
    {
      hide ListOk; hide Holds;
      var n := 0;
      InBounds(q, p);
      while n < ticks
        invariant 0 <= n <= ticks && Valid() && q.list == old(q).list && p in q.proc && SameOthers(old(q), q, p)
        invariant var r := old(q).proc[p]; q.proc[p] == r.(slice := if n < r.alloc then r.alloc - n else 0)
      {
        var resched := Tick(p);
        n := n + 1;
      }
    }

    // One turn with nobody asleep: a process is picked, runs for some ticks, and goes back.
    method Turn(ticks: nat) returns (p: Ptr)
      requires Valid() && q.list != [] && AllRunnable(q)
      modifies this, tree
      ensures Valid() && AllRunnable(q) && TurnStep(old(q), ticks, p, q)
    {
      hide Zip; hide RedBlack; hide InOrder; hide Sorted; hide ListOk; hide Holds; hide Cost; hide NewSlice;
      ghost var q0 := q;
      InBounds(q, q.list[0]);
      assert IsRunnable(q, q.list[0]);
      var r := Pick();
      p := r.value;
      InBounds(q, p);
      ghost var r1 := q.proc[p];
      RunFor(p, ticks);
      PutBack(p);
      Listed(q0, p);
      StillRunnable(q0, q, p);
    }

    /**
     * Any number of turns with nobody asleep: the virtual run times stay as close
     * together as they were, or within the charge for one slice.
     */
    method Turns(ticks: seq<nat>, ghost d: int, ghost c: int) returns (picks: seq<Ptr>, ghost h: seq<Rq>)
      requires Valid() && q.list != [] && AllRunnable(q) && Spread(q, d) && Charges(q, c)
      modifies this, tree
      ensures Valid() && AllRunnable(q) && Spread(q, if d > c then d else c)
      ensures History(h, ticks, picks) && h[0] == old(q) && h[|ticks|] == q
      ensures WholeSlices(ticks) && |ticks| > (|q.list| - 1) * (d + 1) ==> forall x :: x in q.list ==> x in picks
    {
      hide Zip; hide RedBlack; hide InOrder; hide Sorted; hide ListOk; hide Spread; hide AllRunnable; hide Charges; hide Holds; hide TurnStep;
      picks, h := [], [q];
      var i := 0;
      Wider(q, d, c);
      while i < |ticks|
        invariant 0 <= i <= |ticks| && Valid() && q.list == old(q).list && AllRunnable(q) && Charges(q, c)
        invariant Spread(q, if d > c then d else c)
        invariant History(h, ticks[..i], picks) && h[0] == old(q) && h[i] == q
      {
        ghost var q0 := q;
        var p := Turn(ticks[i]);
        TurnSpread(q0, q, ticks[i], p, if d > c then d else c, c);
        StepList(q0, ticks[i], p, q);
        assert ticks[..i + 1] == ticks[..i] + [ticks[i]];
        picks, h := picks + [p], h + [q];
        i := i + 1;
      }
      assert ticks[..i] == ticks;
      if WholeSlices(ticks) && |ticks| > (|q.list| - 1) * (d + 1) {
        EverybodyRuns(h, ticks, picks, d);
      }
    }
  }

  ghost predicate SameOthers(q: Rq, q': Rq, p: Ptr) {
    q'.proc.Keys == q.proc.Keys && forall x :: x in q.proc && x != p ==> q'.proc[x] == q.proc[x]
  }

  // Nothing about virtual run times and priorities has changed, and of the others nothing at all.
  ghost predicate SameTimes(q: Rq, q': Rq, p: Ptr) {
    SameOthers(q, q', p) && p in q.proc && q'.proc[p].vruntime == q.proc[p].vruntime && q'.proc[p].prio == q.proc[p].prio
  }

  ghost predicate AllRunnable(q: Rq) {
    forall x :: x in q.list ==> IsRunnable(q, x)
  }

  // No two virtual run times on the list are more than `d` apart.
  ghost predicate Spread(q: Rq, d: int) {
    forall x, y :: x in q.list && y in q.list && x in q.proc && y in q.proc ==> q.proc[x].vruntime - q.proc[y].vruntime <= d
  }

  // No slice of a process on the list costs more than `c`.
  ghost predicate Charges(q: Rq, c: int) {
    forall x :: x in q.list && x in q.proc ==> -20 <= q.proc[x].prio <= 19 && MaxCharge(q.proc[x].prio) <= c
  }

  lemma Wider(q: Rq, d: int, c: int)
    requires Spread(q, d)
    ensures Spread(q, if d > c then d else c)
  {
  }

  // A turn of process `p`, which was least and ran for `ticks` ticks or until its slice was used up.
  ghost predicate TurnStep(q: Rq, ticks: nat, p: Ptr, q': Rq) {
    && ListOk(q) && q'.list == q.list && p in q.list && p in q.proc && p in q'.proc && SameOthers(q, q', p)
    && (forall x :: x in q.list && x in q.proc ==> q.proc[p].vruntime <= q.proc[x].vruntime)
    && var prio := q.proc[p].prio;
    && -20 <= prio <= 19 && q'.proc[p].prio == prio && q'.proc[p].state == Runnable
    && var slice := NewSlice(q, prio);
    && q'.proc[p].vruntime == q.proc[p].vruntime + Cost(if ticks < slice then ticks else slice, prio)
  }

  // The queues before and after each turn.
  ghost predicate History(h: seq<Rq>, ticks: seq<nat>, picks: seq<Ptr>) {
    |h| == |ticks| + 1 == |picks| + 1 && forall i :: 0 <= i < |ticks| ==> TurnStep(h[i], ticks[i], picks[i], h[i + 1])
  }

  lemma Listed(q: Rq, p: Ptr)
    requires ListOk(q) && p in q.list
    ensures p in q.proc && -20 <= q.proc[p].prio <= 19
  {
    InBounds(q, p);
  }

  lemma StillRunnable(q: Rq, q': Rq, p: Ptr)
    requires AllRunnable(q) && q'.list == q.list && SameOthers(q, q', p) && p in q'.proc && q'.proc[p].state == Runnable
    ensures AllRunnable(q')
  {
    forall x | x in q'.list
      ensures IsRunnable(q', x)
    {
      assert IsRunnable(q, x);
    }
  }

  lemma StepList(q: Rq, ticks: nat, p: Ptr, q': Rq)
    requires TurnStep(q, ticks, p, q')
    ensures q'.list == q.list
  {
    hide ListOk; hide NewSlice; hide Cost;
  }

  // The process that was least moves up by at most one charge.
  lemma TurnSpread(q: Rq, q': Rq, ticks: nat, p: Ptr, d: int, c: int)
    requires Spread(q, d) && Charges(q, c) && TurnStep(q, ticks, p, q')
    ensures Charges(q', c) && Spread(q', if d > c then d else c)
  {
    hide MaxCharge; hide Cost; hide ListOk; hide NewSlice;
    var slice := NewSlice(q, q.proc[p].prio);
    StepCost(q, ticks, p);
    forall x, y | x in q'.list && y in q'.list && x in q'.proc && y in q'.proc
      ensures q'.proc[x].vruntime - q'.proc[y].vruntime <= if d > c then d else c
    {
    }
  }

  lemma StepCost(q: Rq, ticks: nat, p: Ptr)
    requires ListOk(q) && p in q.list && p in q.proc && -20 <= q.proc[p].prio <= 19
    ensures var slice := NewSlice(q, q.proc[p].prio);
            0 <= slice && 0 <= Cost(if ticks < slice then ticks else slice, q.proc[p].prio) <= MaxCharge(q.proc[p].prio)
  {
    hide Cost; hide ListOk; hide NewSlice;
    NewSliceBounds(q, q.proc[p].prio);
    var slice := NewSlice(q, q.proc[p].prio);
    CostGrows(if ticks < slice then ticks else slice, MAX_SLICE, q.proc[p].prio);
  }

  lemma NewSliceBounds(q: Rq, prio: int)
    requires ListOk(q) && -20 <= prio <= 19
    ensures MIN_SLICE <= NewSlice(q, prio) <= MAX_SLICE
  {
  }

  // How far process `x` is ahead of `y`, or level with it.
  ghost function Ahead(q: Rq, x: Ptr, y: Ptr): nat {
    if x == y || x !in q.proc || y !in q.proc || q.proc[x].vruntime < q.proc[y].vruntime then 0
    else q.proc[x].vruntime - q.proc[y].vruntime + 1
  }

  // The same, added up over the first `n` processes of the list: what others can run before it is the turn of `x`.
  ghost function Owed(q: Rq, x: Ptr, n: int): nat
    requires 0 <= n <= |q.list|
  {
    if n == 0 then 0 else Owed(q, x, n - 1) + Ahead(q, x, q.list[n - 1])
  }

  lemma {:induction false} OwedBound(q: Rq, x: Ptr, n: int, d: int)
    requires 0 <= n <= |q.list| && Spread(q, d) && x in q.list && x in q.proc
    ensures d >= 0 && Owed(q, x, n) <= n * (d + 1) - if x in q.list[..n] then d + 1 else 0
  {
    if n > 0 {
      OwedBound(q, x, n - 1, d);
      assert q.list[..n] == q.list[..n - 1] + [q.list[n - 1]];
      assert n * (d + 1) == (n - 1) * (d + 1) + (d + 1);
      assert q.list[n - 1] in q.list;
    }
  }

  // A turn of somebody else that is charged leaves less to be run before it is the turn of `x`.
  lemma {:induction false} OwedStep(q: Rq, q': Rq, ticks: nat, p: Ptr, x: Ptr, n: int)
    requires TurnStep(q, ticks, p, q') && p != x && x in q.list && 0 <= n <= |q.list|
    requires q'.proc[p].vruntime > q.proc[p].vruntime
    ensures q'.list == q.list && Owed(q', x, n) <= Owed(q, x, n) - if p in q.list[..n] then 1 else 0
  {
    hide ListOk; hide NewSlice; hide Cost;
    if n > 0 {
      OwedStep(q, q', ticks, p, x, n - 1);
      assert q.list[..n] == q.list[..n - 1] + [q.list[n - 1]];
      AheadStep(q, q', ticks, p, x, q.list[n - 1]);
    }
  }

  lemma AheadStep(q: Rq, q': Rq, ticks: nat, p: Ptr, x: Ptr, y: Ptr)
    requires TurnStep(q, ticks, p, q') && p != x && x in q.list
    requires q'.proc[p].vruntime > q.proc[p].vruntime
    ensures Ahead(q', x, y) <= Ahead(q, x, y) - if y == p then 1 else 0
  {
    hide NewSlice; hide Cost;
    InBounds(q, x);
  }

  lemma {:induction false} OwedRun(h: seq<Rq>, ticks: seq<nat>, picks: seq<Ptr>, x: Ptr, k: int)
    requires History(h, ticks, picks) && 0 <= k <= |ticks| && x in h[0].list && x !in picks && Charged(h, picks)
    ensures h[k].list == h[0].list && Owed(h[k], x, |h[k].list|) + k <= Owed(h[0], x, |h[0].list|)
  {
    hide TurnStep;
    if k > 0 {
      OwedRun(h, ticks, picks, x, k - 1);
      var q, p := h[k - 1], picks[k - 1];
      assert TurnStep(q, ticks[k - 1], p, h[k]) && p in picks;
      StepPick(q, ticks[k - 1], p, h[k]);
      OwedStep(q, h[k], ticks[k - 1], p, x, |q.list|);
      assert q.list[..|q.list|] == q.list;
    }
  }

  lemma StepPick(q: Rq, ticks: nat, p: Ptr, q': Rq)
    requires TurnStep(q, ticks, p, q')
    ensures p in q.list && p in q.proc && p in q'.proc
  {
    hide ListOk; hide NewSlice; hide Cost;
  }

  // Every turn has cost something.
  ghost predicate Charged(h: seq<Rq>, picks: seq<Ptr>)
  {
    |h| == |picks| + 1 && forall i :: 0 <= i < |picks| ==>
      picks[i] in h[i].proc && picks[i] in h[i + 1].proc && h[i + 1].proc[picks[i]].vruntime > h[i].proc[picks[i]].vruntime
  }

  /**
   * Nobody starves: if every turn is charged, each of `n` processes whose virtual
   * run times are at most `d` apart is picked within (n - 1) * (d + 1) + 1 turns.
   */
  lemma NobodyStarves(h: seq<Rq>, ticks: seq<nat>, picks: seq<Ptr>, d: int, x: Ptr)
    requires History(h, ticks, picks) && Charged(h, picks) && Spread(h[0], d) && x in h[0].list && x in h[0].proc
    requires |ticks| > (|h[0].list| - 1) * (d + 1)
    ensures x in picks
  {
    var n := |h[0].list|;
    OwedBound(h[0], x, n, d);
    assert h[0].list[..n] == h[0].list;
    assert (n - 1) * (d + 1) == n * (d + 1) - (d + 1);
    if x !in picks {
      OwedRun(h, ticks, picks, x, |ticks|);
    }
  }

  lemma {:induction false} TotalWeightBound(q: Rq, n: int)
    requires ListOk(q) && 0 <= n <= |q.list|
    ensures TotalWeight(q, n) <= 88761 * Count(q, n)
  {
    if n > 0 {
      TotalWeightBound(q, n - 1);
    }
  }

  lemma {:induction false} SomeCounted(q: Rq, n: int, p: Ptr)
    requires ListOk(q) && 0 <= n <= |q.list| && p in q.list[..n] && p in q.proc && q.proc[p].state == Runnable
    ensures Count(q, n) >= 1
  {
    if n > 0 && q.list[n - 1] != p {
      assert q.list[..n] == q.list[..n - 1] + [q.list[n - 1]];
      SomeCounted(q, n - 1, p);
    }
  }

  lemma WeightGap(prio: int)
    requires -20 <= prio <= 19
    ensures Weight(prio) <= 4904 || Weight(prio) >= 6100
  {
    if prio >= -13 {
      if prio > -13 {
        WeightsFall(-13, prio);
      }
    } else if prio < -14 {
      WeightsFall(prio, -14);
    }
  }

  // A whole slice of a runnable process always costs something.
  lemma SliceCosts(m: nat, weight: nat, prio: int)
    requires m >= 1 && weight <= 88761 * m && -20 <= prio <= 19
    ensures Slice(m + 1, weight, prio) * PRIO_0_WEIGHT >= Weight(prio)
  {
    hide Slice; hide Latency;
    WeightGap(prio);
    var s, l, w := Slice(m + 1, weight, prio), Latency(m + 1), Weight(prio);
    hide Weight;
    if w > 4904 && s < MAX_SLICE && s * PRIO_0_WEIGHT < w {
      TooSmall(s, l, w, m, weight);
    }
  }

  lemma TooSmall(s: int, l: int, w: int, m: int, weight: int)
    requires w >= 6100 && m >= 1 && 0 <= weight <= 88761 * m && s >= 0 && 2 * l >= 205 * m + 204
    requires l * w < s * (weight + 1) + (weight + 1)
    ensures s * PRIO_0_WEIGHT >= w
  {
    MulMono(6100, w, m);
    LatencyWeighs(l, w, m);
    if s * PRIO_0_WEIGHT < w {
      ShareWeighs(s, w, m, weight);
    }
  }

  lemma LatencyWeighs(l: int, w: int, m: int)
    requires w >= 0 && 2 * l >= 205 * m + 204
    ensures 1024 * (l * w) >= 104960 * (w * m) + 104448 * w
  {
    MulMono(205 * m + 204, 2 * l, w);
    assert (205 * m + 204) * w == 205 * (w * m) + 204 * w;
    assert 2 * l * w == 2 * (l * w);
  }

  lemma ShareWeighs(s: int, w: int, m: int, weight: int)
    requires w >= 0 && 0 <= weight <= 88761 * m && s * PRIO_0_WEIGHT < w
    ensures 1024 * (s * (weight + 1) + (weight + 1)) <= 88761 * (w * m) + w + 90802503 * m + 1023
  {
    var u := weight + 1;
    MulMono(1024 * (s + 1), w + 1023, u);
    assert 1024 * (s + 1) * u == 1024 * (s * u + u);
    MulMono(u, 88761 * m + 1, w + 1023);
    assert (88761 * m + 1) * (w + 1023) == 88761 * (w * m) + w + 90802503 * m + 1023;
  }

  lemma MulMono(a: int, b: int, c: int)
    requires a <= b && c >= 0
    ensures a * c <= b * c
  {
  }

  /**
   * So with every turn lasting until the slice is used up, every turn is charged,
   * whatever the priorities.
   */
  lemma FullTurnsCharge(h: seq<Rq>, ticks: seq<nat>, picks: seq<Ptr>)
    requires History(h, ticks, picks) && AllRunnable(h[0]) && WholeSlices(ticks)
    ensures Charged(h, picks)
  {
    hide TurnStep; hide AllRunnable;
    forall i | 0 <= i < |picks|
      ensures picks[i] in h[i].proc && picks[i] in h[i + 1].proc && h[i + 1].proc[picks[i]].vruntime > h[i].proc[picks[i]].vruntime
    {
      StayRunnable(h, ticks, picks, i);
      FullTurnCharges(h[i], ticks[i], picks[i], h[i + 1]);
    }
  }

  // Every turn lasts until the slice is used up, however long it is.
  ghost predicate WholeSlices(ticks: seq<nat>) {
    forall i :: 0 <= i < |ticks| ==> ticks[i] >= MAX_SLICE
  }

  lemma {:induction false} StayRunnable(h: seq<Rq>, ticks: seq<nat>, picks: seq<Ptr>, k: int)
    requires History(h, ticks, picks) && AllRunnable(h[0]) && 0 <= k <= |ticks|
    ensures AllRunnable(h[k])
  {
    hide ListOk; hide NewSlice; hide Cost;
    if k > 0 {
      StayRunnable(h, ticks, picks, k - 1);
      assert TurnStep(h[k - 1], ticks[k - 1], picks[k - 1], h[k]);
      StillRunnable(h[k - 1], h[k], picks[k - 1]);
    }
  }

  // Together: with whole slices everybody gets a turn within (n - 1) * (d + 1) + 1 turns.
  lemma EverybodyRuns(h: seq<Rq>, ticks: seq<nat>, picks: seq<Ptr>, d: int)
    requires History(h, ticks, picks) && AllRunnable(h[0]) && Spread(h[0], d) && WholeSlices(ticks)
    requires |ticks| > (|h[0].list| - 1) * (d + 1)
    ensures forall x :: x in h[0].list ==> x in picks
  {
    hide TurnStep; hide Charged;
    FullTurnsCharge(h, ticks, picks);
    forall x | x in h[0].list
      ensures x in picks
    {
      assert IsRunnable(h[0], x);
      NobodyStarves(h, ticks, picks, d, x);
    }
  }

  lemma FullTurnCharges(q: Rq, ticks: nat, p: Ptr, q': Rq)
    requires TurnStep(q, ticks, p, q') && ticks >= MAX_SLICE && AllRunnable(q)
    ensures p in q.proc && p in q'.proc && q'.proc[p].vruntime > q.proc[p].vruntime
  {
    hide ListOk; hide Cost; hide Slice; hide Count; hide TotalWeight; hide Weight;
    var n, prio := |q.list|, q.proc[p].prio;
    assert IsRunnable(q, p) && q.list[..n] == q.list;
    SomeCounted(q, n, p);
    TotalWeightBound(q, n);
    SliceCosts(Count(q, n), TotalWeight(q, n), prio);
    var slice := NewSlice(q, prio);
    SomeCost(slice, prio);
  }

  lemma SomeCost(ticks: nat, prio: int)
    requires -20 <= prio <= 19 && ticks * PRIO_0_WEIGHT >= Weight(prio)
    ensures Cost(ticks, prio) >= 1
  {
    hide Cost; hide Weight;
    var c, w := Cost(ticks, prio), Weight(prio);
    assert c == 0 ==> c * w == 0;
  }

  function IndexOf(l: seq<Ptr>, p: Ptr): (k: nat)
    requires p in l
    ensures k < |l| && l[k] == p
  {
    if l[0] == p then 0 else 1 + IndexOf(l[1..], p)
  }

  lemma Unlisting(q: Rq, p: Ptr, k: nat)
    requires ListOk(q) && k < |q.list| && q.list[k] == p
    ensures var l := q.list[..k] + q.list[k + 1..];
            ListOk(q.(list := l)) && p in q.proc && forall x :: x in l <==> x in q.list && x != p
  {
    var l := q.list[..k] + q.list[k + 1..];
    assert Removed(q.list, l, p);
    RemoveMembers(q.list, l, p);
    hide ProcOk; hide Removed;
    forall i | 0 <= i < |l|
      ensures l[i] == q.list[if i < k then i else i + 1]
    {
    }
  }

  lemma InBounds(q: Rq, p: Ptr)
    requires ListOk(q) && p in q.list
    ensures p in q.proc && p > 1 && ProcOk(q.proc[p])
  {
    var i :| 0 <= i < |q.list| && q.list[i] == p;
  }

  // The tree is empty exactly when its root has no left child.
  lemma Emptiness(t: RbTree)
    requires t.Valid()
    ensures Slot(t.root, Left) in t.kid && (t.kid[Slot(t.root, Left)] == t.nil <==> t.Elems() == [])
  {
    hide Zip; hide RedBlack; hide Sorted;
    ZipFields(t.M(), Top, t.shape, t.root, t.nil);
  }

  // The walk of CFS_enqueue along the list.
  method FindPlace(q: Rq, prio: int) returns (k: nat)
    requires ListOk(q)
    ensures BehindEqual(q, prio, k)
  {
    k := 0;
    while k < |q.list| && !(prio > q.proc[q.list[k]].prio)
      invariant k <= |q.list| && forall i :: 0 <= i < k ==> q.proc[q.list[i]].prio >= prio
    {
      k := k + 1;
    }
  }

  function Average(time: nat, count: nat): (a: int)
    ensures 0 <= a <= time && Quotient(a, time, count + 1)
  {
    DivIs(time, count + 1);
    AverageBound(time / (count + 1), time, count);
    time / (count + 1)
  }

  lemma AverageBound(a: int, time: nat, count: nat)
    requires Quotient(a, time, count + 1)
    ensures 0 <= a <= time
  {
    assert (count + 1) * -a == -(a * (count + 1));
    if a < 0 {
      MulGe(count + 1, -a);
    } else if a >= 1 {
      assert a * (count + 1) == a * count + a;
      assert a * count >= 0;
    }
  }

  lemma Listing(q: Rq, p: Ptr, r: Proc, k: nat)
    requires ListOk(q) && p > 1 && p !in q.list && ProcOk(r) && k <= |q.list|
    requires (forall i :: 0 <= i < k ==> q.proc[q.list[i]].prio >= r.prio) && (forall i :: k <= i < |q.list| ==> q.proc[q.list[i]].prio < r.prio)
    ensures ListOk(Rq(q.list[..k] + [p] + q.list[k..], q.proc[p := r]))
  {
    hide ProcOk;
    var q' := Rq(q.list[..k] + [p] + q.list[k..], q.proc[p := r]);
    forall i | 0 <= i < |q'.list|
      ensures q'.list[i] in q'.proc && q'.list[i] > 1 && ProcOk(q'.proc[q'.list[i]])
    {
      ListedThere(q.list, p, k, i);
    }
    forall i, j | 0 <= i < j < |q'.list|
      ensures q'.list[i] != q'.list[j] && q'.proc[q'.list[i]].prio >= q'.proc[q'.list[j]].prio
    {
      ListedThere(q.list, p, k, i);
      ListedThere(q.list, p, k, j);
    }
  }

  lemma ListedThere(l: seq<Ptr>, p: Ptr, k: nat, i: nat)
    requires k <= |l| && i <= |l|
    ensures (l[..k] + [p] + l[k..])[i] == if i < k then l[i] else if i == k then p else l[i - 1]
    ensures i < k ==> l[i] in l
    ensures i > k ==> l[i - 1] in l
  {
  }

  // A record changes, but not its priority.
  lemma Changed(q: Rq, p: Ptr, r: Proc)
    requires ListOk(q) && p in q.proc && ProcOk(r) && r.prio == q.proc[p].prio
    ensures ListOk(Rq(q.list, q.proc[p := r]))
  {
    hide ProcOk;
  }

  lemma NotInTree(es: seq<Ptr>, key: map<Ptr, int>, q: Rq, p: Ptr)
    requires Holds(es, key, q) && p !in q.list
    ensures p !in es
  {
  }

  lemma ListedAt(l: seq<Ptr>, p: Ptr, k: nat)
    requires k <= |l|
    ensures forall x :: x in l[..k] + [p] + l[k..] <==> x in l || x == p
  {
    assert l == l[..k] + l[k..];
  }
}
