/**
 * The timer list of kernel/proc.c: every timer keeps the number of ticks by which
 * it comes after the one before it.
 */
module Timers {
  import opened Common

  datatype Timer = Timer(id: int, expires: int)

  // The ticks until timer `id` fires.
  function Left(l: seq<Timer>, id: int): Option<int> {
    if l == [] then None
    else if l[0].id == id then Some(l[0].expires)
    else Later(Left(l[1..], id), l[0].expires)
  }

  function Later(o: Option<int>, d: int): Option<int> {
    if o.None? then None else Some(o.value + d)
  }

  // Between two ticks: deltas are not negative, the first is positive, and no timer is listed twice.
  ghost predicate Ok(l: seq<Timer>) {
    NonNeg(l) && Unique(l) && (l != [] ==> l[0].expires > 0)
  }

  ghost predicate NonNeg(l: seq<Timer>) {
    forall i :: 0 <= i < |l| ==> l[i].expires >= 0
  }

  ghost predicate Unique(l: seq<Timer>) {
    forall i, j :: 0 <= i < j < |l| ==> l[i].id != l[j].id
  }

  ghost predicate Has(l: seq<Timer>, id: int) {
    exists i :: 0 <= i < |l| && l[i].id == id
  }

  function Sum(l: seq<Timer>): int {
    if l == [] then 0 else l[0].expires + Sum(l[1..])
  }

  // A timer behind a prefix fires later by the sum of the prefix.
  lemma {:induction false} LeftJoin(a: seq<Timer>, b: seq<Timer>, id: int)
    ensures Left(a + b, id) == if Has(a, id) then Left(a, id) else Later(Left(b, id), Sum(a))
  {
    if a == [] {
      assert a + b == b;
    } else {
      LeftJoin(a[1..], b, id);
      assert (a + b)[1..] == a[1..] + b;
      assert Has(a, id) <==> a[0].id == id || Has(a[1..], id) by {
        if Has(a, id) {
          var i :| 0 <= i < |a| && a[i].id == id;
          assert i > 0 ==> a[1..][i - 1].id == id;
        }
        if Has(a[1..], id) {
          var i :| 0 <= i < |a| - 1 && a[1..][i].id == id;
          assert a[i + 1].id == id;
        }
      }
    }
  }

  lemma {:induction false} LeftHas(l: seq<Timer>, id: int)
    ensures Left(l, id).Some? <==> Has(l, id)
  {
    if l != [] {
      LeftHas(l[1..], id);
      if Has(l, id) {
        var i :| 0 <= i < |l| && l[i].id == id;
        assert i > 0 ==> l[1..][i - 1].id == id;
      }
      if Has(l[1..], id) {
        var i :| 0 <= i < |l| - 1 && l[1..][i].id == id;
        assert l[i + 1].id == id;
      }
    }
  }

  // Everybody on the list keeps the time it fires; `id` is new.
  ghost predicate Added(l: seq<Timer>, l': seq<Timer>, id: int, t: int) {
    forall x :: Left(l', x) == if x == id then Some(t) else Left(l, x)
  }

  class TimerList {
    var list: seq<Timer>

    constructor ()
      ensures list == [] && Ok(list)
    {
      list := [];
    }

    // add_timer: behind the timers that fire no later.  Nobody else's time changes.
    method Add(id: int, t0: nat)
      requires NonNeg(list) && Unique(list) && !Has(list, id)
      modifies this
      ensures NonNeg(list) && Unique(list) && Added(old(list), list, id, t0)
      ensures old(Ok(list)) && t0 > 0 ==> Ok(list)
      ensures old(Ok(list)) && t0 == 0 ==> list == [Timer(id, 0)] + old(list)
    {
      hide Left; hide Sum;
      var t, k := t0, 0;
      SumNone();
      ghost var l := list;
      while k < |list|
        invariant list == l && 0 <= k <= |list| && 0 <= t && t + Sum(l[..k]) == t0
        invariant (k == 0 ==> t == t0) && (old(Ok(list)) && t0 == 0 ==> k == 0)
      {
        if t < list[k].expires {
          break;
        }
        SumMore(l, k);
        t := t - list[k].expires;
        k := k + 1;
      }
      AddedAt(l, k, id, t);
      if k < |list| {
        list := list[k := list[k].(expires := list[k].expires - t)];
      }
      ghost var b := if k < |l| then [l[k].(expires := l[k].expires - t)] + l[k + 1..] else [];
      assert list[..k] == l[..k] && list[k..] == b;
      list := list[..k] + [Timer(id, t)] + list[k..];
    }

    // del_timer: the next timer takes over the ticks, so that nobody else's time changes.
    method Del(id: int)
      requires NonNeg(list) && Unique(list)
      modifies this
      ensures NonNeg(list) && Unique(list) && forall x :: Left(list, x) == if x == id then None else Left(old(list), x)
      ensures old(Ok(list)) ==> Ok(list)
    {
      hide Left; hide Sum;
      var k := 0;
      ghost var l := list;
      while k < |list| && list[k].id != id
        invariant list == l && 0 <= k <= |list| && forall i :: 0 <= i < k ==> list[i].id != id
      {
        k := k + 1;
      }
      if k == |list| {
        Absent(list, id);
        return;
      }
      RemovedAt(l, k, id);
      var d := list[k].expires;
      if d != 0 && k + 1 < |list| {
        list := list[k + 1 := list[k + 1].(expires := list[k + 1].expires + d)];
      }
      list := list[..k] + list[k + 1..];
      assert list == l[..k] + Behind(l, k);
    }

    /**
     * run_timer_list: one tick.  Exactly the timers whose time has come fire, and
     * all others have one tick less to go.  Only when the first timer has no ticks
     * left already, as one that was added for at once, the count stands still.
     */
    method Tick() returns (fired: seq<int>)
      requires NonNeg(list) && Unique(list)
      modifies this
      ensures Ok(list)
      ensures var l, step := old(list), if old(list) != [] && old(list)[0].expires == 0 then 0 else 1;
              forall x :: Left(list, x) == Ticked(Left(l, x), step) && (x in fired <==> Left(l, x) == Some(step))
    {
      hide Left;
      fired := [];
      if list == [] {
        LeftNone();
        return;
      }
      ghost var l, step := list, if list[0].expires == 0 then 0 else 1;
      OneOff(l, step);
      if list[0].expires > 0 {
        list := list[0 := list[0].(expires := list[0].expires - 1)];
      }
      ghost var l1 := list;
      assert l1 == l[0 := l[0].(expires := l[0].expires - step)];
      while list != [] && list[0].expires == 0
        invariant NonNeg(list) && Unique(list) && |fired| <= |l1| && list == l1[|fired|..]
        invariant forall i :: 0 <= i < |fired| ==> fired[i] == l1[i].id && l1[i].expires == 0
        decreases |list|
      {
        fired := fired + [list[0].id];
        list := list[1..];
      }
      ZerosGone(l1, |fired|);
      FiredAre(l1, fired);
      TickedAll(l, step, l1, list, fired);
    }
  }

  // The time left after `step` more ticks have been counted.
  function Ticked(o: Option<int>, step: int): Option<int> {
    if o.None? || o.value <= step then None else Some(o.value - step)
  }

  lemma LeftNone()
    ensures forall x :: Left([], x) == None
  {
  }

  lemma Absent(l: seq<Timer>, id: int)
    requires forall i :: 0 <= i < |l| ==> l[i].id != id
    ensures Left(l, id) == None
  {
    LeftHas(l, id);
  }

  // Taking `t` off the first delta takes `t` off every time.
  lemma Shifted(b: seq<Timer>, t: int, x: int)
    requires b != []
    ensures Left([b[0].(expires := b[0].expires - t)] + b[1..], x) == Later(Left(b, x), -t)
  {
    var b' := [b[0].(expires := b[0].expires - t)] + b[1..];
    assert b'[1..] == b[1..];
  }

  lemma AddedAt(l: seq<Timer>, k: nat, id: int, t: nat)
    requires NonNeg(l) && Unique(l) && !Has(l, id) && k <= |l| && (k < |l| ==> t < l[k].expires)
    ensures var b := if k < |l| then [l[k].(expires := l[k].expires - t)] + l[k + 1..] else [];
            var l' := l[..k] + [Timer(id, t)] + b;
            NonNeg(l') && Unique(l') && Added(l, l', id, Sum(l[..k]) + t)
  {
    hide Left; hide Sum;
    var a, c := l[..k], l[k..];
    var b := if k < |l| then [l[k].(expires := l[k].expires - t)] + l[k + 1..] else [];
    var l' := a + [Timer(id, t)] + b;
    forall x
      ensures Left(l', x) == if x == id then Some(Sum(a) + t) else Left(l, x)
    {
      assert l == a + c && l' == a + ([Timer(id, t)] + b);
      LeftJoin(a, c, x);
      LeftJoin(a, [Timer(id, t)] + b, x);
      LeftFirst(Timer(id, t), b, x);
      assert x == id ==> !Has(a, x);
      if k < |l| {
        Shifted(c, t, x);
        assert c[1..] == l[k + 1..];
      } else {
        LeftNone();
      }
    }
    assert forall i :: 0 <= i < |l| ==> l[i].id != id;
  }

  lemma LeftFirst(t: Timer, b: seq<Timer>, x: int)
    ensures Left([t] + b, x) == if x == t.id then Some(t.expires) else Later(Left(b, x), t.expires)
  {
    assert ([t] + b)[1..] == b;
  }

  // The timers behind the `k`-th, the next one with its ticks added.
  function Behind(l: seq<Timer>, k: nat): seq<Timer>
    requires k < |l|
  {
    if l[k].expires != 0 && k + 1 < |l| then [l[k + 1].(expires := l[k + 1].expires + l[k].expires)] + l[k + 2..]
    else l[k + 1..]
  }

  lemma RemovedAt(l: seq<Timer>, k: nat, id: int)
    requires NonNeg(l) && Unique(l) && k < |l| && l[k].id == id
    ensures var l' := l[..k] + Behind(l, k);
            && NonNeg(l') && Unique(l')
            && forall x :: Left(l', x) == if x == id then None else Left(l, x)
  {
    hide Left; hide Sum; hide Behind;
    BehindOk(l, k);
    var a, b, c := l[..k], Behind(l, k), l[k + 1..];
    assert l == a + ([l[k]] + c);
    forall x
      ensures Left(a + b, x) == if x == id then None else Left(l, x)
    {
      LeftJoin(a, [l[k]] + c, x);
      LeftJoin(a, b, x);
      LeftFirst(l[k], c, x);
      BehindLeft(l, k, x);
      Absent(c, id);
      assert x == id ==> !Has(a, x);
    }
  }

  lemma BehindOk(l: seq<Timer>, k: nat)
    requires NonNeg(l) && Unique(l) && k < |l|
    ensures NonNeg(l[..k] + Behind(l, k)) && Unique(l[..k] + Behind(l, k))
  {
  }

  lemma BehindLeft(l: seq<Timer>, k: nat, x: int)
    requires k < |l|
    ensures Left(Behind(l, k), x) == Later(Left(l[k + 1..], x), l[k].expires)
  {
    hide Left;
    var c := l[k + 1..];
    if c == [] {
      LeftNone();
    } else if l[k].expires != 0 {
      Shifted(c, -l[k].expires, x);
      assert c[1..] == l[k + 2..];
    }
  }

  // What the first timer loses, every timer loses.
  lemma OneOff(l: seq<Timer>, step: nat)
    requires NonNeg(l) && Unique(l) && l != [] && step <= l[0].expires
    ensures var l' := l[0 := l[0].(expires := l[0].expires - step)];
            NonNeg(l') && Unique(l') && forall x :: Left(l', x) == Later(Left(l, x), 0 - step)
  {
    var l' := l[0 := l[0].(expires := l[0].expires - step)];
    assert l' == [l[0].(expires := l[0].expires - step)] + l[1..];
    forall x
      ensures Left(l', x) == Later(Left(l, x), 0 - step)
    {
      Shifted(l, step, x);
    }
  }

  // The timers with no ticks left are the ones taken off.
  lemma {:induction false} ZerosGone(l: seq<Timer>, n: nat)
    requires NonNeg(l) && Unique(l) && n <= |l| && (forall i :: 0 <= i < n ==> l[i].expires == 0) && (n < |l| ==> l[n].expires > 0)
    ensures forall x :: Left(l[n..], x) == if Left(l, x) == Some(0) then None else Left(l, x)
    ensures forall x :: Left(l, x) == Some(0) <==> exists i :: 0 <= i < n && l[i].id == x
  {
    hide Left;
    forall x
      ensures Left(l[n..], x) == if Left(l, x) == Some(0) then None else Left(l, x)
      ensures Left(l, x) == Some(0) <==> exists i :: 0 <= i < n && l[i].id == x
    {
      ZeroOne(l, n, x);
    }
  }

  lemma {:induction false} ZeroOne(l: seq<Timer>, n: nat, x: int)
    requires NonNeg(l) && Unique(l) && n <= |l| && (forall i :: 0 <= i < n ==> l[i].expires == 0) && (n < |l| ==> l[n].expires > 0)
    ensures Left(l[n..], x) == if Left(l, x) == Some(0) then None else Left(l, x)
    ensures Left(l, x) == Some(0) <==> exists i :: 0 <= i < n && l[i].id == x
  {
    if n == 0 {
      assert l[0..] == l;
      LeftPositive(l, x);
    } else {
      ZeroOne(l[1..], n - 1, x);
      assert l[1..][n - 1..] == l[n..];
      if l[0].id == x {
        Absent(l[1..], x);
      } else if exists i :: 0 <= i < n && l[i].id == x {
        var i :| 0 <= i < n && l[i].id == x;
        assert l[1..][i - 1].id == x;
      }
    }
  }

  lemma {:induction false} LeftPositive(l: seq<Timer>, x: int)
    requires NonNeg(l)
    ensures Left(l, x).Some? ==> Left(l, x).value >= if l != [] then l[0].expires else 0
  {
    if l != [] {
      LeftPositive(l[1..], x);
    }
  }

  lemma FiredAre(l: seq<Timer>, fired: seq<int>)
    requires |fired| <= |l| && forall i :: 0 <= i < |fired| ==> fired[i] == l[i].id
    ensures forall x :: x in fired <==> exists i :: 0 <= i < |fired| && l[i].id == x
  {
  }

  lemma TickedAll(l: seq<Timer>, step: nat, l1: seq<Timer>, l2: seq<Timer>, fired: seq<int>)
    requires NonNeg(l) && l != [] && step <= l[0].expires && forall x :: Left(l1, x) == Later(Left(l, x), 0 - step)
    requires forall x :: Left(l2, x) == if Left(l1, x) == Some(0) then None else Left(l1, x)
    requires forall x :: x in fired <==> Left(l1, x) == Some(0)
    ensures forall x :: Left(l2, x) == Ticked(Left(l, x), step) && (x in fired <==> Left(l, x) == Some(step))
  {
    hide Left;
    forall x
      ensures Left(l2, x) == Ticked(Left(l, x), step) && (x in fired <==> Left(l, x) == Some(step))
    {
      LeftPositive(l, x);
    }
  }

  lemma SumNone()
    ensures Sum([]) == 0
  {
  }

  lemma {:induction false} SumMore(l: seq<Timer>, k: nat)
    requires k < |l|
    ensures Sum(l[..k + 1]) == Sum(l[..k]) + l[k].expires
    decreases k
  {
    if k > 0 {
      SumMore(l[1..], k - 1);
      assert l[..k + 1][1..] == l[1..][..k] && l[..k][1..] == l[1..][..k - 1];
    } else {
      assert l[..1][1..] == [] && l[..0] == [];
    }
  }

  datatype Event = AddEv(id: int, t: nat) | DelEv(id: int) | TickEv

  // The times left, as a map, after an event.
  ghost predicate Next(before: int -> Option<int>, e: Event, after: int -> Option<int>) {
    match e
    case AddEv(id, t) => forall x :: after(x) == if x == id && t > 0 then Some(t) else before(x)
    case DelEv(id) => forall x :: after(x) == if x == id then None else before(x)
    case TickEv => forall x :: after(x) == Ticked(before(x), 1)
  }

  ghost function Times(l: seq<Timer>): int -> Option<int> {
    x => Left(l, x)
  }

  /**
   * The events that happen to the list.  do_sleep, timer_func_add and
   * ipc_timer_init do not add a timer for no ticks at all, so the first delta
   * stays positive.  A timer that is added is not on the list yet.
   */
  method Perform(tl: TimerList, e: Event) returns (fired: seq<int>)
    requires Ok(tl.list) && Allowed(Times(tl.list), e)
    modifies tl
    ensures Ok(tl.list) && Next(Times(old(tl.list)), e, Times(tl.list))
    ensures forall x :: x in fired <==> e.TickEv? && Left(old(tl.list), x) == Some(1)
  {
    hide Left;
    fired := [];
    match e
    case AddEv(id, t) =>
      if t > 0 {
        LeftHas(tl.list, id);
        tl.Add(id, t);
      }
    case DelEv(id) => tl.Del(id);
    case TickEv => fired := tl.Tick();
  }

  ghost predicate Allowed(times: int -> Option<int>, e: Event) {
    e.AddEv? && e.t > 0 ==> times(e.id).None?
  }

  ghost function After(times: int -> Option<int>, e: Event): int -> Option<int> {
    match e
    case AddEv(id, t) => if t > 0 then x => if x == id then Some(t) else times(x) else times
    case DelEv(id) => x => if x == id then None else times(x)
    case TickEv => x => Ticked(times(x), 1)
  }

  // No event adds a timer that is on the list.
  ghost predicate AllAllowed(times: int -> Option<int>, es: seq<Event>) {
    es == [] || (Allowed(times, es[0]) && AllAllowed(After(times, es[0]), es[1..]))
  }

  // `fired` lists what fires at each event, and `h` the times between the events.
  ghost predicate Recorded(h: seq<int -> Option<int>>, es: seq<Event>, fired: seq<seq<int>>) {
    && History(h, es) && |fired| == |es|
    && forall j, x :: 0 <= j < |es| ==> (x in fired[j] <==> es[j].TickEv? && h[j](x) == Some(1))
  }

  // Every timer, on the list at the start or added later, fires on exactly the tick it was set for unless deleted before.
  ghost predicate OnTime(l: seq<Timer>, es: seq<Event>, fired: seq<seq<int>>) {
    && |fired| == |es|
    && (forall id, i :: 0 <= i < |es| && Has(l, id) && LeftAlone(es[..i], id) ==>
          (id in fired[i] <==> es[i].TickEv? && Left(l, id) == Some(Ticks(es[..i]) + 1)))
    && (forall k, i :: 0 <= k < i < |es| && es[k].AddEv? && es[k].t > 0 && LeftAlone(es[k + 1..i], es[k].id) ==>
          (es[k].id in fired[i] <==> es[i].TickEv? && es[k].t == Ticks(es[k + 1..i]) + 1))
  }

  // A run of any length: all timers fire on time.
  method Run(tl: TimerList, es: seq<Event>) returns (fired: seq<seq<int>>)
    requires Ok(tl.list) && AllAllowed(Times(tl.list), es)
    modifies tl
    ensures Ok(tl.list) && OnTime(old(tl.list), es, fired)
  {
    hide Left; hide Next; hide OnTime; hide Recorded; hide Ok; hide AllAllowed; hide Allowed; hide After; hide History;
    fired := [];
    ghost var h, now := [Times(tl.list)], Times(tl.list);
    var i := 0;
    assert es[0..] == es;
    RecordedNone(h);
    while i < |es|
      invariant 0 <= i <= |es| && Ok(tl.list) && Recorded(h, es[..i], fired) && |h| == i + 1 && h[0] == Times(old(tl.list))
      invariant h[i] == Times(tl.list) && (forall x :: now(x) == Left(tl.list, x)) && AllAllowed(now, es[i..])
    {
      AllowedStep(now, Times(tl.list), es, i);
      assert es[..i + 1] == es[..i] + [es[i]];
      ghost var before := tl.list;
      var f := Perform(tl, es[i]);
      AfterSame(now, Times(before), es[i], Times(tl.list));
      RecordedMore(h, es[..i], fired, es[i], Times(tl.list), f);
      now := After(now, es[i]);
      h := h + [Times(tl.list)];
      fired := fired + [f];
      i := i + 1;
    }
    assert es[..i] == es;
    AllOnTime(old(tl.list), h, es, fired);
  }

  lemma AllowedStep(now: int -> Option<int>, times: int -> Option<int>, es: seq<Event>, i: int)
    requires 0 <= i < |es| && AllAllowed(now, es[i..]) && forall x :: now(x) == times(x)
    ensures Allowed(times, es[i]) && AllAllowed(After(now, es[i]), es[i + 1..])
  {
    assert es[i..][0] == es[i] && es[i..][1..] == es[i + 1..];
  }

  lemma RecordedNone(h: seq<int -> Option<int>>)
    requires |h| == 1
    ensures Recorded(h, [], [])
  {
  }

  lemma RecordedMore(h: seq<int -> Option<int>>, es: seq<Event>, fired: seq<seq<int>>, e: Event, m: int -> Option<int>, f: seq<int>)
    requires Recorded(h, es, fired) && Next(h[|es|], e, m) && forall x :: x in f <==> e.TickEv? && h[|es|](x) == Some(1)
    ensures Recorded(h + [m], es + [e], fired + [f])
  {
    hide Next;
  }

  lemma AllOnTime(l: seq<Timer>, h: seq<int -> Option<int>>, es: seq<Event>, fired: seq<seq<int>>)
    requires Ok(l) && Recorded(h, es, fired) && h[0] == Times(l)
    ensures OnTime(l, es, fired)
  {
    hide Left; hide Next; hide LeftAlone; hide Ticks; hide Has;
    forall id, i | 0 <= i < |es| && Has(l, id) && LeftAlone(es[..i], id)
      ensures id in fired[i] <==> es[i].TickEv? && Left(l, id) == Some(Ticks(es[..i]) + 1)
    {
      LeftHas(l, id);
      LeftPositive(l, id);
      OnSome(l, id);
      assert es[0..i] == es[..i];
      Due(h, es, 0, i, id, Left(l, id).value);
    }
    forall k, i | 0 <= k < i < |es| && es[k].AddEv? && es[k].t > 0 && LeftAlone(es[k + 1..i], es[k].id)
      ensures es[k].id in fired[i] <==> es[i].TickEv? && es[k].t == Ticks(es[k + 1..i]) + 1
    {
      AddedTime(h[k], es[k], h[k + 1]);
      Due(h, es, k + 1, i, es[k].id, es[k].t);
    }
  }

  lemma OnSome(l: seq<Timer>, id: int)
    requires Has(l, id)
    ensures l != []
  {
  }

  lemma AfterSame(a: int -> Option<int>, b: int -> Option<int>, e: Event, c: int -> Option<int>)
    requires (forall x :: a(x) == b(x)) && Next(b, e, c)
    ensures forall x :: After(a, e)(x) == c(x)
  {
  }

  lemma AddedTime(a: int -> Option<int>, e: Event, b: int -> Option<int>)
    requires Next(a, e, b) && e.AddEv? && e.t > 0
    ensures b(e.id) == Some(e.t)
  {
  }

  // When a timer with `t` ticks to go before event `k` has one tick to go before event `i`.
  lemma Due(h: seq<int -> Option<int>>, es: seq<Event>, k: int, i: int, id: int, t: int)
    requires 0 <= k <= i < |es| && History(h, es)
    requires h[k](id) == Some(t) && t > 0 && LeftAlone(es[k..i], id)
    ensures h[i](id) == Some(1) <==> Ticks(es[k..i]) + 1 == t
  {
    hide Next; hide LeftAlone; hide Ticks;
    FiresOnTime(h[k..i + 1], es[k..i], id, t);
  }

  function Ticks(es: seq<Event>): nat {
    if es == [] then 0 else (if es[0].TickEv? then 1 else 0) + Ticks(es[1..])
  }

  // Timer `id` is neither added again nor deleted.
  ghost predicate LeftAlone(es: seq<Event>, id: int) {
    forall i :: 0 <= i < |es| ==> es[i] != DelEv(id) && !(es[i].AddEv? && es[i].id == id)
  }

  // The times before and after each event of a run.
  ghost predicate History(h: seq<int -> Option<int>>, es: seq<Event>) {
    |h| == |es| + 1 && forall i :: 0 <= i < |es| ==> Next(h[i], es[i], h[i + 1])
  }

  /**
   * A timer with `t` ticks to go fires on exactly the t-th tick from now, whatever
   * else is added or deleted: before that it has t less the ticks so far to go,
   * and afterwards it is gone.
   */
  lemma {:induction false} FiresOnTime(h: seq<int -> Option<int>>, es: seq<Event>, id: int, t: int)
    requires History(h, es) && h[0](id) == Some(t) && t > 0 && LeftAlone(es, id)
    ensures h[|es|](id) == if Ticks(es) < t then Some(t - Ticks(es)) else None
  {
    if es != [] {
      var rest := es[1..];
      assert Next(h[0], es[0], h[1]);
      assert es[0] != DelEv(id) && !(es[0].AddEv? && es[0].id == id);
      assert History(h[1..], rest) by {
        forall i | 0 <= i < |rest|
          ensures Next(h[1..][i], rest[i], h[1..][i + 1])
        {
          assert Next(h[i + 1], es[i + 1], h[i + 2]);
        }
      }
      assert LeftAlone(rest, id);
      if es[0].TickEv? && t == 1 {
        StaysGone(h[1..], rest, id);
      } else {
        FiresOnTime(h[1..], rest, id, if es[0].TickEv? then t - 1 else t);
      }
    }
  }

  lemma {:induction false} StaysGone(h: seq<int -> Option<int>>, es: seq<Event>, id: int)
    requires History(h, es) && h[0](id) == None && LeftAlone(es, id)
    ensures h[|es|](id) == None
  {
    if es != [] {
      var rest := es[1..];
      assert Next(h[0], es[0], h[1]);
      assert es[0] != DelEv(id) && !(es[0].AddEv? && es[0].id == id);
      assert History(h[1..], rest) by {
        forall i | 0 <= i < |rest|
          ensures Next(h[1..][i], rest[i], h[1..][i + 1])
        {
          assert Next(h[i + 1], es[i + 1], h[i + 2]);
        }
      }
      assert LeftAlone(rest, id);
      StaysGone(h[1..], rest, id);
    }
  }
}
