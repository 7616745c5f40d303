/**
 * Kernel semaphores: up, down and try_down of syn/sem.c without a timer, with
 * the wait queue of syn/wait.c and the sleeping and waking of kernel/proc.c.
 * Every process takes one step at a time, between any steps of the others.
 */
module Semaphore {
  import opened Common

  // Where a process is.
  datatype Pc =
    | Idle
    | DownLock              // __down: acquire(&sem->sem_lock)
    | DownTest              // takes a unit, or joins the wait queue
    | DownSleep             // sleeping: acquire(&p->lock)
    | DownUnlock            // sleeping: release(lk)
    | DownSwitch            // sleeping: state = SLEEPING, and sched() gives up p->lock
    | Off                   // not running until made RUNNABLE and scheduled, with p->lock
    | DownWoken             // sleeping: release(&p->lock)
    | DownRelock            // sleeping: acquire(lk)
    | DownReturn            // wait_current_del and release
    | TryLock
    | TryTest
    | UpLock                // __up: acquire(&sem->sem_lock)
    | UpTest                // adds a unit, or takes the first waiter from the queue
    | UpWake(q: int)        // wakeup_proc: acquire(&proc->lock)
    | UpMark(q: int)        // wakeup_proc: makes it RUNNABLE if it sleeps, and release
    | UpReturn              // release(&sem->sem_lock)

  datatype Cmd = Down | TryDown | Up

  datatype Sem = Sem(
    value: int,
    queue: seq<int>,
    semLock: Option<int>,
    procLock: map<int, int>,  // who holds the lock of a process
    pc: map<int, Pc>,
    sleeping: set<int>,       // state is SLEEPING, with the process itself as channel
    waiting: set<int>,        // wait_state is set
    granted: set<int>,        // wakeup_flags is set, and down has not returned yet
    // History: units given back, units obtained, and who joined the queue and was served, in order.
    ups: int,
    downs: int,
    arrivals: seq<int>,
    served: seq<int>,
    holders: multiset<int>)

  function At(pc: map<int, Pc>, p: int): Pc {
    if p in pc then pc[p] else Idle
  }

  function Go(s: Sem, p: int, c: Pc): (s': Sem)
    ensures forall r :: At(s'.pc, r) == if r == p then c else At(s.pc, r)
  {
    s.(pc := s.pc[p := c])
  }

  predicate Locked(s: Sem, q: int) {
    q in s.procLock
  }

  // sem_init
  function Init(value: int): Sem {
    Sem(value, [], None, map[], map[], {}, {}, {}, 0, 0, [], [], multiset{})
  }

  function First(c: Cmd): Pc {
    match c case Down => DownLock case TryDown => TryLock case Up => UpLock
  }

  ghost predicate Moved(s: Sem, s': Sem, p: int, c: Pc) {
    forall r :: At(s'.pc, r) == if r == p then c else At(s.pc, r)
  }

  // The step leaves the units in use alone, obtains one, or gives one back.
  ghost predicate Use(s: Sem, s': Sem) {
    s'.holders == s.holders && s'.downs == s.downs && s'.ups == s.ups
  }

  ghost predicate Gains(s: Sem, s': Sem, p: int) {
    s'.holders == s.holders + multiset{p} && s'.downs == s.downs + 1 && s'.ups == s.ups
  }

  ghost predicate Gives(s: Sem, s': Sem, p: int) {
    s'.holders == s.holders - multiset{p} && s'.downs == s.downs && s'.ups == s.ups + 1
  }

  function Start(s: Sem, p: int, c: Cmd): (s': Sem)
    ensures Moved(s, s', p, First(c)) && Use(s, s')
  {
    Go(s, p, First(c))
  }

  function TakeSem(s: Sem, p: int, next: Pc): (s': Sem)
    ensures Moved(s, s', p, next) && Use(s, s')
  {
    Go(s.(semLock := Some(p)), p, next)
  }

  function GiveSem(s: Sem, p: int, next: Pc): (s': Sem)
    ensures Moved(s, s', p, next) && Use(s, s')
  {
    Go(s.(semLock := None), p, next)
  }

  // A unit is there, and is taken.
  function Gain(s: Sem, p: int): (s': Sem)
    ensures Moved(s, s', p, Idle) && Gains(s, s', p)
  {
    Go(s.(value := s.value - 1, semLock := None, downs := s.downs + 1, holders := s.holders + multiset{p}), p, Idle)
  }

  // wait_current_set
  function Join(s: Sem, p: int): (s': Sem)
    ensures Moved(s, s', p, DownSleep) && Use(s, s')
  {
    Go(s.(queue := s.queue + [p], waiting := s.waiting + {p}, arrivals := s.arrivals + [p]), p, DownSleep)
  }

  function TakeOwn(s: Sem, p: int, next: Pc): (s': Sem)
    ensures Moved(s, s', p, next) && Use(s, s')
  {
    Go(s.(procLock := s.procLock[p := p]), p, next)
  }

  function GiveOwn(s: Sem, p: int): (s': Sem)
    ensures Moved(s, s', p, DownRelock) && Use(s, s')
  {
    Go(s.(procLock := s.procLock - {p}), p, DownRelock)
  }

  function Sleep(s: Sem, p: int): (s': Sem)
    ensures Moved(s, s', p, Off) && Use(s, s')
  {
    Go(s.(sleeping := s.sleeping + {p}, procLock := s.procLock - {p}), p, Off)
  }

  // The end of __down after sleeping: the waiter has its unit.
  function Return(s: Sem, p: int): (s': Sem)
    ensures Moved(s, s', p, Idle) && Gains(s, s', p)
  {
    Go(s.(queue := Without(s.queue, p), semLock := None, granted := s.granted - {p}, downs := s.downs + 1,
          holders := s.holders + multiset{p}), p, Idle)
  }

  function AddUnit(s: Sem, p: int): (s': Sem)
    ensures Moved(s, s', p, UpReturn) && Gives(s, s', p)
  {
    Go(s.(value := s.value + 1, ups := s.ups + 1, holders := s.holders - multiset{p}), p, UpReturn)
  }

  // The first waiter leaves the queue, with wakeup_flags set.
  function Serve(s: Sem, p: int): (s': Sem)
    requires s.queue != []
    ensures Moved(s, s', p, UpWake(s.queue[0])) && Gives(s, s', p)
  {
    var q := s.queue[0];
    Go(s.(queue := s.queue[1..], granted := s.granted + {q}, served := s.served + [q], ups := s.ups + 1,
          holders := s.holders - multiset{p}), p, UpWake(q))
  }

  function TakeOther(s: Sem, p: int, q: int): (s': Sem)
    ensures Moved(s, s', p, UpMark(q)) && Use(s, s')
  {
    Go(s.(procLock := s.procLock[q := p]), p, UpMark(q))
  }

  // wakeup_proc
  function Mark(s: Sem, p: int, q: int): (s': Sem)
    ensures Moved(s, s', p, UpReturn) && Use(s, s')
  {
    var waiting := if q in s.sleeping then s.waiting - {q} else s.waiting;
    Go(s.(sleeping := s.sleeping - {q}, waiting := waiting, procLock := s.procLock - {q}), p, UpReturn)
  }

  // One step of process `p`; `c` is what it wants to do next when it is idle.  A step that has to wait changes nothing.
  function Do(s: Sem, p: int, c: Cmd): Sem {
    match At(s.pc, p)
    case Idle => Start(s, p, c)
    case DownLock => if s.semLock.None? then TakeSem(s, p, DownTest) else s
    case DownTest => if s.value > 0 then Gain(s, p) else Join(s, p)
    case DownSleep => if Locked(s, p) then s else TakeOwn(s, p, DownUnlock)
    case DownUnlock => GiveSem(s, p, DownSwitch)
    case DownSwitch => Sleep(s, p)
    case Off => if p in s.sleeping || Locked(s, p) then s else TakeOwn(s, p, DownWoken)
    case DownWoken => GiveOwn(s, p)
    case DownRelock => if s.semLock.None? then TakeSem(s, p, DownReturn) else s
    case DownReturn => Return(s, p)
    case TryLock => if s.semLock.None? then TakeSem(s, p, TryTest) else s
    case TryTest => if s.value > 0 then Gain(s, p) else GiveSem(s, p, Idle)
    case UpLock => if s.semLock.None? then TakeSem(s, p, UpTest) else s
    case UpTest => if s.queue == [] then AddUnit(s, p) else Serve(s, p)
    case UpWake(q) => if Locked(s, q) then s else TakeOther(s, p, q)
    case UpMark(q) => Mark(s, p, q)
    case UpReturn => GiveSem(s, p, Idle)
  }

  // Who has the lock of the semaphore, and who has the lock of process `q`.
  predicate InSem(c: Pc) {
    c.DownTest? || c.DownSleep? || c.DownUnlock? || c.DownReturn? || c.TryTest? || c.UpTest? || c.UpWake? || c.UpMark? || c.UpReturn?
  }

  predicate InOwn(c: Pc) {
    c.DownUnlock? || c.DownSwitch? || c.DownWoken?
  }

  predicate Wakes(c: Pc, q: int) {
    c == UpWake(q) || c == UpMark(q)
  }

  predicate OnTheWay(c: Pc) {
    c.DownSleep? || c.DownUnlock? || c.DownSwitch? || c.Off?
  }

  predicate Woken(c: Pc) {
    c.DownWoken? || c.DownRelock? || c.DownReturn?
  }

  // A place that says nothing about waiting and waking.
  predicate Neutral(c: Pc) {
    !OnTheWay(c) && !Woken(c) && !c.UpWake? && !c.UpMark?
  }

  // Process `p`, at `c`, has the lock of `q`.
  predicate Owns(c: Pc, p: int, q: int) {
    c == UpMark(q) || (InOwn(c) && p == q)
  }

  predicate Holds(procLock: map<int, int>, q: int, p: int) {
    q in procLock && procLock[q] == p
  }

  // The locks are held by the processes whose place says so.
  ghost predicate Locks(s: Sem) {
    && (forall p :: InSem(At(s.pc, p)) <==> s.semLock == Some(p))
    && (forall p, q :: Owns(At(s.pc, p), p, q) <==> Holds(s.procLock, q, p))
  }

  // A process in the queue is on its way to sleep, or asleep.
  ghost predicate Queued(s: Sem) {
    && (forall i :: 0 <= i < |s.queue| ==> InQueue(s, s.queue[i]))
    && (forall i, j :: 0 <= i < j < |s.queue| ==> s.queue[i] != s.queue[j])
  }

  ghost predicate InQueue(s: Sem, p: int) {
    p !in s.granted && p in s.waiting && OnTheWay(At(s.pc, p)) && (At(s.pc, p).Off? ==> p in s.sleeping)
  }

  // A process that has been served is on its way back, or the one that serves it still has to wake it.
  ghost predicate Served(s: Sem) {
    && (forall p :: p in s.granted ==> Back(s, p))
    && (forall p, q :: Wakes(At(s.pc, p), q) ==> q in s.granted && (At(s.pc, q).DownSwitch? || (At(s.pc, q).Off? && q in s.sleeping)))
    && (forall p :: p in s.sleeping ==> At(s.pc, p).Off?)
    && (forall p :: Woken(At(s.pc, p)) || (At(s.pc, p).Off? && p !in s.sleeping) ==> p in s.granted)
    && (forall p :: OnTheWay(At(s.pc, p)) && p !in s.granted ==> p in s.queue)
  }

  ghost predicate Back(s: Sem, p: int) {
    && (At(s.pc, p).DownSwitch? || At(s.pc, p).Off? || Woken(At(s.pc, p)))
    && (At(s.pc, p).DownSwitch? || p in s.sleeping ==> s.semLock.Some? && Wakes(At(s.pc, s.semLock.value), p))
  }

  // No unit is lost or made up, nobody waits while there are units, and the queue is served in order.
  ghost predicate Books(s: Sem, init: int) {
    && init + s.ups == s.value + s.downs + |s.granted|
    && s.value >= 0 && (s.value > 0 ==> s.queue == [])
    && s.arrivals == s.served + s.queue
  }

  ghost predicate Inv(s: Sem, init: int) {
    Locks(s) && Queued(s) && Served(s) && Books(s, init)
  }

  lemma InitOk(init: int)
    requires init >= 0
    ensures Inv(Init(init), init)
  {
  }

  // Steps that take or give back the lock of the semaphore, or neither.
  lemma SemLock(s: Sem, s': Sem, p: int)
    requires Locks(s) && s'.procLock == s.procLock && (forall r :: r != p ==> At(s'.pc, r) == At(s.pc, r))
    requires forall q :: Owns(At(s'.pc, p), p, q) == Owns(At(s.pc, p), p, q)
    requires if InSem(At(s'.pc, p)) then s'.semLock == Some(p) && (InSem(At(s.pc, p)) || s.semLock.None?)
             else if InSem(At(s.pc, p)) then s'.semLock == None else s'.semLock == s.semLock
    ensures Locks(s')
  {
    hide InSem; hide Owns;
  }

  // Steps that take or give back the lock of a process.
  lemma ProcLock(s: Sem, s': Sem, p: int, q: int)
    requires Locks(s) && s'.semLock == s.semLock && InSem(At(s'.pc, p)) == InSem(At(s.pc, p))
    requires forall r :: r != p ==> At(s'.pc, r) == At(s.pc, r)
    requires var after := Owns(At(s'.pc, p), p, q);
             && after != Owns(At(s.pc, p), p, q) && (after ==> !Locked(s, q))
             && s'.procLock == if after then s.procLock[q := p] else s.procLock - {q}
    requires forall q' :: q' != q ==> Owns(At(s.pc, p), p, q') == Owns(At(s'.pc, p), p, q')
    ensures Locks(s')
  {
    hide InSem; hide Owns;
    forall r, q'
      ensures Owns(At(s'.pc, r), r, q') <==> Holds(s'.procLock, q', r)
    {
      assert Owns(At(s.pc, r), r, q') <==> Holds(s.procLock, q', r);
      assert Owns(At(s.pc, p), p, q') <==> Holds(s.procLock, q', p);
    }
  }

  lemma HasSem(s: Sem, p: int)
    requires Locks(s)
    ensures InSem(At(s.pc, p)) <==> s.semLock == Some(p)
  {
  }

  ghost predicate Waiters(s: Sem) {
    Queued(s) && Served(s)
  }

  // Steps of a process that neither waits nor wakes.
  lemma NeutralStep(s: Sem, s': Sem, p: int)
    requires Waiters(s) && s'.queue == s.queue && s'.granted == s.granted && s'.waiting == s.waiting && s'.sleeping == s.sleeping
    requires Neutral(At(s.pc, p)) && Neutral(At(s'.pc, p)) && forall r :: r != p ==> At(s'.pc, r) == At(s.pc, r)
    requires s'.semLock == s.semLock || s.semLock.None? || s.semLock == Some(p)
    ensures Waiters(s')
  {
    forall r | r in s.granted
      ensures Back(s', r)
    {
      assert Back(s, r);
    }
    forall i | 0 <= i < |s.queue|
      ensures InQueue(s', s.queue[i])
    {
      assert InQueue(s, s.queue[i]);
    }
  }

  // Steps of a process that has been woken, and of one on its way to sleep: only its place and the locks change.
  lemma WokenStep(s: Sem, s': Sem, p: int)
    requires Waiters(s) && s'.queue == s.queue && s'.granted == s.granted && s'.waiting == s.waiting && s'.sleeping == s.sleeping
    requires (Woken(At(s.pc, p)) || (At(s.pc, p).Off? && p !in s.sleeping)) && Woken(At(s'.pc, p))
    requires (forall r :: r != p ==> At(s'.pc, r) == At(s.pc, r)) && (s'.semLock == s.semLock || s.semLock.None?)
    ensures Waiters(s')
  {
    forall r | r in s.granted
      ensures Back(s', r)
    {
      assert Back(s, r);
    }
    forall i | 0 <= i < |s.queue|
      ensures InQueue(s', s.queue[i])
    {
      assert InQueue(s, s.queue[i]);
    }
  }

  lemma WayStep(s: Sem, s': Sem, p: int)
    requires Waiters(s) && s'.queue == s.queue && s'.granted == s.granted && s'.waiting == s.waiting && s'.sleeping == s.sleeping
    requires At(s.pc, p).DownSleep? || At(s.pc, p).DownUnlock?
    requires At(s'.pc, p).DownUnlock? || At(s'.pc, p).DownSwitch?
    requires s.semLock == Some(p) && forall r :: r != p ==> At(s'.pc, r) == At(s.pc, r)
    ensures Waiters(s')
  {
    NoneToWake(s, p);
    forall r | r in s.granted
      ensures Back(s', r)
    {
      assert Back(s, r);
    }
    forall i | 0 <= i < |s.queue|
      ensures InQueue(s', s.queue[i])
    {
      assert InQueue(s, s.queue[i]);
    }
  }

  lemma JoinWaiters(s: Sem, s': Sem, p: int)
    requires Waiters(s) && s'.queue == s.queue + [p] && s'.granted == s.granted && s'.waiting == s.waiting + {p} && s'.sleeping == s.sleeping
    requires Neutral(At(s.pc, p)) && At(s'.pc, p).DownSleep? && s'.semLock == s.semLock
    requires forall r :: r != p ==> At(s'.pc, r) == At(s.pc, r)
    ensures Waiters(s')
  {
    assert p in s.granted ==> Back(s, p);
    forall r | r in s.granted
      ensures Back(s', r)
    {
      assert Back(s, r);
    }
    forall i | 0 <= i < |s.queue|
      ensures InQueue(s', s.queue[i]) && s.queue[i] != p
    {
      assert InQueue(s, s.queue[i]);
    }
  }

  lemma SleepWaiters(s: Sem, s': Sem, p: int)
    requires Waiters(s) && s'.queue == s.queue && s'.granted == s.granted && s'.waiting == s.waiting && s'.sleeping == s.sleeping + {p}
    requires At(s.pc, p).DownSwitch? && At(s'.pc, p).Off? && s'.semLock == s.semLock
    requires forall r :: r != p ==> At(s'.pc, r) == At(s.pc, r)
    ensures Waiters(s')
  {
    forall r | r in s.granted
      ensures Back(s', r)
    {
      assert Back(s, r);
    }
    forall i | 0 <= i < |s.queue|
      ensures InQueue(s', s.queue[i])
    {
      assert InQueue(s, s.queue[i]);
    }
  }

  lemma WakingStep(s: Sem, s': Sem, p: int, q: int)
    requires Waiters(s) && s'.queue == s.queue && s'.granted == s.granted && s'.waiting == s.waiting && s'.sleeping == s.sleeping
    requires At(s.pc, p) == UpWake(q) && At(s'.pc, p) == UpMark(q) && s'.semLock == s.semLock == Some(p)
    requires forall r :: r != p ==> At(s'.pc, r) == At(s.pc, r)
    ensures Waiters(s')
  {
    assert Wakes(At(s.pc, p), q);
    forall r | r in s.granted
      ensures Back(s', r)
    {
      assert Back(s, r);
    }
    forall i | 0 <= i < |s.queue|
      ensures InQueue(s', s.queue[i])
    {
      assert InQueue(s, s.queue[i]);
    }
  }

  // A process that holds the lock and wakes nobody: nobody is served and still asleep.
  lemma NoneToWake(s: Sem, p: int)
    requires Served(s) && s.semLock == Some(p) && !At(s.pc, p).UpWake? && !At(s.pc, p).UpMark?
    ensures forall r :: r in s.granted ==> !At(s.pc, r).DownSwitch? && r !in s.sleeping
    ensures forall r, q :: !Wakes(At(s.pc, r), q)
  {
    forall r | r in s.granted
      ensures !At(s.pc, r).DownSwitch? && r !in s.sleeping
    {
      assert Back(s, r);
    }
    forall r, q
      ensures !Wakes(At(s.pc, r), q)
    {
      assert Wakes(At(s.pc, r), q) ==> q in s.granted && (At(s.pc, q).DownSwitch? || q in s.sleeping);
    }
  }

  lemma ReturnServed(s: Sem, s': Sem, p: int)
    requires Waiters(s) && At(s.pc, p).DownReturn? && s'.queue == s.queue && s'.waiting == s.waiting && s'.sleeping == s.sleeping
    requires s'.granted == s.granted - {p} && s'.pc == s.pc[p := Idle] && s.semLock == Some(p) && s'.semLock.None?
    ensures Waiters(s')
  {
    NoneToWake(s, p);
    assert forall r :: At(s'.pc, r) == if r == p then Idle else At(s.pc, r);
    forall r | r in s'.granted
      ensures Back(s', r)
    {
      assert Back(s, r);
    }
    forall i | 0 <= i < |s.queue|
      ensures InQueue(s', s.queue[i])
    {
      assert InQueue(s, s.queue[i]);
    }
  }

  lemma ServeQueued(s: Sem, s': Sem, p: int)
    requires Queued(s) && s.queue != [] && s'.queue == s.queue[1..] && s'.granted == s.granted + {s.queue[0]}
    requires s'.waiting == s.waiting && s'.sleeping == s.sleeping && Neutral(At(s.pc, p))
    requires forall r :: At(s'.pc, r) == if r == p then UpWake(s.queue[0]) else At(s.pc, r)
    ensures Queued(s')
  {
    forall i | 0 <= i < |s'.queue|
      ensures InQueue(s', s'.queue[i])
    {
      assert InQueue(s, s.queue[i + 1]);
    }
  }

  lemma ServeServed(s: Sem, s': Sem, p: int)
    requires Served(s) && s.queue != [] && s'.queue == s.queue[1..] && s'.granted == s.granted + {s.queue[0]}
    requires s'.sleeping == s.sleeping && s'.semLock == Some(p) && Neutral(At(s.pc, p))
    requires forall r :: At(s'.pc, r) == if r == p then UpWake(s.queue[0]) else At(s.pc, r)
    requires At(s.pc, s.queue[0]).DownSwitch? || (At(s.pc, s.queue[0]).Off? && s.queue[0] in s.sleeping)
    requires (forall r :: r in s.granted ==> !At(s.pc, r).DownSwitch? && r !in s.sleeping) && forall r, q :: !Wakes(At(s.pc, r), q)
    ensures Served(s')
  {
    ServeClauses(s, s', p);
    hide Back; hide Neutral; hide OnTheWay; hide Woken; hide Wakes;
    var q := s.queue[0];
    forall r | r in s'.granted
      ensures Back(s', r)
    {
      if r == q {
        ServedBack(s, s', p);
      } else {
        OthersBack(s, s', p, r);
      }
    }
  }

  lemma ServeClauses(s: Sem, s': Sem, p: int)
    requires Served(s) && s.queue != [] && s'.queue == s.queue[1..] && s'.granted == s.granted + {s.queue[0]}
    requires s'.sleeping == s.sleeping && Neutral(At(s.pc, p))
    requires forall r :: At(s'.pc, r) == if r == p then UpWake(s.queue[0]) else At(s.pc, r)
    requires At(s.pc, s.queue[0]).DownSwitch? || (At(s.pc, s.queue[0]).Off? && s.queue[0] in s.sleeping)
    requires forall r, q :: !Wakes(At(s.pc, r), q)
    ensures forall r, q :: Wakes(At(s'.pc, r), q) ==> q in s'.granted && (At(s'.pc, q).DownSwitch? || (At(s'.pc, q).Off? && q in s'.sleeping))
    ensures forall r :: r in s'.sleeping ==> At(s'.pc, r).Off?
    ensures forall r :: Woken(At(s'.pc, r)) || (At(s'.pc, r).Off? && r !in s'.sleeping) ==> r in s'.granted
    ensures forall r :: OnTheWay(At(s'.pc, r)) && r !in s'.granted ==> r in s'.queue
  {
    hide Back;
    assert s.queue == [s.queue[0]] + s.queue[1..];
  }

  lemma ServedBack(s: Sem, s': Sem, p: int)
    requires s.queue != [] && s'.semLock == Some(p) && Neutral(At(s.pc, p))
    requires forall r :: At(s'.pc, r) == if r == p then UpWake(s.queue[0]) else At(s.pc, r)
    requires At(s.pc, s.queue[0]).DownSwitch? || At(s.pc, s.queue[0]).Off?
    ensures Back(s', s.queue[0])
  {
  }

  lemma OthersBack(s: Sem, s': Sem, p: int, r: int)
    requires Back(s, r) && r !in s.sleeping && !At(s.pc, r).DownSwitch? && s'.sleeping == s.sleeping
    requires Neutral(At(s.pc, p)) && forall x :: x != p ==> At(s'.pc, x) == At(s.pc, x)
    ensures Back(s', r)
  {
  }

  lemma MarkQueued(s: Sem, s': Sem, p: int, q: int)
    requires Queued(s) && At(s.pc, p) == UpMark(q) && q in s.granted
    requires s'.queue == s.queue && s'.granted == s.granted && s'.waiting == s.waiting - {q} && s'.sleeping == s.sleeping - {q}
    requires forall r :: r != p ==> At(s'.pc, r) == At(s.pc, r)
    ensures Queued(s')
  {
    forall i | 0 <= i < |s.queue|
      ensures InQueue(s', s.queue[i])
    {
      assert InQueue(s, s.queue[i]);
    }
  }

  lemma MarkServed(s: Sem, s': Sem, p: int, q: int)
    requires Served(s) && s.semLock == s'.semLock == Some(p) && At(s.pc, p) == UpMark(q) && At(s.pc, q).Off? && q in s.granted
    requires s'.queue == s.queue && s'.granted == s.granted && s'.sleeping == s.sleeping - {q}
    requires At(s'.pc, p).UpReturn? && forall r :: r != p ==> At(s'.pc, r) == At(s.pc, r)
    requires forall r, q' :: Wakes(At(s.pc, r), q') ==> r == p
    ensures Served(s')
  {
    hide Queued;
    forall r | r in s.granted
      ensures Back(s', r)
    {
      assert Back(s, r);
    }
    forall r, q'
      ensures !Wakes(At(s'.pc, r), q')
    {
      assert r != p ==> At(s'.pc, r) == At(s.pc, r);
    }
  }

  lemma WokenGranted(s: Sem, p: int)
    requires Served(s) && Woken(At(s.pc, p))
    ensures p in s.granted
  {
  }

  lemma FirstQueued(s: Sem)
    requires Queued(s) && s.queue != []
    ensures InQueue(s, s.queue[0])
  {
  }

  // Who is being made RUNNABLE is asleep by then, since the waker has the lock under which it went to sleep.
  lemma MarkFacts(s: Sem, p: int, q: int)
    requires Locks(s) && Served(s) && At(s.pc, p) == UpMark(q)
    ensures q in s.granted && At(s.pc, q).Off? && q in s.sleeping
  {
    assert Owns(At(s.pc, p), p, q) && Wakes(At(s.pc, p), q);
    assert At(s.pc, q).DownSwitch? ==> Owns(At(s.pc, q), q, q);
  }

  lemma OneWaker(s: Sem, p: int)
    requires Locks(s) && s.semLock == Some(p)
    ensures forall r, q :: Wakes(At(s.pc, r), q) ==> r == p
  {
  }

  lemma NotQueued(s: Sem, p: int)
    requires Queued(s) && p in s.granted
    ensures p !in s.queue && Without(s.queue, p) == s.queue
  {
    assert forall i :: 0 <= i < |s.queue| ==> InQueue(s, s.queue[i]);
    WithoutNone(s.queue, p);
  }

  ghost predicate Is(s: Sem, init: int, p: int, a: Pc) {
    Inv(s, init) && At(s.pc, p) == a
  }

  lemma StartKeeps(s: Sem, init: int, p: int, c: Cmd)
    requires Is(s, init, p, Idle)
    ensures Inv(Start(s, p, c), init)
  {
    hide Locks; hide Queued; hide Served; hide Without;
    SemLock(s, Start(s, p, c), p);
    NeutralStep(s, Start(s, p, c), p);
  }

  lemma TakeSemKeeps(s: Sem, init: int, p: int, next: Pc)
    requires Inv(s, init) && s.semLock.None?
    requires var a := At(s.pc, p);
             || (a == DownLock && next == DownTest) || (a == DownRelock && next == DownReturn)
             || (a == TryLock && next == TryTest) || (a == UpLock && next == UpTest)
    ensures Inv(TakeSem(s, p, next), init)
  {
    hide Locks; hide Queued; hide Served; hide Without;
    var s' := TakeSem(s, p, next);
    SemLock(s, s', p);
    if Neutral(next) {
      NeutralStep(s, s', p);
    } else {
      WokenStep(s, s', p);
    }
  }

  lemma GiveSemKeeps(s: Sem, init: int, p: int, next: Pc)
    requires Inv(s, init)
    requires var a := At(s.pc, p); (a == DownUnlock && next == DownSwitch) || (a == TryTest && next == Idle) || (a == UpReturn && next == Idle)
    ensures Inv(GiveSem(s, p, next), init)
  {
    hide Locks; hide Queued; hide Served; hide Without;
    var s' := GiveSem(s, p, next);
    HasSem(s, p);
    SemLock(s, s', p);
    if next.Idle? {
      NeutralStep(s, s', p);
    } else {
      NoneToWake(s, p);
      WayStep(s, s', p);
    }
  }

  lemma GainKeeps(s: Sem, init: int, p: int)
    requires Inv(s, init) && s.value > 0 && (At(s.pc, p).DownTest? || At(s.pc, p).TryTest?)
    ensures Inv(Gain(s, p), init)
  {
    hide Locks; hide Queued; hide Served; hide Without;
    HasSem(s, p);
    SemLock(s, Gain(s, p), p);
    NeutralStep(s, Gain(s, p), p);
  }

  lemma JoinKeeps(s: Sem, init: int, p: int)
    requires Is(s, init, p, DownTest) && s.value <= 0
    ensures Inv(Join(s, p), init)
  {
    hide Locks; hide Queued; hide Served; hide Without;
    HasSem(s, p);
    SemLock(s, Join(s, p), p);
    JoinWaiters(s, Join(s, p), p);
    assert s.served + (s.queue + [p]) == s.served + s.queue + [p];
  }

  lemma TakeOwnKeeps(s: Sem, init: int, p: int, next: Pc)
    requires Inv(s, init) && !Locked(s, p)
    requires var a := At(s.pc, p); (a == DownSleep && next == DownUnlock) || (a == Off && p !in s.sleeping && next == DownWoken)
    ensures Inv(TakeOwn(s, p, next), init)
  {
    hide Locks; hide Queued; hide Served; hide Without;
    var s' := TakeOwn(s, p, next);
    ProcLock(s, s', p, p);
    if next.DownWoken? {
      WokenStep(s, s', p);
    } else {
      HasSem(s, p);
      WayStep(s, s', p);
    }
  }

  lemma GiveOwnKeeps(s: Sem, init: int, p: int)
    requires Is(s, init, p, DownWoken)
    ensures Inv(GiveOwn(s, p), init)
  {
    hide Locks; hide Queued; hide Served; hide Without;
    ProcLock(s, GiveOwn(s, p), p, p);
    WokenStep(s, GiveOwn(s, p), p);
  }

  lemma SleepKeeps(s: Sem, init: int, p: int)
    requires Is(s, init, p, DownSwitch)
    ensures Inv(Sleep(s, p), init)
  {
    hide Locks; hide Queued; hide Served; hide Without;
    ProcLock(s, Sleep(s, p), p, p);
    SleepWaiters(s, Sleep(s, p), p);
  }

  lemma ReturnKeeps(s: Sem, init: int, p: int)
    requires Is(s, init, p, DownReturn)
    ensures Inv(Return(s, p), init)
  {
    hide Locks; hide Queued; hide Served; hide Without;
    HasSem(s, p);
    WokenGranted(s, p);
    NotQueued(s, p);
    SemLock(s, Return(s, p), p);
    ReturnServed(s, Return(s, p), p);
  }

  lemma AddUnitKeeps(s: Sem, init: int, p: int)
    requires Is(s, init, p, UpTest) && s.queue == []
    ensures Inv(AddUnit(s, p), init)
  {
    hide Locks; hide Queued; hide Served; hide Without;
    HasSem(s, p);
    SemLock(s, AddUnit(s, p), p);
    NeutralStep(s, AddUnit(s, p), p);
  }

  lemma ServeKeeps(s: Sem, init: int, p: int)
    requires Is(s, init, p, UpTest) && s.queue != []
    ensures Inv(Serve(s, p), init)
  {
    hide Locks; hide Queued; hide Served; hide Without;
    var q, s' := s.queue[0], Serve(s, p);
    FirstQueued(s);
    assert s.queue == [q] + s.queue[1..];
    HasSem(s, p);
    HasSem(s, q);
    SemLock(s, s', p);
    NoneToWake(s, p);
    ServeQueued(s, s', p);
    ServeServed(s, s', p);
  }

  lemma TakeOtherKeeps(s: Sem, init: int, p: int, q: int)
    requires Is(s, init, p, UpWake(q)) && !Locked(s, q)
    ensures Inv(TakeOther(s, p, q), init)
  {
    hide Locks; hide Queued; hide Served; hide Without;
    ProcLock(s, TakeOther(s, p, q), p, q);
    HasSem(s, p);
    WakingStep(s, TakeOther(s, p, q), p, q);
  }

  lemma MarkKeeps(s: Sem, init: int, p: int, q: int)
    requires Is(s, init, p, UpMark(q))
    ensures Inv(Mark(s, p, q), init)
  {
    hide Locks; hide Queued; hide Served; hide Without;
    MarkFacts(s, p, q);
    HasSem(s, p);
    OneWaker(s, p);
    ProcLock(s, Mark(s, p, q), p, q);
    MarkQueued(s, Mark(s, p, q), p, q);
    MarkServed(s, Mark(s, p, q), p, q);
  }

  // Every step of every process keeps the invariant.
  lemma DoKeeps(s: Sem, init: int, p: int, c: Cmd)
    requires Inv(s, init)
    ensures Inv(Do(s, p, c), init)
  {
    hide Inv; hide Start; hide TakeSem; hide GiveSem; hide Gain; hide Join; hide TakeOwn; hide GiveOwn; hide Sleep; hide Return;
    hide AddUnit; hide Serve; hide TakeOther; hide Mark; hide Locked;
    match At(s.pc, p) {
      case Idle => StartKeeps(s, init, p, c);
      case DownLock => if s.semLock.None? { TakeSemKeeps(s, init, p, DownTest); }
      case DownTest => if s.value > 0 { GainKeeps(s, init, p); } else { JoinKeeps(s, init, p); }
      case DownSleep => if !Locked(s, p) { TakeOwnKeeps(s, init, p, DownUnlock); }
      case DownUnlock => GiveSemKeeps(s, init, p, DownSwitch);
      case DownSwitch => SleepKeeps(s, init, p);
      case Off => if p !in s.sleeping && !Locked(s, p) { TakeOwnKeeps(s, init, p, DownWoken); }
      case DownWoken => GiveOwnKeeps(s, init, p);
      case DownRelock => if s.semLock.None? { TakeSemKeeps(s, init, p, DownReturn); }
      case DownReturn => ReturnKeeps(s, init, p);
      case TryLock => if s.semLock.None? { TakeSemKeeps(s, init, p, TryTest); }
      case TryTest => if s.value > 0 { GainKeeps(s, init, p); } else { GiveSemKeeps(s, init, p, Idle); }
      case UpLock => if s.semLock.None? { TakeSemKeeps(s, init, p, UpTest); }
      case UpTest => if s.queue == [] { AddUnitKeeps(s, init, p); } else { ServeKeeps(s, init, p); }
      case UpWake(q) => if !Locked(s, q) { TakeOtherKeeps(s, init, p, q); }
      case UpMark(q) => MarkKeeps(s, init, p, q);
      case UpReturn => GiveSemKeeps(s, init, p, Idle);
    }
  }

  // A run: which process takes the next step, and what it wants to do if it is idle.
  datatype Turn = Turn(p: int, c: Cmd)

  function Run(s: Sem, turns: seq<Turn>): Sem
    decreases |turns|
  {
    if turns == [] then s else Run(Do(s, turns[0].p, turns[0].c), turns[1..])
  }

  lemma {:induction false} RunKeeps(s: Sem, init: int, turns: seq<Turn>)
    requires Inv(s, init)
    ensures Inv(Run(s, turns), init)
    decreases |turns|
  {
    if turns != [] {
      DoKeeps(s, init, turns[0].p, turns[0].c);
      RunKeeps(Do(s, turns[0].p, turns[0].c), init, turns[1..]);
    }
  }

  /**
   * In every interleaving: units given back are units there, obtained, or granted
   * to a waiter that has not returned; nobody waits while there are units; the
   * waiters are served in the order they came, none overtaking another.
   */
  lemma Conserved(init: int, turns: seq<Turn>)
    requires init >= 0
    ensures var s := Run(Init(init), turns);
            && init + s.ups == s.value + s.downs + |s.granted|
            && s.value >= 0 && (s.value > 0 ==> s.queue == [])
            && s.arrivals == s.served + s.queue
  {
    InitOk(init);
    RunKeeps(Init(init), init, turns);
  }

  /**
   * No wakeup is lost: a waiter that has been served sleeps only while the one
   * that serves it has still to wake it; and the assertion on wait_state in __up
   * holds for every waiter.
   */
  lemma NoLostWakeup(init: int, turns: seq<Turn>, p: int)
    requires init >= 0
    ensures var s := Run(Init(init), turns);
            && (p in s.granted && p in s.sleeping ==> s.semLock.Some? && Wakes(At(s.pc, s.semLock.value), p))
            && (p in s.queue ==> p in s.waiting)
  {
    InitOk(init);
    RunKeeps(Init(init), init, turns);
    var s := Run(Init(init), turns);
    if p in s.granted {
      assert Back(s, p);
    }
    if p in s.queue {
      var i :| 0 <= i < |s.queue| && s.queue[i] == p;
      assert InQueue(s, s.queue[i]);
    }
  }

  // The one that has to wake a waiter can: nobody else keeps the lock of a process that is asleep.
  lemma WakerNotBlocked(s: Sem, init: int, u: int, p: int)
    requires Inv(s, init) && At(s.pc, u) == UpWake(p) && p in s.sleeping
    ensures !Locked(s, p)
  {
    HasSem(s, u);
    forall r
      ensures !Holds(s.procLock, p, r)
    {
      HasSem(s, r);
      assert Owns(At(s.pc, r), r, p) <==> Holds(s.procLock, p, r);
    }
    SomeHolder(s.procLock, p);
  }

  lemma SomeHolder(procLock: map<int, int>, q: int)
    ensures q in procLock ==> exists p :: Holds(procLock, q, p)
  {
    if q in procLock {
      assert Holds(procLock, q, procLock[q]);
    }
  }

  // Only who has obtained a unit gives one back.
  ghost predicate Disciplined(s: Sem, turns: seq<Turn>)
    decreases |turns|
  {
    turns == [] ||
    (&& (At(s.pc, turns[0].p).Idle? && turns[0].c.Up? ==> turns[0].p in s.holders)
     && Disciplined(Do(s, turns[0].p, turns[0].c), turns[1..]))
  }

  // The units in use are the ones obtained and not given back; who is about to give one back has one.
  ghost predicate InUse(s: Sem) {
    |s.holders| == s.downs - s.ups && forall p :: At(s.pc, p).UpLock? || At(s.pc, p).UpTest? ==> p in s.holders
  }

  lemma InUseStep(s: Sem, s': Sem, p: int, next: Pc)
    requires InUse(s) && Moved(s, s', p, next)
    requires Use(s, s') || Gains(s, s', p) || (Gives(s, s', p) && p in s.holders && next != UpLock && next != UpTest)
    requires next == UpLock || next == UpTest ==> p in s.holders
    ensures InUse(s')
  {
  }

  lemma DoInUse(s: Sem, p: int, c: Cmd)
    requires InUse(s) && (At(s.pc, p).Idle? && c.Up? ==> p in s.holders)
    ensures InUse(Do(s, p, c))
  {
    hide InUse; hide Moved; hide Use; hide Gains; hide Gives;
    hide Start; hide TakeSem; hide GiveSem; hide Gain; hide Join; hide TakeOwn; hide GiveOwn; hide Sleep; hide Return;
    hide AddUnit; hide Serve; hide TakeOther; hide Mark;
    var s' := Do(s, p, c);
    if s' == s {
      return;
    }
    match At(s.pc, p) {
      case Idle => InUseStep(s, s', p, First(c));
      case DownLock => InUseStep(s, s', p, DownTest);
      case DownTest => InUseStep(s, s', p, if s.value > 0 then Idle else DownSleep);
      case DownSleep => InUseStep(s, s', p, DownUnlock);
      case DownUnlock => InUseStep(s, s', p, DownSwitch);
      case DownSwitch => InUseStep(s, s', p, Off);
      case Off => InUseStep(s, s', p, DownWoken);
      case DownWoken => InUseStep(s, s', p, DownRelock);
      case DownRelock => InUseStep(s, s', p, DownReturn);
      case DownReturn => InUseStep(s, s', p, Idle);
      case TryLock => InUseStep(s, s', p, TryTest);
      case TryTest => InUseStep(s, s', p, Idle);
      case UpLock => HasUnit(s, p); InUseStep(s, s', p, UpTest);
      case UpTest => HasUnit(s, p); InUseStep(s, s', p, if s.queue == [] then UpReturn else UpWake(s.queue[0]));
      case UpWake(q) => InUseStep(s, s', p, UpMark(q));
      case UpMark(q) => InUseStep(s, s', p, UpReturn);
      case UpReturn => InUseStep(s, s', p, Idle);
    }
  }

  lemma HasUnit(s: Sem, p: int)
    requires InUse(s) && (At(s.pc, p).UpLock? || At(s.pc, p).UpTest?)
    ensures p in s.holders
  {
  }

  lemma {:induction false} RunInUse(s: Sem, turns: seq<Turn>)
    requires InUse(s) && Disciplined(s, turns)
    ensures InUse(Run(s, turns))
    decreases |turns|
  {
    if turns != [] {
      DoInUse(s, turns[0].p, turns[0].c);
      RunInUse(Do(s, turns[0].p, turns[0].c), turns[1..]);
    }
  }

  // At most `init` units are in use at a time: with one unit, mutual exclusion.
  lemma Exclusion(init: int, turns: seq<Turn>)
    requires init >= 0 && Disciplined(Init(init), turns)
    ensures |Run(Init(init), turns).holders| <= init
  {
    RunInUse(Init(init), turns);
    Conserved(init, turns);
  }

  // The next step of `p` gets it to another place.
  ghost predicate Goes(s: Sem, p: int) {
    forall c :: At(Do(s, p, c).pc, p) != At(s.pc, p)
  }

  lemma FreeLock(s: Sem, q: int)
    requires Locks(s) && !InOwn(At(s.pc, q)) && forall r :: At(s.pc, r) != UpMark(q)
    ensures !Locked(s, q)
  {
    SomeHolder(s.procLock, q);
    forall r
      ensures !Holds(s.procLock, q, r)
    {
      assert Owns(At(s.pc, r), r, q) <==> Holds(s.procLock, q, r);
    }
  }

  // Who has the lock of the semaphore can go on, or waits for a waiter that can.
  lemma HolderGoes(s: Sem, init: int, u: int)
    requires Inv(s, init) && s.semLock == Some(u)
    ensures Goes(s, u) || (At(s.pc, u).UpWake? && Goes(s, At(s.pc, u).q))
  {
    hide Queued;
    HasSem(s, u);
    OneWaker(s, u);
    var a := At(s.pc, u);
    if a.DownSleep? {
      FreeLock(s, u);
    } else if a.UpWake? {
      assert Wakes(At(s.pc, u), a.q);
      if !At(s.pc, a.q).DownSwitch? {
        FreeLock(s, a.q);
      }
    }
  }

  /**
   * There is no deadlock: a process that is not asleep can go on, or the one that
   * has the lock of the semaphore can, or the waiter this one is about to wake.
   */
  lemma NoDeadlock(init: int, turns: seq<Turn>, p: int)
    requires init >= 0 && p !in Run(Init(init), turns).sleeping
    ensures var s := Run(Init(init), turns);
            || Goes(s, p)
            || (s.semLock.Some? && (Goes(s, s.semLock.value) || (At(s.pc, s.semLock.value).UpWake? && Goes(s, At(s.pc, s.semLock.value).q))))
  {
    InitOk(init);
    RunKeeps(Init(init), init, turns);
    var s := Run(Init(init), turns);
    if s.semLock.Some? {
      HolderGoes(s, init, s.semLock.value);
    } else {
      FreeGoes(s, init, p);
    }
  }

  lemma FreeGoes(s: Sem, init: int, p: int)
    requires Inv(s, init) && s.semLock.None? && p !in s.sleeping
    ensures Goes(s, p)
  {
    hide Queued; hide Served;
    HasSem(s, p);
    if At(s.pc, p).Off? {
      forall r
        ensures At(s.pc, r) != UpMark(p)
      {
        HasSem(s, r);
      }
      FreeLock(s, p);
    }
  }

  function Steps(turns: seq<Turn>, u: int): nat {
    if turns == [] then 0 else (if turns[0].p == u then 1 else 0) + Steps(turns[1..], u)
  }

  // Process `u` gets two turns.
  ghost predicate Twice(turns: seq<Turn>, u: int) {
    exists i, j :: 0 <= i < j < |turns| && turns[i].p == u && turns[j].p == u
  }

  lemma StepsTwice(turns: seq<Turn>, u: int)
    ensures Twice(turns, u) <==> Steps(turns, u) >= 2
  {
    if turns != [] {
      StepsTwice(turns[1..], u);
      StepsOnce(turns[1..], u);
      if Twice(turns[1..], u) {
        var i, j :| 0 <= i < j < |turns[1..]| && turns[1..][i].p == u && turns[1..][j].p == u;
        assert turns[i + 1].p == u && turns[j + 1].p == u;
      }
      forall i, j | 0 <= i < j < |turns| && turns[i].p == u && turns[j].p == u
        ensures Steps(turns, u) >= 2
      {
        assert turns[1..][j - 1].p == u;
        assert i > 0 ==> turns[1..][i - 1].p == u;
      }
      if Steps(turns, u) >= 2 && turns[0].p == u {
        var j :| 0 <= j < |turns[1..]| && turns[1..][j].p == u;
        assert turns[j + 1].p == u;
      }
    }
  }

  lemma StepsOnce(turns: seq<Turn>, u: int)
    ensures (exists i :: 0 <= i < |turns| && turns[i].p == u) <==> Steps(turns, u) >= 1
  {
    if turns != [] {
      StepsOnce(turns[1..], u);
      assert forall i :: 0 < i < |turns| ==> turns[i] == turns[1..][i - 1];
      assert forall i :: 0 <= i < |turns[1..]| ==> turns[1..][i] == turns[i + 1];
    }
  }

  // A served waiter is asleep, and `u` has still to wake it.
  ghost predicate Waking(s: Sem, u: int, p: int) {
    p in s.sleeping && s.semLock == Some(u) && Wakes(At(s.pc, u), p)
  }

  // The steps that `u` needs to wake `p`.
  function Needs(s: Sem, u: int): (n: nat)
    ensures 1 <= n <= 2
  {
    if At(s.pc, u).UpWake? then 2 else 1
  }

  lemma WakingStays(s: Sem, init: int, u: int, p: int, r: int, c: Cmd)
    requires Inv(s, init) && Waking(s, u, p) && r != u
    ensures Waking(Do(s, r, c), u, p) && Needs(Do(s, r, c), u) == Needs(s, u)
  {
    hide Queued; hide Served;
    HasSem(s, r);
  }

  lemma WakingNearer(s: Sem, init: int, u: int, p: int, c: Cmd)
    requires Inv(s, init) && Waking(s, u, p)
    ensures var s' := Do(s, u, c); p !in s'.sleeping || (Waking(s', u, p) && Needs(s', u) < Needs(s, u))
  {
    if At(s.pc, u).UpWake? {
      WakerNotBlocked(s, init, u, p);
    }
  }

  /**
   * A served waiter that sleeps is made runnable in every run in which the one
   * that serves it takes two more steps, whatever the others do in between.
   */
  lemma {:induction false} WokenInTime(s: Sem, init: int, u: int, p: int, turns: seq<Turn>)
    requires Inv(s, init) && Waking(s, u, p) && Steps(turns, u) >= Needs(s, u)
    ensures exists i :: 0 <= i <= |turns| && p !in Run(s, turns[..i]).sleeping
    decreases |turns|
  {
    hide Inv; hide Waking; hide Do; hide Needs;
    var s' := Do(s, turns[0].p, turns[0].c);
    DoKeeps(s, init, turns[0].p, turns[0].c);
    assert turns[..1][1..] == [] && turns[..1][0] == turns[0];
    if turns[0].p == u {
      WakingNearer(s, init, u, p, turns[0].c);
    } else {
      WakingStays(s, init, u, p, turns[0].p, turns[0].c);
    }
    if p !in s'.sleeping {
      assert Run(s, turns[..1]) == Run(s', []);
    } else {
      WokenInTime(s', init, u, p, turns[1..]);
      var i :| 0 <= i <= |turns| - 1 && p !in Run(s', turns[1..][..i]).sleeping;
      assert turns[..i + 1][0] == turns[0] && turns[..i + 1][1..] == turns[1..][..i];
      assert Run(s, turns[..i + 1]) == Run(s', turns[1..][..i]);
    }
  }

  // From the start: as WokenInTime, for whoever has been served and sleeps.
  lemma ServedIsWoken(init: int, turns: seq<Turn>, more: seq<Turn>, p: int)
    requires init >= 0
    requires var s := Run(Init(init), turns);
             p in s.granted && p in s.sleeping && (s.semLock.Some? ==> Twice(more, s.semLock.value))
    ensures exists i :: 0 <= i <= |more| && p !in Run(Run(Init(init), turns), more[..i]).sleeping
  {
    InitOk(init);
    RunKeeps(Init(init), init, turns);
    var s := Run(Init(init), turns);
    assert Back(s, p);
    hide Inv; hide Back; hide Run;
    StepsTwice(more, s.semLock.value);
    WokenInTime(s, init, s.semLock.value, p, more);
  }

  // `n` steps of one process, with nobody else in between.
  function Alone(p: int, c: Cmd, n: nat): seq<Turn> {
    if n == 0 then [] else [Turn(p, c)] + Alone(p, c, n - 1)
  }

  lemma RunAlone(s: Sem, p: int, c: Cmd, n: nat)
    requires n > 0
    ensures Run(s, Alone(p, c, n)) == Run(Do(s, p, c), Alone(p, c, n - 1))
  {
    assert Alone(p, c, n)[1..] == Alone(p, c, n - 1);
  }

  lemma RunThree(s: Sem, p: int, c: Cmd)
    ensures Run(s, Alone(p, c, 3)) == Do(Do(Do(s, p, c), p, c), p, c)
  {
    hide Do; hide Alone;
    RunAlone(s, p, c, 3);
    RunAlone(Do(s, p, c), p, c, 2);
    RunAlone(Do(Do(s, p, c), p, c), p, c, 1);
    assert Alone(p, c, 0) == [] by {
      AloneNone(p, c);
    }
  }

  lemma AloneNone(p: int, c: Cmd)
    ensures Alone(p, c, 0) == []
  {
  }

  lemma {:induction false} RunLater(s: Sem, p: int, c: Cmd, n: nat, m: nat)
    ensures Run(s, Alone(p, c, n + m)) == Run(Run(s, Alone(p, c, n)), Alone(p, c, m))
    decreases n
  {
    hide Do;
    if n == 0 {
      AloneNone(p, c);
    } else {
      RunAlone(s, p, c, n + m);
      RunAlone(s, p, c, n);
      RunLater(Do(s, p, c), p, c, n - 1, m);
    }
  }

  // Process `p` is not in the semaphore code, and nobody has its lock.
  ghost predicate Ready(s: Sem, init: int, p: int) {
    Inv(s, init) && At(s.pc, p).Idle? && s.semLock.None?
  }

  /**
   * up, by a process that finds the lock free: one unit more, which goes to the
   * first waiter if there is one and is there to be taken otherwise.
   */
  lemma UpGives(s: Sem, init: int, p: int)
    requires Ready(s, init, p)
    ensures var s' := Run(s, Alone(p, Up, 3));
            && s'.ups == s.ups + 1 && s'.downs == s.downs && s'.holders == s.holders - multiset{p} && s'.sleeping == s.sleeping
            && if s.queue == [] then s'.value == s.value + 1 && s'.queue == [] && s'.granted == s.granted
               else s'.value == s.value && s'.queue == s.queue[1..] && s'.granted == s.granted + {s.queue[0]}
  {
    hide Inv;
    RunThree(s, p, Up);
  }

  // And then it is done, or wakes the waiter if that is asleep.
  lemma UpEnds(s: Sem, init: int, p: int)
    requires Ready(s, init, p)
    ensures s.queue == [] ==> Ready(Run(s, Alone(p, Up, 4)), init, p)
    ensures s.queue != [] && s.queue[0] in s.sleeping ==>
              var s' := Run(s, Alone(p, Up, 6)); Ready(s', init, p) && s'.sleeping == s.sleeping - {s.queue[0]}
  {
    hide Inv; hide Alone; hide Locked; hide Do; hide Run;
    var s3 := Run(s, Alone(p, Up, 3));
    RunThree(s, p, Up);
    UpPlace(s, p);
    RunLater(s, p, Up, 3, 1);
    RunLater(s, p, Up, 3, 3);
    RunKeeps(s, init, Alone(p, Up, 3));
    RunKeeps(s, init, Alone(p, Up, 4));
    RunKeeps(s, init, Alone(p, Up, 6));
    RunOne(s3, p, Up);
    RunThree(s3, p, Up);
    if s.queue == [] {
      UpReturns(s3, p);
    } else if s.queue[0] in s.sleeping {
      UpWakes(s3, init, p, s.queue[0]);
    }
  }

  lemma UpPlace(s: Sem, p: int)
    requires At(s.pc, p).Idle? && s.semLock.None?
    ensures var s' := Do(Do(Do(s, p, Up), p, Up), p, Up);
            && At(s'.pc, p) == (if s.queue == [] then UpReturn else UpWake(s.queue[0])) && s'.sleeping == s.sleeping
  {
  }

  lemma UpReturns(s: Sem, p: int)
    requires At(s.pc, p) == UpReturn
    ensures var s' := Do(s, p, Up); At(s'.pc, p).Idle? && s'.semLock.None?
  {
  }

  lemma UpWakes(s: Sem, init: int, p: int, q: int)
    requires Inv(s, init) && At(s.pc, p) == UpWake(q) && q in s.sleeping
    ensures var s' := Do(Do(Do(s, p, Up), p, Up), p, Up);
            At(s'.pc, p).Idle? && s'.semLock.None? && s'.sleeping == s.sleeping - {q}
  {
    hide Inv; hide Locked;
    WakerNotBlocked(s, init, p, q);
  }

  lemma RunOne(s: Sem, p: int, c: Cmd)
    ensures Run(s, Alone(p, c, 1)) == Do(s, p, c)
  {
    hide Do;
    RunAlone(s, p, c, 1);
    AloneNone(p, c);
  }

  // try_down, by a process that finds the lock free: takes a unit if and only if there is one, and is done in any case.
  lemma TryDownTakes(s: Sem, init: int, p: int)
    requires Ready(s, init, p)
    ensures var s' := Run(s, Alone(p, TryDown, 3));
            && Ready(s', init, p) && s'.queue == s.queue && s'.granted == s.granted && s'.sleeping == s.sleeping && s'.ups == s.ups
            && if s.value > 0 then s'.value == s.value - 1 && s'.downs == s.downs + 1 && s'.holders == s.holders + multiset{p}
               else s'.value == s.value && s'.downs == s.downs && s'.holders == s.holders
  {
    hide Inv; hide Alone;
    RunKeeps(s, init, Alone(p, TryDown, 3));
    RunThree(s, p, TryDown);
  }

  // down, by a process that finds the lock free: takes a unit if there is one, and is the last in the queue otherwise.
  lemma DownTakes(s: Sem, init: int, p: int)
    requires Ready(s, init, p)
    ensures var s' := Run(s, Alone(p, Down, 3));
            && s'.granted == s.granted && s'.sleeping == s.sleeping && s'.ups == s.ups
            && if s.value > 0 then
                 Ready(s', init, p) && s'.value == s.value - 1 && s'.downs == s.downs + 1 && s'.queue == s.queue
                 && s'.holders == s.holders + multiset{p}
               else s'.value == s.value && s'.downs == s.downs && s'.queue == s.queue + [p] && s'.holders == s.holders
  {
    hide Inv; hide Alone;
    RunKeeps(s, init, Alone(p, Down, 3));
    RunThree(s, p, Down);
  }

  // In the queue it goes to sleep, and gives the lock of the semaphore back.
  lemma DownSleeps(s: Sem, init: int, p: int)
    requires Ready(s, init, p) && s.value <= 0
    ensures var s' := Run(s, Alone(p, Down, 6));
            s'.semLock.None? && s'.sleeping == s.sleeping + {p} && s'.queue == s.queue + [p] && s'.value == s.value
  {
    hide Inv; hide Alone; hide Locked; hide Do; hide Run;
    var s3 := Run(s, Alone(p, Down, 3));
    RunThree(s, p, Down);
    DownPlace(s, p);
    RunLater(s, p, Down, 3, 3);
    RunKeeps(s, init, Alone(p, Down, 3));
    RunThree(s3, p, Down);
    OwnLockFree(s3, init, p);
    DownGoesOff(s3, p);
  }

  lemma DownPlace(s: Sem, p: int)
    requires At(s.pc, p).Idle? && s.semLock.None? && s.value <= 0
    ensures var s' := Do(Do(Do(s, p, Down), p, Down), p, Down);
            At(s'.pc, p).DownSleep? && s'.sleeping == s.sleeping && s'.queue == s.queue + [p] && s'.value == s.value
  {
  }

  lemma DownGoesOff(s: Sem, p: int)
    requires At(s.pc, p).DownSleep? && !Locked(s, p)
    ensures var s' := Do(Do(Do(s, p, Down), p, Down), p, Down);
            s'.semLock.None? && s'.sleeping == s.sleeping + {p} && s'.queue == s.queue && s'.value == s.value
  {
    hide Locked;
  }

  lemma OwnLockFree(s: Sem, init: int, p: int)
    requires Inv(s, init) && At(s.pc, p).DownSleep?
    ensures !Locked(s, p)
  {
    HasSem(s, p);
    forall r
      ensures At(s.pc, r) != UpMark(p)
    {
      HasSem(s, r);
    }
    FreeLock(s, p);
  }
}
