/**
 * What copying an address space page by page does to the tables, and when it
 * finds room: a frame for every stack page, and slots that can take one more
 * reference for every swapped page.
 */
module PageFork {
  import opened PageState
  import opened PageSteps

  // An assertion in copy_range or swap_duplicate fails.
  ghost predicate CopyStops(s: St, p: Pte) {
    if p.to.OnDisk? then p.to.e in s.memMap && s.memMap[p.to.e] >= MAX_SWAP_REF else p.stack && s.free == {}
  }

  // There is no free frame, or a slot has as many references as it can have.
  ghost predicate Exhausted(s: St) {
    s.free == {} || exists e :: e in s.memMap && s.memMap[e] == MAX_SWAP_REF
  }

  // What copying the page `from` to `to` does to the tables.
  ghost predicate Copied(s: St, s': St, from: Key, to: Key) {
    if from !in s.pt then s' == s
    else
      && s'.pt.Keys == s.pt.Keys + {to}
      && (forall k :: k in s.pt && k in s'.pt ==> s'.pt[k].to == s.pt[k].to && s'.pt[k].stack == s.pt[k].stack)
      && (OnStack(s.pt[from]) || s'.pt[to] == Pte(s.pt[from].to, false, false, false, false))
      && s'.memMap == MoreRefs(s.memMap, s.pt[from].to)
      && |s'.free| == |s.free| - if OnStack(s.pt[from]) then 1 else 0
  }

  lemma ShareCopied(s: St, s': St, from: Key, to: Key)
    requires from in s.pt && s.pt[from].to.InMem? && !s.pt[from].stack && to !in s.pt && s'.free == s.free && s'.memMap == s.memMap
    requires s'.pt == s.pt[from := s.pt[from].(w := false)][to := Pte(s.pt[from].to, false, false, false, false)]
    ensures Copied(s, s', from, to)
  {
  }

  lemma SlotCopied(s: St, s': St, from: Key, to: Key)
    requires from in s.pt && s.pt[from].to.OnDisk? && to !in s.pt && s'.free == s.free && s'.memMap == MoreRefs(s.memMap, s.pt[from].to)
    requires s'.pt == s.pt[to := Pte(s.pt[from].to, false, false, false, false)]
    ensures Copied(s, s', from, to)
  {
  }

  ghost predicate OnStack(p: Pte) {
    p.to.InMem? && p.stack
  }

  ghost function MoreRefs(memMap: map<int, int>, t: Target): map<int, int> {
    if t.OnDisk? && t.e in memMap then memMap[t.e := memMap[t.e] + 1] else memMap
  }

  // The pages among `vas` that lie on the stack and in memory.
  ghost function StackSet(pt: Table, mm: int, vas: seq<int>): set<int> {
    set va | va in vas && Key(mm, va) in pt && OnStack(pt[Key(mm, va)])
  }

  // The pages among `vas` that lie in slot `e`.
  ghost function SlotSet(pt: Table, mm: int, vas: seq<int>, e: int): set<int> {
    set va | va in vas && Key(mm, va) in pt && pt[Key(mm, va)].to == OnDisk(e)
  }

  // Copying `vas` finds a frame for every stack page, and no slot gets too many references.
  ghost predicate ForkRoom(s: St, mm: int, vas: seq<int>) {
    && |StackSet(s.pt, mm, vas)| <= |s.free|
    && forall e :: e in s.memMap && |SlotSet(s.pt, mm, vas, e)| > 0 ==> s.memMap[e] + |SlotSet(s.pt, mm, vas, e)| <= MAX_SWAP_REF
  }

  lemma StackMore(pt: Table, mm: int, done: seq<int>, va: int)
    ensures |StackSet(pt, mm, done + [va])| == |StackSet(pt, mm, done)| +
              if va !in done && Key(mm, va) in pt && OnStack(pt[Key(mm, va)]) then 1 else 0
  {
    if va !in done && Key(mm, va) in pt && OnStack(pt[Key(mm, va)]) {
      assert StackSet(pt, mm, done + [va]) == StackSet(pt, mm, done) + {va};
    } else {
      assert StackSet(pt, mm, done + [va]) == StackSet(pt, mm, done);
    }
  }

  lemma SlotMore(pt: Table, mm: int, done: seq<int>, va: int, e: int)
    ensures |SlotSet(pt, mm, done + [va], e)| == |SlotSet(pt, mm, done, e)| +
              if va !in done && Key(mm, va) in pt && pt[Key(mm, va)].to == OnDisk(e) then 1 else 0
  {
    if va !in done && Key(mm, va) in pt && pt[Key(mm, va)].to == OnDisk(e) {
      assert SlotSet(pt, mm, done + [va], e) == SlotSet(pt, mm, done, e) + {va};
    } else {
      assert SlotSet(pt, mm, done + [va], e) == SlotSet(pt, mm, done, e);
    }
  }

  // The entries after the pages `done` have been copied.
  ghost predicate Tables(pt0: Table, pt: Table, mm: int, child: int, done: seq<int>) {
    && (forall k :: k in pt0 ==> k in pt && pt[k].to == pt0[k].to && pt[k].stack == pt0[k].stack)
    && (forall k :: k in pt ==> k in pt0 || (k.mm == child && k.va in done))
    && (forall va :: va in done && Key(mm, va) in pt0 ==> Key(child, va) in pt)
  }

  // The numbers of free frames and of references after the pages `done` have been copied.
  ghost predicate Numbers(s0: St, s: St, mm: int, done: seq<int>) {
    && |s.free| == |s0.free| - |StackSet(s0.pt, mm, done)|
    && s.memMap.Keys == s0.memMap.Keys
    && (forall e :: e in s0.memMap ==> s.memMap[e] == s0.memMap[e] + |SlotSet(s0.pt, mm, done, e)|)
  }

  ghost predicate Copying(s0: St, s: St, mm: int, child: int, done: seq<int>) {
    && mm != child && (forall k :: k in s0.pt ==> k.mm != child)
    && Tables(s0.pt, s.pt, mm, child, done) && Numbers(s0, s, mm, done) && ForkRoom(s0, mm, done)
  }

  lemma CopyingNone(s: St, mm: int, child: int)
    requires mm != child && forall k :: k in s.pt ==> k.mm != child
    ensures Copying(s, s, mm, child, [])
  {
    assert StackSet(s.pt, mm, []) == {} && forall e :: SlotSet(s.pt, mm, [], e) == {};
  }

  lemma CopyingRoom(s0: St, s: St, mm: int, child: int, done: seq<int>)
    requires Copying(s0, s, mm, child, done)
    ensures ForkRoom(s0, mm, done)
  {
  }

  lemma CopiedBefore(s0: St, s: St, mm: int, child: int, done: seq<int>, k: Key)
    requires Copying(s0, s, mm, child, done) && k in s.pt && k.mm == child
    ensures k.va in done
  {
  }

  // One page has been copied, or was a copy already.
  ghost predicate OneDone(s: St, s': St, from: Key, to: Key) {
    if to in s.pt then s' == s else Copied(s, s', from, to) && !(from in s.pt && CopyStops(s, s.pt[from]))
  }

  lemma CopyingStep(s0: St, s: St, s': St, mm: int, child: int, done: seq<int>, va: int)
    requires Copying(s0, s, mm, child, done) && OneDone(s, s', Key(mm, va), Key(child, va))
    ensures Copying(s0, s', mm, child, done + [va])
  {
    TablesStep(s0, s, s', mm, child, done, va);
    NumbersStep(s0, s, s', mm, child, done, va);
    RoomStep(s0, s, mm, child, done, va);
    hide Numbers; hide Tables; hide ForkRoom; hide OneDone;
  }

  lemma TablesStep(s0: St, s: St, s': St, mm: int, child: int, done: seq<int>, va: int)
    requires Copying(s0, s, mm, child, done) && OneDone(s, s', Key(mm, va), Key(child, va))
    ensures Tables(s0.pt, s'.pt, mm, child, done + [va])
  {
    hide Numbers; hide ForkRoom; hide CopyStops; hide MoreRefs;
  }

  lemma NumbersStep(s0: St, s: St, s': St, mm: int, child: int, done: seq<int>, va: int)
    requires Copying(s0, s, mm, child, done) && OneDone(s, s', Key(mm, va), Key(child, va))
    ensures Numbers(s0, s', mm, done + [va])
  {
    hide ForkRoom; hide CopyStops; hide StackSet; hide SlotSet;
    StackMore(s0.pt, mm, done, va);
    forall e | e in s0.memMap
      ensures s'.memMap.Keys == s0.memMap.Keys && s'.memMap[e] == s0.memMap[e] + |SlotSet(s0.pt, mm, done + [va], e)|
    {
      SlotMore(s0.pt, mm, done, va, e);
    }
  }

  lemma RoomStep(s0: St, s: St, mm: int, child: int, done: seq<int>, va: int)
    requires Copying(s0, s, mm, child, done)
    requires Key(child, va) in s.pt || !(Key(mm, va) in s.pt && CopyStops(s, s.pt[Key(mm, va)]))
    ensures ForkRoom(s0, mm, done + [va])
  {
    hide StackSet; hide SlotSet;
    StackMore(s0.pt, mm, done, va);
    assert |s.free| == 0 <==> s.free == {};
    forall e | e in s0.memMap
      ensures |SlotSet(s0.pt, mm, done + [va], e)| > 0 ==> s0.memMap[e] + |SlotSet(s0.pt, mm, done + [va], e)| <= MAX_SWAP_REF
    {
      SlotMore(s0.pt, mm, done, va, e);
    }
  }

  // Where a page cannot be copied there was no room for all of them, and something has run out.
  lemma CopyingStops(s0: St, s: St, mm: int, child: int, vas: seq<int>, i: int)
    requires 0 <= i < |vas| && Copying(s0, s, mm, child, vas[..i]) && Key(child, vas[i]) !in s.pt
    requires Key(mm, vas[i]) in s.pt && CopyStops(s, s.pt[Key(mm, vas[i])])
    requires var t := s.pt[Key(mm, vas[i])].to; t.OnDisk? ==> t.e in s.memMap && s.memMap[t.e] <= MAX_SWAP_REF
    ensures !ForkRoom(s0, mm, vas) && Exhausted(s)
  {
    hide StackSet; hide SlotSet;
    var done, va := vas[..i], vas[i];
    StackMore(s0.pt, mm, done, va);
    assert vas[..i + 1] == done + [va];
    StackLess(s0.pt, mm, vas, i + 1);
    var t := s.pt[Key(mm, va)].to;
    if t.OnDisk? {
      SlotMore(s0.pt, mm, done, va, t.e);
      SlotLess(s0.pt, mm, vas, i + 1, t.e);
    }
  }

  lemma StackLess(pt: Table, mm: int, vas: seq<int>, n: int)
    requires 0 <= n <= |vas|
    ensures |StackSet(pt, mm, vas[..n])| <= |StackSet(pt, mm, vas)|
  {
    SmallerSet(StackSet(pt, mm, vas[..n]), StackSet(pt, mm, vas));
  }

  lemma SlotLess(pt: Table, mm: int, vas: seq<int>, n: int, e: int)
    requires 0 <= n <= |vas|
    ensures |SlotSet(pt, mm, vas[..n], e)| <= |SlotSet(pt, mm, vas, e)|
  {
    SmallerSet(SlotSet(pt, mm, vas[..n], e), SlotSet(pt, mm, vas, e));
  }

  lemma SmallerSet(a: set<int>, b: set<int>)
    requires a <= b
    ensures |a| <= |b|
  {
    assert b == a + (b - a);
  }
}
