/**
 * Page faults, fork, swapping and unmapping for private mappings.  Each public
 * operation is one atomic step.
 */
module Paging {
  import opened Common
  import opened PageState
  import opened PageSteps
  import opened PageFork

  class Paging {
    var s: St
    var next: int                 // where the search for an unused slot goes on
    const slots: int              // max_swap_offset
    const frames: set<int>

    // References and frames in the hands of the running step.
    ghost var held: multiset<Target>
    ghost var own: set<int>

    ghost predicate Valid()
      reads this
    {
      Inv(s, held, own) && Area(s.memMap, next, slots) && s.ref.Keys == frames
    }

    // No step is under way.
    ghost predicate Idle()
      reads this
    {
      Valid() && held == multiset{} && own == {}
    }

    // swap_init, with every frame of `frames` free.
    constructor (frames: set<int>, max: int)
      requires max >= 1024
      ensures Idle() && s.pt == map[] && s.free == frames == this.frames && slots == max && next == 1 && forall k :: Mem(s, k) == Zero()
    {
      this.frames, slots, next := frames, max, 1;
      var memMap, disk := InitSlots(max);
      s := St(map[], map f | f in frames :: 0, map[], map[], memMap, {}, map f | f in frames :: Zero(), disk, frames, [], []);
      held, own := multiset{}, {};
      new;
      hide Zero;
      StartOk(s, frames);
    }

    // alloc_pages(1): a free frame, filled with zeros.
    method AllocPage() returns (r: Option<int>)
      requires Valid()
      modifies `s, `own
      ensures Valid() && Alike(old(s), s)
      ensures r.None? <==> old(s).free == {}
      ensures r.None? ==> own == old(own) && s == old(s)
      ensures r.Some? ==> r.value in old(s).free && r.value !in old(own) && own == old(own) + {r.value}
                          && s == old(s).(free := old(s).free - {r.value}, data := old(s).data[r.value := Zero()])
    {
      hide Inv; hide Zero; hide View; hide Area;
      var free := s.free;
      if free == {} {
        return None;
      }
      NonEmpty(free);
      var f :| f in free;
      AllocStep(s, held, own, f);
      s := s.(free := s.free - {f}, data := s.data[f := Zero()]);
      own := own + {f};
      return Some(f);
    }

    // free_pages(f, 1): clears the flags of the frame.
    method FreePage(f: int)
      requires Valid() && f in own
      modifies `s, `own
      ensures Valid() && own == old(own) - {f} && s == old(s).(free := old(s).free + {f}, dirty := old(s).dirty - {f})
    {
      hide Inv; hide Area;
      FreeStep(s, held, own, f);
      s := s.(free := s.free + {f}, dirty := s.dirty - {f});
      own := own - {f};
    }

    // page_ref_inc
    method RefInc(f: int)
      requires Valid() && f in s.ref && f !in s.free
      modifies `s, `held, `own
      ensures Valid() && held == old(held) + multiset{InMem(f)} && own == old(own) - {f}
      ensures s == old(s).(ref := old(s).ref[f := old(s).ref[f] + 1])
    {
      hide Inv; hide Area;
      IncStep(s, held, own, f);
      s := s.(ref := s.ref[f := s.ref[f] + 1]);
      held, own := held + multiset{InMem(f)}, own - {f};
    }

    // page_ref_dec; a frame that is left without references and is not in the swap cache is freed.
    method DropFrame(f: int)
      requires Valid() && InMem(f) in held
      modifies `s, `held
      ensures Valid() && held == old(held) - multiset{InMem(f)}
      ensures f in old(s).ref && old(s).ref[f] > 0 && s == Dropped(old(s), f)
      ensures Alike(old(s), s) && s.pt == old(s).pt && s.data == old(s).data && s.index == old(s).index && s.cache == old(s).cache && s.memMap == old(s).memMap
      ensures f in s.index ==> s.dirty == old(s).dirty
    {
      hide Inv; hide Area;
      DropStep(s, held, own, f);
      s := s.(ref := s.ref[f := s.ref[f] - 1]);
      held := held - multiset{InMem(f)};
      if s.ref[f] == 0 && f !in s.index {
        s := s.(free := s.free + {f}, dirty := s.dirty - {f});
      }
    }

    // swap_list_del and swap_page_del; a frame without references is freed.
    method SwapPageDel(e: int)
      requires Valid() && e in s.cache
      requires (forall k :: k in s.pt ==> s.pt[k].to != OnDisk(e)) || s.cache[e] !in s.dirty
      modifies `s
      ensures Valid() && Alike(old(s), s)
      ensures s.index == old(s).index - {old(s).cache[e]} && s.cache == old(s).cache - {e}
      ensures var f := old(s).cache[e];
              && f in s.ref && f !in old(s).free && s.free == (if s.ref[f] == 0 then old(s).free + {f} else old(s).free)
              && (f in old(s).active || f in old(s).inactive) && (s.active, s.inactive) == OffLists(old(s).active, old(s).inactive, f)
      ensures s.pt == old(s).pt && s.ref == old(s).ref && s.data == old(s).data && s.disk == old(s).disk && s.memMap == old(s).memMap
    {
      hide Inv; hide View; hide Area; hide OffLists;
      var f := s.cache[e];
      CacheFacts(s, held, own, e);
      var (active', inactive') := OffLists(s.active, s.inactive, f);
      UncacheStep(s, held, own, e, active', inactive');
      s := s.(index := s.index - {f}, cache := s.cache - {e}, active := active', inactive := inactive');
      if s.ref[f] == 0 {
        s := s.(free := s.free + {f}, dirty := s.dirty - {f});
      }
    }

    /**
     * swap_remove_entry: gives up one reference to slot `e`.  With the last one
     * the slot becomes unused, and a cached copy leaves the cache.
     */
    method SwapRemoveEntry(e: int)
      requires Valid() && OnDisk(e) in held
      modifies `s, `held
      ensures Valid() && held == old(held) - multiset{OnDisk(e)} && Alike(old(s), s)
      ensures s.pt == old(s).pt && s.ref == old(s).ref && s.data == old(s).data && s.disk == old(s).disk
      ensures e in old(s).memMap && s.memMap == old(s).memMap[e := Stored(old(s).memMap[e] - 1)]
      ensures if old(s).memMap[e] == 1 && e in old(s).cache
              then OutOfCache(old(s), s, e)
              else s.cache == old(s).cache && s.index == old(s).index && s.free == old(s).free
      ensures forall f :: f in s.index ==> f in old(s).index && s.index[f] == old(s).index[f]
    {
      hide Inv; hide View;
      LastHolder(s, held, own, e);
      if s.memMap[e] == 1 && e in s.cache {
        SwapPageDel(e);
      }
      RemoveStep(s, held, own, e);
      s := s.(memMap := s.memMap[e := Stored(s.memMap[e] - 1)]);
      held := held - multiset{OnDisk(e)};
    }

    // SetPageDirty for a cached frame whose entry has PTE_D.
    method NoteDirty(f: int, d: bool)
      requires Valid()
      modifies `s
      ensures Valid() && Alike(old(s), s) && s == old(s).(dirty := s.dirty)
      ensures s.dirty == old(s).dirty + if d && f in s.index then {f} else {}
    {
      hide Inv; hide View; hide Area; hide Zero;
      if d && f in s.index {
        DirtyStep(s, held, own, f);
        s := s.(dirty := s.dirty + {f});
        FreedAlike(old(s), s);
      }
    }

    // page_remove_pte, after the entry has been cleared: gives up the reference of the entry.
    method Release(p: Pte)
      requires Valid() && p.to in held
      modifies `s, `held
      ensures Valid() && held == old(held) - multiset{p.to} && Alike(old(s), s)
      ensures s.pt == old(s).pt && s.data == old(s).data && s.memMap.Keys == old(s).memMap.Keys
      ensures forall f :: f in s.index ==> f in old(s).index && s.index[f] == old(s).index[f]
      ensures p.to.InMem? && p.d && p.to.f in s.index ==> p.to.f in s.dirty
    {
      hide Inv; hide View; hide Area; hide Zero; hide Dropped;
      if p.to.InMem? {
        NoteDirty(p.to.f, p.d);
        DropFrame(p.to.f);
      } else {
        SwapRemoveEntry(p.to.e);
      }
    }

    // page_remove_pte
    method RemovePte(k: Key)
      requires Valid() && k in s.pt
      modifies `s, `held
      ensures Valid() && held == old(held) && s.pt == old(s).pt - {k} && s.data == old(s).data
      ensures s.memMap.Keys == old(s).memMap.Keys
      ensures forall k' :: Mem(s, k') == if k' == k then Zero() else Mem(old(s), k')
      ensures forall f :: f in s.index ==> f in old(s).index && s.index[f] == old(s).index[f]
    {
      hide Inv; hide View; hide Area; hide Zero;
      var p := s.pt[k];
      TakeStep(s, held, own, k);
      s := s.(pt := s.pt - {k});
      held := held + multiset{p.to};
      Release(p);
    }

    // page_insert, where the entry is empty or refers to another place.
    method InsertOther(k: Key, f: int, p: Pte)
      requires Valid() && f in s.ref && f !in s.free && p.to == InMem(f) && MayInsert(s, own, k, p)
      requires !(k in s.pt && s.pt[k].to == InMem(f))
      modifies `s, `held, `own
      ensures Valid() && held == old(held) && own == old(own) - {f} && s.pt == old(s).pt[k := p]
      ensures forall k' :: Mem(s, k') == if k' == k then Read(old(s).data, f) else Mem(old(s), k')
      ensures k !in old(s).pt ==> s.free == old(s).free && s.memMap == old(s).memMap
    {
      hide Inv; hide View; hide Area; hide Zero; hide Read; hide MayInsert; hide MayPut;
      ghost var s0, held0, own0 := s, held, own;
      RefInc(f);
      if k in s.pt {
        RemovePte(k);
      }
      assert s.pt == s0.pt - {k};
      InsertMay(s0, s, held0, own0, k, f, p);
      PutStep(s, held, own, k, p);
      s := s.(pt := s.pt[k := p]);
      held := held - multiset{p.to};
      assert s.pt == s0.pt[k := p];
    }

    /**
     * page_insert: the entry now refers to frame `f`, and no other page sees a
     * change.  The frame gets its reference before the old entry is removed, so
     * that a frame that is the cached copy of the entry's slot survives.
     */
    method PageInsert(k: Key, f: int, p: Pte)
      requires Valid() && f in s.ref && f !in s.free && p.to == InMem(f) && MayInsert(s, own, k, p)
      modifies `s, `held, `own
      ensures Valid() && held == old(held) && own == old(own) - {f} && s.pt == old(s).pt[k := p]
      ensures forall k' :: Mem(s, k') == if k' == k then Read(old(s).data, f) else Mem(old(s), k')
      ensures k !in old(s).pt || old(s).pt[k].to == p.to ==> s.free == old(s).free && s.memMap == old(s).memMap
    {
      hide Inv; hide View; hide Area; hide Zero; hide Read; hide MayInsert;
      if k in s.pt && s.pt[k].to == InMem(f) {
        InsertSame(s, held, own, k, f, p);
        s := s.(pt := s.pt[k := p]);
      } else {
        InsertOther(k, f, p);
      }
    }

    // swap_in_page: the cached copy of a slot in use, read from the disk if there is none yet.
    method SwapInPage(e: int) returns (r: Option<int>)
      requires Valid() && e in s.memMap && s.memMap[e] != SWAP_UNUSED
      modifies `s, `own
      ensures Valid() && own == old(own) && Alike(old(s), s)
      ensures s.pt == old(s).pt && s.ref == old(s).ref && s.memMap == old(s).memMap
      ensures r.None? <==> e !in old(s).cache && old(s).free == {}
      ensures r.None? || e in old(s).cache ==> s == old(s)
      ensures r.Some? ==> e in s.cache && s.cache[e] == r.value
    {
      hide Inv; hide View; hide Area; hide Zero; hide Read;
      if e in s.cache {
        return Some(s.cache[e]);
      }
      r := AllocPage();
      if r.Some? {
        var f := r.value;
        OwnFacts(s, held, own, f);
        SlotFacts(s, held, own, e);
        FillStep(s, held, own, f, s.disk[e]);
        s := s.(data := s.data[f := s.disk[e]]);
        NoHolder(s, held, own, f);
        ReadSame(s, f, e);
        CacheStep(s, held, own, f, e);
        s := s.(index := s.index[f := e], cache := s.cache[e := f], active := s.active + [f]);
        own := own - {f};
      }
    }

    /**
     * The second half of do_pagatable_fault: `f` holds what the page sees.  For a
     * write it is replaced by a copy if anybody else refers to it.
     */
    method Resolve(k: Key, f: int, newpage: Option<int>, write: bool) returns (ok: bool)
      requires Valid() && Behind(s, k, f) && (!write ==> s.pt[k].to.OnDisk?)
      requires held == multiset{} && own == (if newpage.Some? then {newpage.value} else {})
      modifies `s, `held, `own
      ensures Valid() && held == old(held) && own == {} && Alike(old(s), s)
      ensures ok <==> !(write && newpage.None? && Shared(old(s), k, f))
      ensures ok ==> var copied := write && Shared(old(s), k, f);
                s.pt == old(s).pt[k := Pte(InMem(if copied then newpage.value else f), write, false, false, false)]
      ensures !ok ==> s == old(s)
    {
      hide Inv; hide View; hide Area; hide Zero; hide Read; hide MayInsert; hide Behind; hide SwapCount; hide Shared;
      BehindFacts(s, held, own, k, f);
      SharedIs(s, held, own, k, f);
      if write && s.ref[f] + SwapCount(s, f) > 1 {
        if newpage.None? {
          return false;
        }
        var f' := newpage.value;
        var p := Pte(InMem(f'), write, false, false, false);
        OwnFacts(s, held, own, f');
        FillStep(s, held, own, f', s.data[f]);
        CopySame(s, f, f');
        s := s.(data := s.data[f' := s.data[f]]);
        OwnMay(s, own, k, p);
        PageInsert(k, f', p);
      } else {
        var p := Pte(InMem(f), write, false, false, false);
        KeepMay(s, held, own, k, f, p);
        PageInsert(k, f, p);
        if newpage.Some? {
          FreePage(newpage.value);
        }
      }
      ok := true;
    }

    // A page that was never touched gets a frame full of zeros.
    method FaultEmpty(k: Key, vw: bool) returns (ret: int)
      requires Idle() && k !in s.pt
      modifies `s, `held, `own
      ensures Idle() && Alike(old(s), s)
      ensures ret == if old(s).free == {} then -E_NO_MEM else 0
      ensures ret == 0 ==> exists f :: s.pt == old(s).pt[k := Pte(InMem(f), vw, false, false, false)]
      ensures ret != 0 ==> s.pt == old(s).pt
    {
      hide Inv; hide Area; hide Zero; hide MayInsert;
      var r := AllocPage();
      if r.None? {
        return -E_NO_MEM;
      }
      var p := Pte(InMem(r.value), vw, false, false, false);
      OwnFacts(s, held, own, r.value);
      NoHolder(s, held, own, r.value);
      FreshMay(s, own, k, p);
      PageInsert(k, r.value, p);
      ret := 0;
    }

    // A write to a page that is mapped read-only.
    method FaultCow(k: Key) returns (ret: int)
      requires Idle() && k in s.pt && s.pt[k].to.InMem?
      modifies `s, `held, `own
      ensures Idle() && Alike(old(s), s)
      ensures if old(s).free == {} && Shared(old(s), k, old(s).pt[k].to.f) then ret == -E_NO_MEM && s == old(s)
              else ret == 0 && Accessible(s, k, true)
    {
      hide Inv; hide View; hide Area; hide Zero; hide SwapCount;
      var newpage := AllocPage();
      var ok := Resolve(k, s.pt[k].to.f, newpage, true);
      ret := if ok then 0 else -E_NO_MEM;
    }

    // An access to a page that has been swapped out.
    method FaultSwapped(k: Key, write: bool, vw: bool) returns (ret: int)
      requires Idle() && (write ==> vw) && k in s.pt && s.pt[k].to.OnDisk?
      modifies `s, `held, `own
      ensures Idle() && Alike(old(s), s)
      ensures ret == if NoMemory(old(s), k, vw) then -E_NO_MEM else 0
      ensures ret == 0 ==> if LostFault(old(s), k, write) then s == old(s) else Accessible(s, k, write)
      ensures ret != 0 ==> s.pt == old(s).pt
    {
      hide Inv; hide View; hide Area; hide Zero; hide SwapCount;
      var e := s.pt[k].to.e;
      PteFacts(s, held, own, k);
      ghost var free := s.free;
      var newpage := None;
      if vw {
        newpage := AllocPage();
        OneLess(free, newpage);
      }
      var r := SwapInPage(e);
      if r.None? {
        if newpage.Some? {
          FreePage(newpage.value);
        }
        return -E_NO_MEM;
      }
      var ok := Resolve(k, r.value, newpage, write);
      ret := 0;
    }

    /**
     * do_pagatable_fault for a page inside a private mapping; `vw` says whether
     * the mapping is writable.  No address space sees a change.  Afterwards the
     * access can go on, unless memory ran out; a write fault that found the page
     * in the swap cache, shared, reports success even then.
     */
    method Fault(k: Key, write: bool, vw: bool) returns (ret: int)
      requires Idle() && (write ==> vw) && (k in s.pt && s.pt[k].to.InMem? ==> write)
      modifies `s, `held, `own
      ensures Idle() && Alike(old(s), s)
      ensures ret == if NoMemory(old(s), k, vw) then -E_NO_MEM else 0
      ensures ret == 0 ==> if LostFault(old(s), k, write) then s == old(s) else Accessible(s, k, write)
      ensures ret != 0 ==> s.pt == old(s).pt
    {
      hide Inv; hide View; hide Area; hide Zero; hide SwapCount; hide Shared;
      if k !in s.pt {
        ret := FaultEmpty(k, vw);
      } else if write && s.pt[k].w && vw {
        PteFacts(s, held, own, k);
        ret := 0;
      } else if s.pt[k].to.InMem? {
        ret := FaultCow(k);
      } else {
        ret := FaultSwapped(k, write, vw);
      }
    }

    // A user load.  The hardware sets PTE_A.
    method Load(k: Key) returns (c: Content)
      requires Idle() && Accessible(s, k, false)
      modifies `s
      ensures Idle() && Alike(old(s), s) && c == Mem(old(s), k)
      ensures s == old(s).(pt := old(s).pt[k := old(s).pt[k].(a := true)])
    {
      hide Inv; hide Area; hide Zero; hide MayInsert;
      var p := s.pt[k];
      PteFacts(s, held, own, k);
      FlagMay(s, own, k, p.(a := true));
      InsertSame(s, held, own, k, p.to.f, p.(a := true));
      c := s.data[p.to.f];
      s := s.(pt := s.pt[k := p.(a := true)]);
    }

    // A user store that leaves the page with contents `c`.  The hardware sets PTE_A and PTE_D.
    method Store(k: Key, c: Content)
      requires Idle() && Accessible(s, k, true)
      modifies `s
      ensures Idle() && forall k' :: Mem(s, k') == if k' == k then c else Mem(old(s), k')
      ensures s.pt == old(s).pt[k := old(s).pt[k].(a := true, d := true)]
    {
      hide Inv; hide View; hide Area; hide Zero; hide MayInsert; hide Read;
      var p := s.pt[k];
      var p' := p.(a := true, d := true);
      FlagMay(s, own, k, p');
      InsertSame(s, held, own, k, p.to.f, p');
      PageSame(s, held, own, k);
      s := s.(pt := s.pt[k := p']);
      StoreStep(s, held, own, k, c);
      s := s.(data := s.data[p.to.f := c]);
    }

    /**
     * One page of copy_range, for a private mapping.  A page on the stack is
     * copied at once; another one in memory is shared without PTE_PW on either
     * side; a swapped one shares the slot.  `ok` is false when an assertion stops
     * the kernel: no frame for a stack page, or too many references to a slot.
     */
    method CopyPage(from: Key, to: Key) returns (ok: bool)
      requires Idle() && to !in s.pt
      modifies `s, `held, `own
      ensures Idle() && (if ok then Copied(old(s), s, from, to) else s == old(s))
      ensures ok <==> !(from in old(s).pt && CopyStops(old(s), old(s).pt[from]))
      ensures ok ==> forall k :: Mem(s, k) == Mem(old(s), if k == to then from else k)
    {
      hide Inv; hide View; hide Area; hide Zero; hide MayInsert; hide Read;
      if from !in s.pt {
        Untouched(s, from);
        Untouched(s, to);
        return true;
      }
      var p := s.pt[from];
      PteFacts(s, held, own, from);
      if p.to.OnDisk? {
        ok := CopySlot(from, to);
      } else if p.stack {
        ok := CopyStack(from, to);
      } else {
        CopyShare(from, to);
        ok := true;
      }
    }

    method CopyShare(from: Key, to: Key)
      requires Idle() && from in s.pt && s.pt[from].to.InMem? && !s.pt[from].stack && to !in s.pt
      modifies `s, `held, `own
      ensures Idle() && Copied(old(s), s, from, to)
      ensures forall k :: Mem(s, k) == Mem(old(s), if k == to then from else k)
    {
      hide Inv; hide View; hide Area; hide Zero; hide MayInsert; hide Read; hide Copied;
      ghost var s0 := s;
      Protect(from);
      var q := Pte(s.pt[from].to, false, false, false, false);
      PteFacts(s, held, own, from);
      PageSame(s, held, own, from);
      JoinMay(s, held, own, from, to, q);
      PageInsert(to, q.to.f, q);
      ShareCopied(s0, s, from, to);
    }

    // The entry loses PTE_PW.
    method Protect(k: Key)
      requires Idle() && k in s.pt && s.pt[k].to.InMem? && !s.pt[k].stack
      modifies `s, `held, `own
      ensures Idle() && Alike(old(s), s) && s.pt == old(s).pt[k := old(s).pt[k].(w := false)]
      ensures s.free == old(s).free && s.memMap == old(s).memMap
    {
      hide Inv; hide View; hide Area; hide Zero; hide MayInsert; hide Read;
      var p := s.pt[k];
      if p.w {
        PteFacts(s, held, own, k);
        PageSame(s, held, own, k);
        var p' := p.(w := false, stack := false);
        JoinMay(s, held, own, k, k, p');
        PageInsert(k, p.to.f, p');
      }
    }

    method CopySlot(from: Key, to: Key) returns (ok: bool)
      requires Idle() && from in s.pt && s.pt[from].to.OnDisk? && to !in s.pt
      modifies `s, `held
      ensures Idle() && (if ok then Copied(old(s), s, from, to) else s == old(s))
      ensures ok <==> !CopyStops(old(s), old(s).pt[from])
      ensures ok ==> forall k :: Mem(s, k) == Mem(old(s), if k == to then from else k)
    {
      hide Inv; hide At; hide Zero; hide MayPut; hide Area; hide Copied;
      var e := s.pt[from].to.e;
      PteFacts(s, held, own, from);
      ok := s.memMap[e] < MAX_SWAP_REF;
      if ok {
        ghost var s0 := s;
        SwapDuplicate(e);
        var p := Pte(OnDisk(e), false, false, false, false);
        SlotMay(s, held, own, p);
        PutStep(s, held, own, to, p);
        s := s.(pt := s.pt[to := p]);
        held := held - multiset{OnDisk(e)};
        SlotCopied(s0, s, from, to);
      }
    }

    method CopyStack(from: Key, to: Key) returns (ok: bool)
      requires Idle() && from in s.pt && s.pt[from].to.InMem? && s.pt[from].stack && to !in s.pt
      modifies `s, `held, `own
      ensures Idle() && (if ok then Copied(old(s), s, from, to) else s == old(s))
      ensures ok <==> old(s).free != {}
      ensures ok ==> forall k :: Mem(s, k) == Mem(old(s), if k == to then from else k)
      ensures ok ==> exists f :: f in old(s).free && s.pt == old(s).pt[to := Pte(InMem(f), old(s).pt[from].w, false, false, false)]
    {
      hide Inv; hide View; hide Area; hide Zero; hide MayInsert; hide Read;
      var p := s.pt[from];
      var r := AllocPage();
      ok := r.Some?;
      if ok {
        var f := r.value;
        PteFacts(s, held, own, from);
        PageSame(s, held, own, from);
        OwnFacts(s, held, own, f);
        NoHolder(s, held, own, f);
        FillStep(s, held, own, f, s.data[p.to.f]);
        CopySame(s, p.to.f, f);
        s := s.(data := s.data[f := s.data[p.to.f]]);
        var q := Pte(InMem(f), p.w, false, false, false);
        FreshMay(s, own, to, q);
        PageInsert(to, f, q);
      }
    }

    // pages_insert for one page of a new stack.
    method MapStack(k: Key) returns (ok: bool)
      requires Idle() && k !in s.pt
      modifies `s, `held, `own
      ensures Idle() && Alike(old(s), s) && (ok <==> old(s).free != {})
      ensures ok ==> Accessible(s, k, true) && s.pt[k].stack
      ensures ok ==> exists f :: f in old(s).free && s.pt == old(s).pt[k := Pte(InMem(f), true, false, false, true)]
    {
      hide Inv; hide Area; hide Zero; hide MayInsert;
      var r := AllocPage();
      ok := r.Some?;
      if ok {
        OwnFacts(s, held, own, r.value);
        NoHolder(s, held, own, r.value);
        var p := Pte(InMem(r.value), true, false, false, true);
        FreshMay(s, own, k, p);
        PageInsert(k, r.value, p);
      }
    }

    // copy_range over the pages of a new address space: the child sees what the parent sees.
    method Fork(parent: int, child: int, vas: seq<int>) returns (ok: bool)
      requires Idle() && parent != child && forall k :: k in s.pt ==> k.mm != child
      modifies `s, `held, `own
      ensures Idle() && (ok <==> ForkRoom(old(s), parent, vas)) && (!ok ==> Exhausted(s))
      ensures ok ==> forall k :: Mem(s, k) == Mem(old(s), if k.mm == child && k.va in vas then Key(parent, k.va) else k)
    {
      hide Inv; hide View; hide Area; hide Zero; hide ForkRoom; hide Copying; hide Copied; hide CopyStops;
      ok := true;
      var i := 0;
      CopyingNone(s, parent, child);
      while i < |vas|
        invariant Idle() && 0 <= i <= |vas| && ok && Copying(old(s), s, parent, child, vas[..i])
        invariant forall k :: Mem(s, k) == Mem(old(s), if k.mm == child && k.va in vas[..i] then Key(parent, k.va) else k)
      {
        var from, to := Key(parent, vas[i]), Key(child, vas[i]);
        ghost var s1 := s;
        if to !in s.pt {
          ok := CopyPage(from, to);
          if !ok {
            PteFacts(s, held, own, from);
            CopyingStops(old(s), s, parent, child, vas, i);
            return;
          }
        } else {
          CopiedBefore(old(s), s, parent, child, vas[..i], to);
        }
        assert vas[..i + 1] == vas[..i] + [vas[i]];
        CopyingStep(old(s), s1, s, parent, child, vas[..i], vas[i]);
        i := i + 1;
      }
      assert vas[..i] == vas;
      CopyingRoom(old(s), s, parent, child, vas);
    }

    // unmap_range: the pages read as zero again if they are mapped later.
    method Unmap(mm: int, vas: seq<int>)
      requires Idle()
      modifies `s, `held
      ensures Idle() && forall k :: k in s.pt <==> k in old(s).pt && !(k.mm == mm && k.va in vas)
      ensures forall k :: Mem(s, k) == if k.mm == mm && k.va in vas then Zero() else Mem(old(s), k)
    {
      hide Inv; hide View; hide Area; hide Zero;
      var i := 0;
      while i < |vas|
        invariant Idle() && 0 <= i <= |vas|
        invariant forall k :: k in s.pt <==> k in old(s).pt && !(k.mm == mm && k.va in vas[..i])
        invariant forall k :: Mem(s, k) == if k.mm == mm && k.va in vas[..i] then Zero() else Mem(old(s), k)
      {
        var k := Key(mm, vas[i]);
        Untouched(s, k);
        if k in s.pt {
          RemovePte(k);
        }
        assert vas[..i + 1] == vas[..i] + [vas[i]];
        i := i + 1;
      }
      assert vas[..i] == vas;
    }

    /**
     * try_alloc_swap_entry: searches the slots from `next` on, around the end of
     * the area.  The branch for a slot with no references whose copy is still
     * cached is never needed, since no slot is in that state between two steps.
     */
    method FindSlot() returns (e: int)
      requires Valid()
      modifies `next
      ensures Valid()
      ensures e == 0 <==> forall i :: i in s.memMap ==> s.memMap[i] != SWAP_UNUSED
      ensures e != 0 ==> e in s.memMap && s.memMap[e] == SWAP_UNUSED
      ensures if e == 0 then next == old(next) else exists c: nat :: FirstUnused(s.memMap, old(next), slots, c, e, next)
    {
      hide Inv;
      NeverZero(s, held, own);
      e := 0;
      var zero, end, more := 0, next, true;
      ghost var c := 0;
      while more
        invariant Area(s.memMap, next, slots) && 1 <= end < slots && 0 <= c < slots && zero == 0
        invariant next == Cycle(end, c, slots) && (more <==> e == 0 && c < slots - 1)
        invariant e != 0 ==> e in s.memMap && s.memMap[e] == SWAP_UNUSED
        invariant e == 0 ==> forall j :: 0 <= j < c ==> s.memMap[Cycle(end, j, slots)] != SWAP_UNUSED
        invariant e != 0 ==> c > 0 && FirstUnused(s.memMap, end, slots, c - 1, e, next)
        decreases slots - c, more
      {
        if s.memMap[next] == SWAP_UNUSED {
          e := next;
        } else if s.memMap[next] == 0 && zero == 0 {
          zero := next;
        }
        next := if next + 1 == slots then 1 else next + 1;
        c := c + 1;
        more := e == 0 && next != end;
      }
      if e == 0 {
        forall i | i in s.memMap
          ensures s.memMap[i] != SWAP_UNUSED
        {
          assert i == Cycle(end, if i >= end then i - end else i - end + slots - 1, slots);
        }
      }
    }

    // swap_duplicate; for a new slot together with the change from SWAP_UNUSED to 0.
    method SwapDuplicate(e: int)
      requires Valid() && e in s.memMap && e > 0 && (s.memMap[e] == SWAP_UNUSED || s.memMap[e] < MAX_SWAP_REF)
      modifies `s, `held
      ensures Valid() && held == old(held) + multiset{OnDisk(e)}
      ensures s == old(s).(memMap := old(s).memMap[e := (if old(s).memMap[e] == SWAP_UNUSED then 0 else old(s).memMap[e]) + 1])
      ensures s.memMap[e] != SWAP_UNUSED
    {
      hide Inv; hide Total;
      CountFacts(s, held, own, OnDisk(e));
      DuplicateStep(s, held, own, e);
      s := s.(memMap := s.memMap[e := (if s.memMap[e] == SWAP_UNUSED then 0 else s.memMap[e]) + 1]);
      held := held + multiset{OnDisk(e)};
    }

    // swap_page_add with a new slot, and swap_active_list_add.
    method AddToCache(f: int, e: int)
      requires Valid() && f in s.ref && f !in s.free && f !in own && f !in s.index && e in s.memMap && e > 0 && s.memMap[e] == SWAP_UNUSED
      requires forall k :: k in s.pt && s.pt[k].to == InMem(f) ==> !s.pt[k].w
      modifies `s, `held
      ensures Valid() && held == old(held) + multiset{OnDisk(e)} && Alike(old(s), s)
      ensures s.pt == old(s).pt && s.data == old(s).data && s.index == old(s).index[f := e] && s.cache == old(s).cache[e := f]
      ensures f in s.dirty && s.active == old(s).active + [f]
    {
      hide Inv; hide Zero; hide Total; hide View; hide Area; hide Read;
      FreshSlot(s, held, own, e);
      SwapDuplicate(e);
      DirtyStep(s, held, own, f);
      s := s.(dirty := s.dirty + {f});
      CacheStep(s, held, own, f, e);
      s := s.(index := s.index[f := e], cache := s.cache[e := f], active := s.active + [f]);
      assert own - {f} == own;
    }

    // Takes a reference to the slot of which the frame is, or becomes, the cached copy.
    method SlotFor(f: int, e: int, d: bool)
      requires Valid() && f in s.ref && f !in s.free && f !in own && e in s.memMap && e > 0
      requires if f in s.index then s.index[f] == e && s.memMap[e] < MAX_SWAP_REF else s.memMap[e] == SWAP_UNUSED
      requires forall k :: k in s.pt && s.pt[k].to == InMem(f) ==> !s.pt[k].w
      modifies `s, `held
      ensures Valid() && held == old(held) + multiset{OnDisk(e)} && Alike(old(s), s)
      ensures s.pt == old(s).pt && s.data == old(s).data && e in s.cache && s.cache[e] == f
      ensures d || f !in old(s).index ==> f in s.dirty
    {
      hide Inv; hide Zero; hide View; hide Area;
      if f !in s.index {
        AddToCache(f, e);
      } else {
        NoteDirty(f, d);
        IndexFacts(s, held, own, f);
        SwapDuplicate(e);
      }
    }

    // The reference of an entry passes to the running step.
    method TakePte(k: Key)
      requires Valid() && k in s.pt && s.pt[k].to.InMem?
      modifies `s, `held
      ensures Valid() && held == old(held) + multiset{old(s).pt[k].to} && s == old(s).(pt := old(s).pt - {k})
      ensures forall k' :: Mem(s, k') == if k' == k then Zero() else Mem(old(s), k')
      ensures var f := old(s).pt[k].to.f; f in s.ref && f !in s.free && f !in own && Mem(old(s), k) == Read(s.data, f)
      ensures forall k' :: k' in s.pt && s.pt[k'].to == old(s).pt[k].to ==> !s.pt[k'].w
    {
      hide Inv; hide Zero; hide View; hide Area; hide Read;
      PteFacts(s, held, own, k);
      PageSame(s, held, own, k);
      WritersGone(s, held, own, k);
      TakeStep(s, held, own, k);
      held := held + multiset{s.pt[k].to};
      s := s.(pt := s.pt - {k});
    }

    // The entry gives up its frame for a slot.
    method SwapOutTo(k: Key, e: int)
      requires Idle() && k in s.pt && s.pt[k].to.InMem? && e in s.memMap && e > 0
      requires if s.pt[k].to.f in s.index then s.index[s.pt[k].to.f] == e && s.memMap[e] < MAX_SWAP_REF else s.memMap[e] == SWAP_UNUSED
      modifies `s, `held
      ensures Idle() && Alike(old(s), s) && s.pt == old(s).pt[k := Pte(OnDisk(e), false, false, false, false)]
      ensures e in s.cache && s.cache[e] == old(s).pt[k].to.f
    {
      hide Inv; hide Zero; hide View; hide Area; hide Dropped; hide Read;
      var p, f := s.pt[k], s.pt[k].to.f;
      ghost var t := s.pt;
      TakePte(k);
      SlotFor(f, e, p.d);
      PutSlot(k, e, f);
      DropFrame(f);
      assert s.pt == t[k := Pte(OnDisk(e), false, false, false, false)];
    }

    method PutSlot(k: Key, e: int, ghost f: int)
      requires Valid() && k !in s.pt && OnDisk(e) in held && e in s.cache && s.cache[e] == f
      modifies `s, `held
      ensures Valid() && held == old(held) - multiset{OnDisk(e)}
      ensures s == old(s).(pt := old(s).pt[k := Pte(OnDisk(e), false, false, false, false)])
      ensures forall k' :: Mem(s, k') == if k' == k then Read(s.data, f) else Mem(old(s), k')
    {
      hide Inv; hide Zero; hide MayPut; hide View; hide Area; hide Read;
      var q := Pte(OnDisk(e), false, false, false, false);
      SlotMay(s, held, own, q);
      PutStep(s, held, own, k, q);
      s := s.(pt := s.pt[k := q]);
      held := held - multiset{q.to};
    }

    /**
     * swap_out_vma for one page: an entry used since the last pass loses only
     * PTE_A; otherwise it is replaced by a slot, if there is one.  `ok` is false
     * when the assertion in swap_duplicate stops the kernel.
     */
    method SwapOutPage(k: Key) returns (ok: bool, freed: bool)
      requires Idle() && k in s.pt && s.pt[k].to.InMem?
      modifies `s, `next, `held
      ensures Idle() && Alike(old(s), s)
      ensures ok <==> old(s).pt[k].a || !AtLimit(old(s), old(s).pt[k].to.f)
      ensures !ok ==> s == old(s) && Exhausted(s)
      ensures ok ==> (freed <==> !old(s).pt[k].a && HasSlot(old(s), old(s).pt[k].to.f))
      ensures ok && !freed ==> s == old(s).(pt := old(s).pt[k := old(s).pt[k].(a := false)])
      ensures ok && freed ==> exists e :: s.pt == old(s).pt[k := Pte(OnDisk(e), false, false, false, false)] && CopyOf(old(s), s, old(s).pt[k].to.f, e)
    {
      hide Inv; hide Zero; hide View; hide Area; hide MayInsert;
      var p, f := s.pt[k], s.pt[k].to.f;
      ok, freed := true, false;
      PteFacts(s, held, own, k);
      if p.a {
        FlagMay(s, own, k, p.(a := false));
        InsertSame(s, held, own, k, f, p.(a := false));
        PageSame(s, held, own, k);
        s := s.(pt := s.pt[k := p.(a := false)]);
        return;
      }
      var e: int;
      if f in s.index {
        e := s.index[f];
        IndexFacts(s, held, own, f);
        CacheFacts(s, held, own, e);
        SlotPositive(s.memMap, next, slots, e);
        if s.memMap[e] >= MAX_SWAP_REF {
          return false, false;
        }
      } else {
        e := FindSlot();
        if e == 0 {
          return;
        }
        SlotPositive(s.memMap, next, slots, e);
      }
      SwapOutTo(k, e);
      freed := true;
    }

    /**
     * swap_out_vma: walks over pages until `require` of them have been swapped
     * out.  After a whole pass no page that is left in memory counts as used.
     */
    method SwapOutVma(mm: int, vas: seq<int>, require: nat) returns (ok: bool, count: nat)
      requires Idle()
      modifies `s, `next, `held
      ensures Idle() && Alike(old(s), s) && s.pt.Keys == old(s).pt.Keys && (!ok ==> Exhausted(s))
      ensures count == |Moved(old(s).pt, s.pt)| <= require && SwappedOut(old(s).pt, s.pt, mm, vas)
      ensures ok && count < require ==> forall va :: va in vas ==> Unused(s.pt, Key(mm, va))
    {
      hide Inv; hide Zero; hide View; hide Area; hide HasSlot; hide AtLimit; hide Exhausted; hide Moved; hide SwappedOut; hide Unused;
      ok, count := true, 0;
      var i := 0;
      NoneMoved(s.pt, mm, vas);
      while i < |vas| && count < require
        invariant Idle() && Alike(old(s), s) && s.pt.Keys == old(s).pt.Keys && 0 <= i <= |vas| && ok
        invariant count == |Moved(old(s).pt, s.pt)| <= require && SwappedOut(old(s).pt, s.pt, mm, vas)
        invariant forall j :: 0 <= j < i ==> Unused(s.pt, Key(mm, vas[j]))
      {
        var k := Key(mm, vas[i]);
        ghost var pt := s.pt;
        if k in s.pt && s.pt[k].to.InMem? {
          var freed;
          ok, freed := SwapOutPage(k);
          if !ok {
            return;
          }
          OneMoved(old(s).pt, pt, s.pt, mm, vas, k);
          if freed {
            count := count + 1;
          }
        }
        StillUnused(pt, s.pt, k);
        i := i + 1;
      }
    }

    // refill_inactive_scan: exactly the frames that no entry refers to go from the active to the inactive list.
    method Refill()
      requires Idle()
      modifies `s
      ensures Idle() && Alike(old(s), s) && s == old(s).(active := s.active, inactive := s.inactive)
      ensures s.active == Sift(old(s).active, s.ref, true) && s.inactive == old(s).inactive + Sift(old(s).active, s.ref, false)
    {
      hide Inv; hide Zero; hide View; hide Area; hide Sift; hide Sifted;
      var i := 0;
      ghost var n, l := 0, s.active;
      SiftedNone(l, s.inactive, s.ref);
      while i < |s.active|
        invariant Idle() && s == old(s).(active := s.active, inactive := s.inactive) && 0 <= i
        invariant Sifted(l, n, old(s).inactive, s.active, s.inactive, s.ref, i)
        decreases |s.active| - i
      {
        var f := s.active[i];
        ListedFacts(s, held, own, f);
        SiftedStep(l, n, old(s).inactive, s.active, s.inactive, s.ref, i);
        if s.ref[f] == 0 {
          MovedList(s.active, s.inactive, i);
          ListStep(s, held, own, s.active[..i] + s.active[i + 1..], s.inactive + [f]);
          s := s.(active := s.active[..i] + s.active[i + 1..], inactive := s.inactive + [f]);
        } else {
          i := i + 1;
        }
        n := n + 1;
      }
      SiftedAll(l, n, old(s).inactive, s.active, s.inactive, s.ref, i);
    }

    // One frame of page_launder, the first on the inactive list.
    method LaunderFirst() returns (freed: bool)
      requires Idle() && s.inactive != []
      modifies `s
      ensures Idle() && Alike(old(s), s) && s.pt == old(s).pt && s.ref == old(s).ref && s.inactive == old(s).inactive[1..]
      ensures var f := old(s).inactive[0];
              f in s.ref && freed == (s.ref[f] == 0) && s.free == if freed then old(s).free + {f} else old(s).free
      ensures s.active == if freed then old(s).active else old(s).active + [old(s).inactive[0]]
      ensures freed ==> old(s).inactive[0] !in old(s).free
    {
      hide Inv; hide Zero; hide View; hide Area; hide OffLists;
      var f := s.inactive[0];
      ListedFacts(s, held, own, f);
      InactiveOnce(s, held, own);
      if s.ref[f] != 0 {
        FirstMoved(s.active, s.inactive);
        ListStep(s, held, own, s.active + [f], s.inactive[1..]);
        s := s.(active := s.active + [f], inactive := s.inactive[1..]);
        return false;
      }
      var e := s.index[f];
      CacheFacts(s, held, own, e);
      // mem_map is not 0 here, so the slot cannot be given back together with the frame.
      assert s.memMap[e] != 0;
      if f in s.dirty {
        WriteOutStep(s, held, own, f, e);
        s := s.(dirty := s.dirty - {f}, disk := s.disk[e := s.data[f]]);
      }
      SwapPageDel(e);
      freed := true;
    }

    // page_launder: every inactive frame is written out and freed, or goes back to the active list if it is mapped again.
    method Launder() returns (count: nat)
      requires Idle()
      modifies `s
      ensures Idle() && Alike(old(s), s) && s.pt == old(s).pt && s.ref == old(s).ref
      ensures s.inactive == [] && |s.free| == |old(s).free| + count
      ensures s.active == old(s).active + Sift(old(s).inactive, s.ref, true)
      ensures forall f :: f in s.free <==> f in old(s).free || f in Sift(old(s).inactive, s.ref, false)
    {
      hide Inv; hide Zero; hide View; hide Area; hide Sift;
      var maxscan := |s.inactive|;
      count := 0;
      ghost var n, l := 0, s.inactive;
      SiftNone(s.ref);
      while maxscan > 0
        invariant Idle() && Alike(old(s), s) && s.pt == old(s).pt && s.ref == old(s).ref
        invariant |s.inactive| == maxscan && |s.free| == |old(s).free| + count
        invariant 0 <= n <= |l| && s.inactive == l[n..] && s.active == old(s).active + Sift(l[..n], s.ref, true)
        invariant forall f :: f in s.free <==> f in old(s).free || f in Sift(l[..n], s.ref, false)
      {
        ghost var f := s.inactive[0];
        assert f == l[n] && l[..n + 1] == l[..n] + [f];
        var freed := LaunderFirst();
        SiftMore(l[..n], f, s.ref, true);
        SiftMore(l[..n], f, s.ref, false);
        if freed {
          count := count + 1;
        }
        maxscan := maxscan - 1;
        n := n + 1;
      }
      assert l[..n] == l;
    }
  }

  // Going round from `from` on, the first unused slot is `e`, after `c` others, and the next search starts behind it.
  ghost predicate FirstUnused(memMap: map<int, int>, from: int, slots: int, c: nat, e: int, next: int) {
    && e == Cycle(from, c, slots) && next == (if e + 1 == slots then 1 else e + 1)
    && forall j :: 0 <= j < c ==> Cycle(from, j, slots) in memMap && memMap[Cycle(from, j, slots)] != SWAP_UNUSED
  }

  // The frames of a list that entries refer to, or those that none does, in order.
  ghost function Sift(l: seq<int>, ref: map<int, int>, mapped: bool): (r: seq<int>)
    ensures |r| <= |l|
  {
    if l == [] then []
    else
      var f := l[|l| - 1];
      Sift(l[..|l| - 1], ref, mapped) + if f in ref && (ref[f] != 0 <==> mapped) then [f] else []
  }

  // The first `n` frames of the active list `l` have been looked at, and `i` of them are kept.
  ghost predicate Sifted(l: seq<int>, n: int, inactive0: seq<int>, active: seq<int>, inactive: seq<int>, ref: map<int, int>, i: int) {
    && 0 <= n <= |l| && i == |Sift(l[..n], ref, true)| && active == Sift(l[..n], ref, true) + l[n..]
    && inactive == inactive0 + Sift(l[..n], ref, false)
  }

  lemma SiftedNone(l: seq<int>, inactive: seq<int>, ref: map<int, int>)
    ensures Sifted(l, 0, inactive, l, inactive, ref, 0)
  {
  }

  lemma SiftedStep(l: seq<int>, n: int, inactive0: seq<int>, active: seq<int>, inactive: seq<int>, ref: map<int, int>, i: int)
    requires Sifted(l, n, inactive0, active, inactive, ref, i) && 0 <= i < |active| && active[i] in ref
    ensures if ref[active[i]] == 0 then Sifted(l, n + 1, inactive0, active[..i] + active[i + 1..], inactive + [active[i]], ref, i)
            else Sifted(l, n + 1, inactive0, active, inactive, ref, i + 1)
  {
    hide Sift;
    var f, kept, gone := active[i], Sift(l[..n], ref, true), Sift(l[..n], ref, false);
    assert f == l[n] && l[..n + 1] == l[..n] + [f] && l[n..] == [f] + l[n + 1..];
    SiftMore(l[..n], f, ref, true);
    SiftMore(l[..n], f, ref, false);
    if ref[f] == 0 {
      assert active[..i] == kept && active[i + 1..] == l[n + 1..];
      assert inactive0 + gone + [f] == inactive0 + (gone + [f]);
      assert Sift(l[..n + 1], ref, true) == kept;
    } else {
      assert kept + l[n..] == kept + [f] + l[n + 1..];
      assert Sift(l[..n + 1], ref, false) == gone;
    }
  }

  lemma SiftedAll(l: seq<int>, n: int, inactive0: seq<int>, active: seq<int>, inactive: seq<int>, ref: map<int, int>, i: int)
    requires Sifted(l, n, inactive0, active, inactive, ref, i) && i >= |active|
    ensures active == Sift(l, ref, true) && inactive == inactive0 + Sift(l, ref, false)
  {
    assert l[n..] == [] && l[..n] == l;
  }

  lemma SiftNone(ref: map<int, int>)
    ensures Sift([], ref, true) == [] && Sift([], ref, false) == []
  {
  }

  lemma SiftMore(l: seq<int>, f: int, ref: map<int, int>, mapped: bool)
    requires f in ref
    ensures Sift(l + [f], ref, mapped) == Sift(l, ref, mapped) + if ref[f] != 0 <==> mapped then [f] else []
  {
    assert (l + [f])[..|l|] == l;
  }

  lemma {:induction false} SiftIs(l: seq<int>, ref: map<int, int>, mapped: bool)
    ensures forall f :: f in Sift(l, ref, mapped) <==> f in l && f in ref && (ref[f] != 0 <==> mapped)
  {
    if l != [] {
      var n := |l| - 1;
      SiftIs(l[..n], ref, mapped);
      assert l == l[..n] + [l[n]];
    }
  }

  // The slot `c` steps behind `end`.
  function Cycle(end: int, c: int, slots: int): int {
    if end + c >= slots then end + c - (slots - 1) else end + c
  }

  // The loop of swap_init.
  method InitSlots(max: int) returns (memMap: map<int, int>, disk: map<int, Content>)
    requires max >= 1
    ensures forall i :: i in memMap <==> 0 < i < max
    ensures memMap.Keys == disk.Keys && forall i :: i in memMap ==> memMap[i] == SWAP_UNUSED
  {
    hide Zero;
    memMap, disk := map[], map[];
    var i := 1;
    while i < max
      invariant 1 <= i <= max && memMap.Keys == disk.Keys
      invariant forall j :: j in memMap <==> 0 < j < i
      invariant forall j :: j in memMap ==> memMap[j] == SWAP_UNUSED
    {
      memMap, disk := memMap[i := SWAP_UNUSED], disk[i := Zero()];
      i := i + 1;
    }
  }

  /**
   * Between two steps: page->ref and mem_map are the numbers of entries that
   * refer to a frame and to a slot, a frame is free exactly when no entry refers
   * to it and it is not in the swap cache, and a slot whose copy is not cached,
   * or cached and clean, holds what its pages see.
   */
  lemma Accounting(s: St)
    requires Inv(s, multiset{}, {})
    ensures forall f :: f in s.ref ==> s.ref[f] == |Holders(s.pt, InMem(f))|
    ensures forall e :: e in s.memMap ==>
              s.memMap[e] == if |Holders(s.pt, OnDisk(e))| == 0 then SWAP_UNUSED else |Holders(s.pt, OnDisk(e))|
    ensures forall f :: f in s.ref ==> (f in s.free <==> Holders(s.pt, InMem(f)) == {} && f !in s.index)
    ensures forall k :: k in s.pt && s.pt[k].to.OnDisk? ==>
              var e := s.pt[k].to.e;
              e in s.disk && (e !in s.cache || s.cache[e] !in s.dirty ==> s.disk[e] == Mem(s, k))
  {
    hide Listed; hide Guarded; hide Zero; hide Holders;
    assert forall t :: Total(s.pt, multiset{}, t) == |Holders(s.pt, t)|;
  }

  lemma StartOk(s: St, frames: set<int>)
    requires s.pt == map[] && s.index == map[] && s.cache == map[] && s.active == [] && s.inactive == [] && s.free == frames
    requires s.ref.Keys == s.data.Keys == frames && s.memMap.Keys == s.disk.Keys
    requires (forall f :: f in s.ref ==> s.ref[f] == 0) && (forall e :: e in s.memMap ==> s.memMap[e] == SWAP_UNUSED)
    ensures Inv(s, multiset{}, {})
  {
    forall t
      ensures Total(s.pt, multiset{}, t) == 0
    {
      assert Holders(s.pt, t) == {};
    }
    hide Total;
  }

  // The cached copy belongs to a slot that has as many references as it can have.
  ghost predicate AtLimit(s: St, f: int) {
    f in s.index && s.index[f] in s.memMap && s.memMap[s.index[f]] >= MAX_SWAP_REF
  }

  // The copy of slot `e` has left the cache, and is free unless an entry refers to it.
  ghost predicate OutOfCache(s: St, s': St, e: int) {
    && e in s.cache && s'.cache == s.cache - {e} && s'.index == s.index - {s.cache[e]}
    && s.cache[e] in s'.ref && s'.free == if s'.ref[s.cache[e]] == 0 then s.free + {s.cache[e]} else s.free
  }

  // The frame `f` is the cached copy of slot `e`, as before if it was one.
  ghost predicate CopyOf(s: St, s': St, f: int, e: int) {
    e in s'.cache && s'.cache[e] == f && (f in s.index ==> s.index[f] == e)
  }

  // The pages that have gone from memory to the swap area.
  ghost function Moved(pt: Table, pt': Table): set<Key> {
    set k | k in pt && k in pt' && pt[k].to.InMem? && pt'[k].to.OnDisk?
  }

  // Only entries of `vas` have changed: they refer to slots now, or have lost PTE_A.
  ghost predicate SwappedOut(pt: Table, pt': Table, mm: int, vas: seq<int>) {
    forall k :: k in pt && k in pt' ==>
      || pt'[k] == pt[k]
      || (k.mm == mm && k.va in vas && pt[k].to.InMem? && (pt'[k] == pt[k].(a := false) || pt'[k].to.OnDisk?))
  }

  // The page is not in memory, or its entry has not been used since PTE_A was cleared.
  ghost predicate Unused(pt: Table, k: Key) {
    k in pt && pt[k].to.InMem? ==> !pt[k].a
  }

  lemma NoneMoved(pt: Table, mm: int, vas: seq<int>)
    ensures Moved(pt, pt) == {} && SwappedOut(pt, pt, mm, vas)
  {
  }

  lemma OneMoved(pt0: Table, pt: Table, pt': Table, mm: int, vas: seq<int>, k: Key)
    requires pt.Keys == pt0.Keys && k in pt && pt[k].to.InMem? && k.mm == mm && k.va in vas && SwappedOut(pt0, pt, mm, vas)
    requires k in pt' && pt' == pt[k := pt'[k]] && (pt'[k] == pt[k].(a := false) || pt'[k].to.OnDisk?)
    ensures SwappedOut(pt0, pt', mm, vas)
    ensures |Moved(pt0, pt')| == |Moved(pt0, pt)| + if pt'[k].to.OnDisk? then 1 else 0
  {
    if pt'[k].to.OnDisk? {
      assert Moved(pt0, pt') == Moved(pt0, pt) + {k};
    } else {
      assert Moved(pt0, pt') == Moved(pt0, pt);
    }
  }

  lemma StillUnused(pt: Table, pt': Table, k: Key)
    requires if k in pt && pt[k].to.InMem? then k in pt' && pt' == pt[k := pt'[k]] && (!pt'[k].a || pt'[k].to.OnDisk?) else pt' == pt
    ensures Unused(pt', k) && forall k' :: Unused(pt, k') ==> Unused(pt', k')
  {
  }

  // The frame has a slot, or there is one for it.
  ghost predicate HasSlot(s: St, f: int) {
    f in s.index || exists i :: i in s.memMap && s.memMap[i] == SWAP_UNUSED
  }

  lemma SlotPositive(memMap: map<int, int>, next: int, slots: int, e: int)
    requires Area(memMap, next, slots) && e in memMap
    ensures e > 0
  {
  }

  lemma MovedList(active: seq<int>, inactive: seq<int>, i: int)
    requires 0 <= i < |active|
    ensures multiset(active[..i] + active[i + 1..]) + multiset(inactive + [active[i]]) == multiset(active) + multiset(inactive)
  {
    assert active == active[..i] + [active[i]] + active[i + 1..];
  }

  lemma FirstMoved(active: seq<int>, inactive: seq<int>)
    requires inactive != []
    ensures multiset(active + [inactive[0]]) + multiset(inactive[1..]) == multiset(active) + multiset(inactive)
  {
    assert inactive == [inactive[0]] + inactive[1..];
  }

  const E_NO_MEM := 4

  // A user access to the page does not fault.
  ghost predicate Accessible(s: St, k: Key, write: bool) {
    k in s.pt && s.pt[k].to.InMem? && (write ==> s.pt[k].w)
  }

  // The cached copy has to be copied, and there is no frame for it.
  ghost predicate LostFault(s: St, k: Key, write: bool) {
    && write && s.free == {} && k in s.pt && s.pt[k].to.OnDisk?
    && s.pt[k].to.e in s.cache && Shared(s, k, s.cache[s.pt[k].to.e])
  }

  ghost predicate NoMemory(s: St, k: Key, vw: bool) {
    if k !in s.pt then s.free == {}
    else if s.pt[k].to.InMem? then !s.pt[k].w && s.free == {} && Shared(s, k, s.pt[k].to.f)
    else s.pt[k].to.e !in s.cache && (s.free == {} || (vw && |s.free| == 1))
  }

  lemma OneLess(free: set<int>, r: Option<int>)
    ensures r.Some? && r.value in free ==> (free - {r.value} == {} <==> |free| == 1)
  {
    if r.Some? && r.value in free {
      assert |free - {r.value}| == |free| - 1;
    }
  }

  lemma NonEmpty(s: set<int>)
    ensures s == {} || exists x :: x in s
  {
    if forall x :: x !in s {
      assert s == {};
    }
  }

  ghost predicate Area(memMap: map<int, int>, next: int, slots: int) {
    1 <= next < slots && forall i :: i in memMap <==> 0 < i < slots
  }
}
