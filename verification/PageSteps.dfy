/**
 * The invariant of the paging state and how the elementary updates keep its
 * parts.
 */
module PageSteps {
  import opened PageState

  // Everything but the contents of the lists' entries: page tables, frames, swap area.
  datatype St = St(
    pt: Table,
    ref: map<int, int>,
    index: map<int, int>,
    cache: map<int, int>,
    memMap: map<int, int>,
    dirty: set<int>,
    data: map<int, Content>,
    disk: map<int, Content>,
    free: set<int>,
    active: seq<int>,
    inactive: seq<int>)

  // `held` and `own` are the references and the frames in the hands of a running step.
  ghost predicate Inv(s: St, held: multiset<Target>, own: set<int>) {
    && Typed(s.pt, s.ref, s.memMap, held) && Counts(s.pt, s.ref, s.memMap, held)
    && Linked(s.cache, s.index, s.ref, s.memMap) && Pool(s.ref, s.index, s.free, own) && Guarded(s.pt, s.index)
    && Clean(s.index, s.dirty, s.data, s.disk) && Stores(s.data, s.disk, s.ref, s.memMap)
    && Listed(s.active, s.inactive, s.index)
  }

  ghost function Mem(s: St, k: Key): Content {
    View(s.pt, s.cache, s.data, s.disk, k)
  }

  // Two states in which every address space sees the same.
  ghost predicate Alike(s: St, s': St) {
    forall k :: Mem(s', k) == Mem(s, k)
  }

  lemma AllocStep(s: St, held: multiset<Target>, own: set<int>, f: int)
    requires Inv(s, held, own) && f in s.free
    ensures f !in own
    ensures var s' := s.(free := s.free - {f}, data := s.data[f := Zero()]);
            Inv(s', held, own + {f}) && Alike(s, s')
  {
    hide Zero; hide Total; hide Holders; hide Guarded; hide Listed; hide Typed;
    assert Total(s.pt, held, InMem(f)) == 0;
    Unheld(s.pt, held, InMem(f));
    forall k
      ensures View(s.pt, s.cache, s.data[f := Zero()], s.disk, k) == View(s.pt, s.cache, s.data, s.disk, k)
    {
    }
  }

  lemma FreeStep(s: St, held: multiset<Target>, own: set<int>, f: int)
    requires Inv(s, held, own) && f in own
    ensures Inv(s.(free := s.free + {f}, dirty := s.dirty - {f}), held, own - {f})
  {
    hide Counts; hide Linked; hide Guarded; hide Listed; hide Typed; hide Stores;
  }

  // What depends only on which frames and slots exist.
  lemma SameKeys(s: St, held: multiset<Target>, ref: map<int, int>)
    requires ref.Keys == s.ref.Keys
    ensures Typed(s.pt, ref, s.memMap, held) == Typed(s.pt, s.ref, s.memMap, held)
    ensures Linked(s.cache, s.index, ref, s.memMap) == Linked(s.cache, s.index, s.ref, s.memMap)
    ensures Stores(s.data, s.disk, ref, s.memMap) == Stores(s.data, s.disk, s.ref, s.memMap)
  {
  }

  lemma TypedPlus(pt: Table, ref: map<int, int>, memMap: map<int, int>, held: multiset<Target>, t: Target)
    requires Typed(pt, ref, memMap, held) && Known(t, ref, memMap)
    ensures Typed(pt, ref, memMap, held + multiset{t})
  {
    hide Known;
  }

  lemma TypedMinus(pt: Table, ref: map<int, int>, memMap: map<int, int>, held: multiset<Target>, t: Target)
    requires Typed(pt, ref, memMap, held)
    ensures Typed(pt, ref, memMap, held - multiset{t})
  {
    hide Known;
  }

  lemma PoolInc(ref: map<int, int>, index: map<int, int>, free: set<int>, own: set<int>, f: int)
    requires Pool(ref, index, free, own) && f in ref && f !in free && ref[f] >= 0
    ensures Pool(ref[f := ref[f] + 1], index, free, own - {f})
  {
  }

  lemma PoolDec(ref: map<int, int>, index: map<int, int>, free: set<int>, own: set<int>, f: int)
    requires Pool(ref, index, free, own) && f in ref && ref[f] > 0
    ensures var c := ref[f] - 1;
            Pool(ref[f := c], index, free, if c == 0 && f !in index then own + {f} else own)
  {
  }

  lemma IncStep(s: St, held: multiset<Target>, own: set<int>, f: int)
    requires Inv(s, held, own) && f in s.ref && f !in s.free
    ensures Inv(s.(ref := s.ref[f := s.ref[f] + 1]), held + multiset{InMem(f)}, own - {f})
  {
    hide Typed; hide Counts; hide Linked; hide Pool; hide Guarded; hide Clean; hide Stores; hide Listed;
    var ref := s.ref[f := s.ref[f] + 1];
    assert ref.Keys == s.ref.Keys;
    CountsInc(s.pt, s.ref, s.memMap, held, f);
    SameKeys(s, held + multiset{InMem(f)}, ref);
    TypedPlus(s.pt, s.ref, s.memMap, held, InMem(f));
    SameKeys(s, held, ref);
    PoolInc(s.ref, s.index, s.free, own, f);
  }

  lemma HeldKnown(s: St, held: multiset<Target>, own: set<int>, t: Target)
    requires Inv(s, held, own) && t in held
    ensures Known(t, s.ref, s.memMap)
  {
    hide Counts; hide Linked; hide Pool; hide Guarded; hide Clean; hide Stores; hide Listed; hide Known;
  }

  // A frame left without references and outside the swap cache stays with the caller.
  lemma DecStep(s: St, held: multiset<Target>, own: set<int>, f: int)
    requires Inv(s, held, own) && InMem(f) in held
    ensures f in s.ref && s.ref[f] > 0
    ensures var c := s.ref[f] - 1;
            Inv(s.(ref := s.ref[f := c]), held - multiset{InMem(f)}, if c == 0 && f !in s.index then own + {f} else own)
  {
    hide Typed; hide Counts; hide Linked; hide Pool; hide Guarded; hide Clean; hide Stores; hide Listed;
    HeldKnown(s, held, own, InMem(f));
    CountsDec(s.pt, s.ref, s.memMap, held, f);
    var ref := s.ref[f := s.ref[f] - 1];
    assert ref.Keys == s.ref.Keys;
    SameKeys(s, held - multiset{InMem(f)}, ref);
    TypedMinus(s.pt, s.ref, s.memMap, held, InMem(f));
    PoolDec(s.ref, s.index, s.free, own, f);
  }

  // page_ref_dec, and free_pages for a frame nobody refers to any more.
  ghost function Dropped(s: St, f: int): St
    requires f in s.ref && s.ref[f] > 0
  {
    var s' := s.(ref := s.ref[f := s.ref[f] - 1]);
    if s'.ref[f] == 0 && f !in s.index then s'.(free := s.free + {f}, dirty := s.dirty - {f}) else s'
  }

  lemma DropStep(s: St, held: multiset<Target>, own: set<int>, f: int)
    requires Inv(s, held, own) && InMem(f) in held
    ensures f in s.ref && s.ref[f] > 0
    ensures Inv(Dropped(s, f), held - multiset{InMem(f)}, own)
  {
    hide Inv;
    NotOwned(s, held, own, f);
    DecStep(s, held, own, f);
    var s' := s.(ref := s.ref[f := s.ref[f] - 1]);
    if s'.ref[f] == 0 && f !in s.index {
      FreeStep(s', held - multiset{InMem(f)}, own + {f}, f);
      assert own + {f} - {f} == own;
    }
  }

  lemma NotOwned(s: St, held: multiset<Target>, own: set<int>, f: int)
    requires Inv(s, held, own) && InMem(f) in held
    ensures f !in own && f !in s.free
  {
    HeldKnown(s, held, own, InMem(f));
    hide Typed; hide Linked; hide Guarded; hide Clean; hide Stores; hide Listed; hide Holders;
  }

  // A page-table entry is cleared; its reference is now held by the caller.
  lemma TakeStep(s: St, held: multiset<Target>, own: set<int>, k: Key)
    requires Inv(s, held, own) && k in s.pt
    ensures var s' := s.(pt := s.pt - {k});
            && Inv(s', held + multiset{s.pt[k].to}, own)
            && forall k' :: Mem(s', k') == if k' == k then Zero() else Mem(s, k')
  {
    hide Typed; hide Counts; hide Linked; hide Pool; hide Guarded; hide Clean; hide Stores; hide Listed; hide Total; hide Zero; hide At;
    TakeTotal(s.pt, held, k);
    CountsSame(s.pt, s.pt - {k}, s.ref, s.memMap, held, held + multiset{s.pt[k].to});
    TypedTake(s.pt, s.ref, s.memMap, held, k);
    GuardedTake(s.pt, s.index, k);
  }

  lemma TypedTake(pt: Table, ref: map<int, int>, memMap: map<int, int>, held: multiset<Target>, k: Key)
    requires Typed(pt, ref, memMap, held) && k in pt
    ensures Typed(pt - {k}, ref, memMap, held + multiset{pt[k].to})
  {
    hide Known;
  }

  lemma GuardedTake(pt: Table, index: map<int, int>, k: Key)
    requires Guarded(pt, index)
    ensures Guarded(pt - {k}, index)
  {
  }

  // An entry that may be written through is the only one for its frame; any other only joins entries of that kind.
  ghost predicate MayPut(pt: Table, index: map<int, int>, p: Pte) {
    if p.w then p.to.InMem? && p.to.f !in index && forall k :: k in pt ==> pt[k].to != p.to
    else forall k :: k in pt && pt[k].to == p.to ==> !pt[k].w
  }

  // A page-table entry is set from a reference the caller holds.
  lemma PutStep(s: St, held: multiset<Target>, own: set<int>, k: Key, p: Pte)
    requires Inv(s, held, own) && k !in s.pt && p.to in held && MayPut(s.pt, s.index, p)
    ensures var s' := s.(pt := s.pt[k := p]);
            && Inv(s', held - multiset{p.to}, own)
            && forall k' :: Mem(s', k') == if k' == k then At(p.to, s.cache, s.data, s.disk) else Mem(s, k')
  {
    hide Typed; hide Counts; hide Linked; hide Pool; hide Guarded; hide Clean; hide Stores; hide Listed; hide Total; hide Zero; hide At; hide MayPut;
    HeldKnown(s, held, own, p.to);
    PutTotal(s.pt, held, k, p);
    CountsSame(s.pt, s.pt[k := p], s.ref, s.memMap, held, held - multiset{p.to});
    TypedPut(s.pt, s.ref, s.memMap, held, k, p);
    GuardedPut(s.pt, s.index, k, p);
  }

  lemma TypedPut(pt: Table, ref: map<int, int>, memMap: map<int, int>, held: multiset<Target>, k: Key, p: Pte)
    requires Typed(pt, ref, memMap, held) && Known(p.to, ref, memMap)
    ensures Typed(pt[k := p], ref, memMap, held - multiset{p.to})
  {
    hide Known;
  }

  lemma GuardedPut(pt: Table, index: map<int, int>, k: Key, p: Pte)
    requires Guarded(pt, index) && k !in pt && MayPut(pt, index, p)
    ensures Guarded(pt[k := p], index)
  {
  }

  // mem_map of a slot goes up by one, from SWAP_UNUSED to 1 for a new one.
  lemma DuplicateStep(s: St, held: multiset<Target>, own: set<int>, e: int)
    requires Inv(s, held, own) && e in s.memMap && e > 0 && Total(s.pt, held, OnDisk(e)) < MAX_SWAP_REF
    ensures Inv(s.(memMap := s.memMap[e := Total(s.pt, held, OnDisk(e)) + 1]), held + multiset{OnDisk(e)}, own)
  {
    hide Typed; hide Counts; hide Pool; hide Guarded; hide Clean; hide Listed; hide Total;
    CountsDuplicate(s.pt, s.ref, s.memMap, held, e);
    var memMap := s.memMap[e := Total(s.pt, held, OnDisk(e)) + 1];
    TypedPlus(s.pt, s.ref, s.memMap, held, OnDisk(e));
    SameSlots(s, held + multiset{OnDisk(e)}, memMap);
  }

  lemma SameSlots(s: St, held: multiset<Target>, memMap: map<int, int>)
    requires memMap.Keys == s.memMap.Keys
    ensures Typed(s.pt, s.ref, memMap, held) == Typed(s.pt, s.ref, s.memMap, held)
  {
  }

  // mem_map of a slot goes down by one, to SWAP_UNUSED from 1.
  lemma RemoveStep(s: St, held: multiset<Target>, own: set<int>, e: int)
    requires Inv(s, held, own) && OnDisk(e) in held
    requires e in s.memMap && s.memMap[e] == 1 ==> e !in s.cache
    ensures e in s.memMap && s.memMap[e] > 0
    ensures Inv(s.(memMap := s.memMap[e := Stored(s.memMap[e] - 1)]), held - multiset{OnDisk(e)}, own)
  {
    hide Typed; hide Counts; hide Pool; hide Guarded; hide Clean; hide Listed; hide Total;
    HeldKnown(s, held, own, OnDisk(e));
    CountsRemove(s.pt, s.ref, s.memMap, held, e);
    var memMap := s.memMap[e := Stored(s.memMap[e] - 1)];
    TypedMinus(s.pt, s.ref, s.memMap, held, OnDisk(e));
    SameSlots(s, held - multiset{OnDisk(e)}, memMap);
    CountsBound(s.pt, s.ref, s.memMap, held, e);
  }

  lemma CountsBound(pt: Table, ref: map<int, int>, memMap: map<int, int>, held: multiset<Target>, e: int)
    requires Counts(pt, ref, memMap, held) && e in memMap
    ensures memMap[e] == Stored(Total(pt, held, OnDisk(e))) && Total(pt, held, OnDisk(e)) <= MAX_SWAP_REF
  {
  }

  // A frame enters the swap cache as the copy of slot `e`.
  ghost function Cached(s: St, f: int, e: int): St {
    s.(index := s.index[f := e], cache := s.cache[e := f], active := s.active + [f])
  }

  lemma CacheStep(s: St, held: multiset<Target>, own: set<int>, f: int, e: int)
    requires Inv(s, held, own) && f in s.ref && f !in s.free && f !in s.index
    requires e in s.memMap && s.memMap[e] != SWAP_UNUSED && e !in s.cache
    requires forall k :: k in s.pt && s.pt[k].to == InMem(f) ==> !s.pt[k].w
    requires f in s.dirty || Read(s.data, f) == Read(s.disk, e)
    requires (forall k :: k in s.pt ==> s.pt[k].to != OnDisk(e)) || Read(s.data, f) == Read(s.disk, e)
    ensures Inv(Cached(s, f, e), held, own - {f}) && Alike(s, Cached(s, f, e))
  {
    hide Typed; hide Counts; hide Linked; hide Pool; hide Guarded; hide Clean; hide Listed; hide Zero; hide Read;
    LinkedCache(s.cache, s.index, s.ref, s.memMap, f, e);
    PoolCache(s.ref, s.index, s.free, own, f, e);
    GuardedCache(s.pt, s.index, f, e);
    CleanCache(s.index, s.dirty, s.data, s.disk, f, e);
    ListedAdd(s.active, s.inactive, s.index, f, e);
  }

  lemma LinkedCache(cache: map<int, int>, index: map<int, int>, ref: map<int, int>, memMap: map<int, int>, f: int, e: int)
    requires Linked(cache, index, ref, memMap) && f in ref && f !in index && e in memMap && memMap[e] != SWAP_UNUSED && e !in cache
    ensures Linked(cache[e := f], index[f := e], ref, memMap)
  {
  }

  lemma PoolCache(ref: map<int, int>, index: map<int, int>, free: set<int>, own: set<int>, f: int, e: int)
    requires Pool(ref, index, free, own) && f !in free
    ensures Pool(ref, index[f := e], free, own - {f})
  {
  }

  lemma GuardedCache(pt: Table, index: map<int, int>, f: int, e: int)
    requires Guarded(pt, index) && forall k :: k in pt && pt[k].to == InMem(f) ==> !pt[k].w
    ensures Guarded(pt, index[f := e])
  {
  }

  lemma CleanCache(index: map<int, int>, dirty: set<int>, data: map<int, Content>, disk: map<int, Content>, f: int, e: int)
    requires Clean(index, dirty, data, disk) && f in data && e in disk && (f in dirty || Read(data, f) == Read(disk, e))
    ensures Clean(index[f := e], dirty, data, disk)
  {
  }

  lemma ListedAdd(active: seq<int>, inactive: seq<int>, index: map<int, int>, f: int, e: int)
    requires Listed(active, inactive, index) && f !in index
    ensures Listed(active + [f], inactive, index[f := e])
  {
    assert index[f := e].Keys == index.Keys + {f};
    assert multiset(index.Keys + {f}) == multiset(index.Keys) + multiset{f};
  }

  // swap_list_del and swap_page_del, and free_pages for a frame nobody refers to.
  ghost function Uncached(s: St, e: int, active: seq<int>, inactive: seq<int>): St
    requires e in s.cache && s.cache[e] in s.ref
  {
    var f := s.cache[e];
    var s' := s.(index := s.index - {f}, cache := s.cache - {e}, active := active, inactive := inactive);
    if s.ref[f] == 0 then s'.(free := s.free + {f}, dirty := s.dirty - {f}) else s'
  }

  lemma UncacheStep(s: St, held: multiset<Target>, own: set<int>, e: int, active: seq<int>, inactive: seq<int>)
    requires Inv(s, held, own) && e in s.cache
    requires (forall k :: k in s.pt ==> s.pt[k].to != OnDisk(e)) || s.cache[e] !in s.dirty
    requires multiset(active) + multiset(inactive) + multiset{s.cache[e]} == multiset(s.active) + multiset(s.inactive)
    ensures s.cache[e] in s.ref
    ensures Inv(Uncached(s, e, active, inactive), held, own)
    ensures Alike(s, Uncached(s, e, active, inactive))
  {
    hide Inv; hide View; hide Listed;
    var f := s.cache[e];
    UncacheOnly(s, held, own, f, e, active, inactive);
    var s' := s.(index := s.index - {f}, cache := s.cache - {e}, active := active, inactive := inactive);
    if s.ref[f] == 0 {
      FreeStep(s', held, own + {f}, f);
      assert own + {f} - {f} == own;
    }
  }

  lemma UncacheOnly(s: St, held: multiset<Target>, own: set<int>, f: int, e: int, active: seq<int>, inactive: seq<int>)
    requires Inv(s, held, own) && e in s.cache && s.cache[e] == f
    requires (forall k :: k in s.pt ==> s.pt[k].to != OnDisk(e)) || f !in s.dirty
    requires multiset(active) + multiset(inactive) + multiset{f} == multiset(s.active) + multiset(s.inactive)
    ensures f in s.ref && f !in own
    ensures var s' := s.(index := s.index - {f}, cache := s.cache - {e}, active := active, inactive := inactive);
            Inv(s', held, if s.ref[f] == 0 then own + {f} else own) && Alike(s, s')
  {
    hide Typed; hide Counts; hide Linked; hide Pool; hide Guarded; hide Clean; hide Listed; hide Zero; hide Read;
    LinkedUncache(s.cache, s.index, s.ref, s.memMap, f, e);
    PoolUncache(s.ref, s.index, s.free, own, f);
    GuardedUncache(s.pt, s.index, f);
    CleanUncache(s.index, s.dirty, s.data, s.disk, f);
    ListedDel(s.active, s.inactive, active, inactive, s.index, f);
  }

  lemma LinkedUncache(cache: map<int, int>, index: map<int, int>, ref: map<int, int>, memMap: map<int, int>, f: int, e: int)
    requires Linked(cache, index, ref, memMap) && e in cache && cache[e] == f
    ensures f in ref && f in index && index[f] == e
    ensures Linked(cache - {e}, index - {f}, ref, memMap)
  {
  }

  lemma PoolUncache(ref: map<int, int>, index: map<int, int>, free: set<int>, own: set<int>, f: int)
    requires Pool(ref, index, free, own) && f in ref && f in index
    ensures f !in own && f !in free
    ensures Pool(ref, index - {f}, free, if ref[f] == 0 then own + {f} else own)
  {
  }

  lemma GuardedUncache(pt: Table, index: map<int, int>, f: int)
    requires Guarded(pt, index)
    ensures Guarded(pt, index - {f})
  {
  }

  lemma CleanUncache(index: map<int, int>, dirty: set<int>, data: map<int, Content>, disk: map<int, Content>, f: int)
    requires Clean(index, dirty, data, disk) && f in index
    ensures Clean(index - {f}, dirty, data, disk)
    ensures f !in dirty ==> Read(data, f) == Read(disk, index[f])
  {
  }

  lemma ListedDel(active: seq<int>, inactive: seq<int>, active': seq<int>, inactive': seq<int>, index: map<int, int>, f: int)
    requires Listed(active, inactive, index) && f in index
    requires multiset(active') + multiset(inactive') + multiset{f} == multiset(active) + multiset(inactive)
    ensures Listed(active', inactive', index - {f})
  {
    assert (index - {f}).Keys + {f} == index.Keys;
    assert multiset((index - {f}).Keys) + multiset{f} == multiset(index.Keys);
    Cancel(multiset(active') + multiset(inactive'), multiset((index - {f}).Keys), f);
  }

  lemma Cancel(a: multiset<int>, b: multiset<int>, f: int)
    requires a + multiset{f} == b + multiset{f}
    ensures a == b
  {
    assert a == a + multiset{f} - multiset{f};
    assert b == b + multiset{f} - multiset{f};
  }

  lemma DirtyStep(s: St, held: multiset<Target>, own: set<int>, f: int)
    requires Inv(s, held, own)
    ensures Inv(s.(dirty := s.dirty + {f}), held, own)
  {
    hide Typed; hide Counts; hide Linked; hide Pool; hide Guarded; hide Listed; hide Stores;
  }

  // A cached frame is written to its slot.
  lemma WriteOutStep(s: St, held: multiset<Target>, own: set<int>, f: int, e: int)
    requires Inv(s, held, own) && e in s.cache && s.cache[e] == f
    ensures f in s.data && e in s.disk
    ensures var s' := s.(dirty := s.dirty - {f}, disk := s.disk[e := s.data[f]]);
            Inv(s', held, own) && Alike(s, s')
  {
    hide Typed; hide Counts; hide Pool; hide Guarded; hide Listed; hide Zero;
  }

  // A store through a writable entry reaches no other page.
  lemma StoreStep(s: St, held: multiset<Target>, own: set<int>, k: Key, c: Content)
    requires Inv(s, held, own) && k in s.pt && s.pt[k].w
    ensures s.pt[k].to.InMem?
    ensures var s' := s.(data := s.data[s.pt[k].to.f := c]);
            Inv(s', held, own) && forall k' :: Mem(s', k') == if k' == k then c else Mem(s, k')
  {
    hide Counts; hide Pool; hide Listed; hide Zero;
  }

  lemma ListStep(s: St, held: multiset<Target>, own: set<int>, active: seq<int>, inactive: seq<int>)
    requires Inv(s, held, own) && multiset(active) + multiset(inactive) == multiset(s.active) + multiset(s.inactive)
    ensures Inv(s.(active := active, inactive := inactive), held, own)
  {
    hide Typed; hide Counts; hide Linked; hide Pool; hide Guarded; hide Clean; hide Stores;
  }

  // What a page-table entry says about the place it refers to.
  lemma PteFacts(s: St, held: multiset<Target>, own: set<int>, k: Key)
    requires Inv(s, held, own) && k in s.pt
    ensures s.pt[k].to.InMem? ==> var f := s.pt[k].to.f; f in s.ref && s.ref[f] > 0 && f !in s.free && f !in own && f in s.data
    ensures s.pt[k].to.OnDisk? ==> var e := s.pt[k].to.e; e in s.memMap && e > 0 && 0 < s.memMap[e] <= MAX_SWAP_REF
    ensures s.pt[k].w ==> s.pt[k].to.InMem? && s.pt[k].to.f !in s.index
  {
    hide Linked; hide Clean; hide Listed; hide Total;
    HeldBy(s.pt, held, k);
  }

  lemma CacheFacts(s: St, held: multiset<Target>, own: set<int>, e: int)
    requires Inv(s, held, own) && e in s.cache
    ensures var f := s.cache[e];
            && f in s.ref && f in s.index && s.index[f] == e && f !in s.free && f !in own && f in s.data
            && (f in s.active || f in s.inactive)
    ensures e in s.memMap && 0 < s.memMap[e] <= MAX_SWAP_REF && s.memMap[e] == Total(s.pt, held, OnDisk(e))
    ensures forall k :: k in s.pt && s.pt[k].to == InMem(s.cache[e]) ==> !s.pt[k].w
  {
    hide Clean; hide Total; hide Typed;
    var f := s.cache[e];
    assert f in multiset(s.index.Keys);
  }

  lemma IndexFacts(s: St, held: multiset<Target>, own: set<int>, f: int)
    requires Inv(s, held, own) && f in s.index
    ensures s.index[f] in s.cache && s.cache[s.index[f]] == f
  {
    hide Clean; hide Total; hide Typed; hide Counts; hide Pool; hide Guarded; hide Stores; hide Listed;
  }

  // Who holds the only reference to a slot knows that no page-table entry does.
  lemma LastHolder(s: St, held: multiset<Target>, own: set<int>, e: int)
    requires Inv(s, held, own) && OnDisk(e) in held
    ensures e in s.memMap && 0 < s.memMap[e] <= MAX_SWAP_REF
    ensures s.memMap[e] == 1 ==> forall k :: k in s.pt ==> s.pt[k].to != OnDisk(e)
  {
    HeldKnown(s, held, own, OnDisk(e));
    CountsBound(s.pt, s.ref, s.memMap, held, e);
    hide Inv;
    if exists k :: k in s.pt && s.pt[k].to == OnDisk(e) {
      var k :| k in s.pt && s.pt[k].to == OnDisk(e);
      assert k in Holders(s.pt, OnDisk(e));
    }
  }

  /**
   * When page_insert may set entry `k` to `p`: a writable entry gets a frame just
   * allocated, the one it alone refers to, or the cached copy of the slot it
   * alone refers to; another entry must not join a writable one.
   */
  ghost predicate MayInsert(s: St, own: set<int>, k: Key, p: Pte)
    requires p.to.InMem?
  {
    var f := p.to.f;
    if p.w then
      || f in own
      || (k in s.pt && s.pt[k].to == InMem(f) && f in s.ref && s.ref[f] == 1 && f !in s.index)
      || (k in s.pt && s.pt[k].to.OnDisk? && s.pt[k].to.e in s.memMap && s.memMap[s.pt[k].to.e] == 1
          && f in s.index && s.index[f] == s.pt[k].to.e && f in s.ref && s.ref[f] == 0)
    else
      forall k' :: k' in s.pt && k' != k && s.pt[k'].to == InMem(f) ==> !s.pt[k'].w
  }

  lemma OneHolder(s: St, held: multiset<Target>, own: set<int>, k: Key)
    requires Inv(s, held, own) && k in s.pt
    ensures s.pt[k].to.InMem? && s.pt[k].to.f in s.ref && s.ref[s.pt[k].to.f] == 1 ==> forall k' :: k' in s.pt && s.pt[k'].to == s.pt[k].to ==> k' == k
    ensures s.pt[k].to.OnDisk? && s.pt[k].to.e in s.memMap && s.memMap[s.pt[k].to.e] == 1 ==> Total(s.pt - {k}, held, s.pt[k].to) == 0
  {
    var t := s.pt[k].to;
    PteFacts(s, held, own, k);
    CountFacts(s, held, own, t);
    hide Inv;
    HoldersTake(s.pt, k, t);
    if Total(s.pt, held, t) == 1 {
      Unheld(s.pt - {k}, held, t);
      forall k' | k' in s.pt && k' != k
        ensures s.pt[k'].to != t
      {
        assert k' in s.pt - {k};
      }
    }
  }

  lemma CountFacts(s: St, held: multiset<Target>, own: set<int>, t: Target)
    requires Inv(s, held, own)
    ensures t.InMem? && t.f in s.ref ==> s.ref[t.f] == Total(s.pt, held, t)
    ensures t.OnDisk? && t.e in s.memMap ==> s.memMap[t.e] == Stored(Total(s.pt, held, t)) && Total(s.pt, held, t) <= MAX_SWAP_REF
  {
    hide Linked; hide Pool; hide Guarded; hide Clean; hide Stores; hide Listed; hide Typed; hide Total;
  }

  lemma NoHolder(s: St, held: multiset<Target>, own: set<int>, f: int)
    requires Inv(s, held, own) && f in s.ref && s.ref[f] == 0
    ensures forall k :: k in s.pt ==> s.pt[k].to != InMem(f)
  {
    hide Linked; hide Pool; hide Guarded; hide Clean; hide Stores; hide Listed; hide Total; hide Typed;
    Unheld(s.pt, held, InMem(f));
  }

  lemma OwnFacts(s: St, held: multiset<Target>, own: set<int>, f: int)
    requires Inv(s, held, own) && f in own
    ensures f in s.ref && s.ref[f] == 0 && f !in s.index && f !in s.free && f in s.data
  {
    hide Linked; hide Guarded; hide Clean; hide Listed; hide Counts; hide Typed;
  }

  // An unused slot is not cached.
  lemma UnusedFacts(s: St, held: multiset<Target>, own: set<int>, e: int)
    requires Inv(s, held, own) && e in s.memMap && Total(s.pt, held, OnDisk(e)) == 0
    ensures e !in s.cache && forall f :: f in s.index ==> s.index[f] != e
  {
    hide Pool; hide Guarded; hide Clean; hide Stores; hide Listed; hide Total; hide Typed;
  }

  // The entry keeps its frame and changes its flags.
  lemma InsertSame(s: St, held: multiset<Target>, own: set<int>, k: Key, f: int, p: Pte)
    requires Inv(s, held, own) && k in s.pt && s.pt[k].to == p.to == InMem(f) && MayInsert(s, own, k, p)
    ensures f !in own
    ensures var s' := s.(pt := s.pt[k := p]);
            Inv(s', held, own) && forall k' :: Mem(s', k') == if k' == k then Read(s.data, f) else Mem(s, k')
  {
    hide Inv; hide Zero; hide Read; hide View;
    PteFacts(s, held, own, k);
    OneHolder(s, held, own, k);
    TakeStep(s, held, own, k);
    var s1 := s.(pt := s.pt - {k});
    PutStep(s1, held + multiset{p.to}, own, k, p);
    assert s1.pt[k := p] == s.pt[k := p];
    assert held + multiset{p.to} - multiset{p.to} == held;
  }

  // The entry was empty, or has been cleared after the frame got one more reference.
  lemma InsertMay(s: St, s1: St, held: multiset<Target>, own: set<int>, k: Key, f: int, p: Pte)
    requires Inv(s, held, own) && p.to == InMem(f) && MayInsert(s, own, k, p) && f in s.ref
    requires !(k in s.pt && s.pt[k].to == InMem(f))
    requires Inv(s1, held + multiset{InMem(f)}, own - {f}) && s1.pt == s.pt - {k}
    requires s1.memMap.Keys == s.memMap.Keys
    requires forall f' :: f' in s1.index ==> f' in s.index && s1.index[f'] == s.index[f']
    ensures MayPut(s1.pt, s1.index, p)
  {
    hide Inv; hide Total;
    if p.w {
      if f in own {
        OwnFacts(s, held, own, f);
      } else {
        var e := s.pt[k].to.e;
        OneHolder(s, held, own, k);
        TotalPlus(s.pt - {k}, held, InMem(f));
        PteFacts(s, held, own, k);
        UnusedFacts(s1, held + multiset{InMem(f)}, own - {f}, e);
      }
      NoHolder(s, held, own, f);
    }
  }

  // The contents of a frame in the caller's hands are nobody else's.
  lemma FillStep(s: St, held: multiset<Target>, own: set<int>, f: int, c: Content)
    requires Inv(s, held, own) && f in own
    ensures Inv(s.(data := s.data[f := c]), held, own) && Alike(s, s.(data := s.data[f := c]))
  {
    hide Counts; hide Typed; hide Guarded; hide Listed; hide Zero;
    NoHolder(s, held, own, f);
  }

  // Frame `f` holds what page `k` sees.
  ghost predicate Behind(s: St, k: Key, f: int) {
    && k in s.pt
    && if s.pt[k].to.InMem? then s.pt[k].to.f == f
       else s.pt[k].to.e in s.cache && s.cache[s.pt[k].to.e] == f
  }

  lemma BehindFacts(s: St, held: multiset<Target>, own: set<int>, k: Key, f: int)
    requires Inv(s, held, own) && Behind(s, k, f)
    ensures f in s.ref && f !in s.free && f !in own && f in s.data && Mem(s, k) == Read(s.data, f)
    ensures f in s.index ==> s.index[f] in s.memMap && s.memMap[s.index[f]] > 0
    ensures s.ref[f] >= 0
  {
    hide Inv;
    PteFacts(s, held, own, k);
    CountFacts(s, held, own, InMem(f));
    if s.pt[k].to.OnDisk? {
      CacheFacts(s, held, own, s.pt[k].to.e);
    } else {
      CountFacts(s, held, own, s.pt[k].to);
    }
    if f in s.index {
      IndexFacts(s, held, own, f);
      CacheFacts(s, held, own, s.index[f]);
    }
  }

  // swap_page_count
  function SwapCount(s: St, f: int): int {
    if f in s.index && s.index[f] in s.memMap then s.memMap[s.index[f]] else 0
  }

  // Another page sees frame `f`, through the frame itself or through the slot it is the copy of.
  ghost predicate Shared(s: St, k: Key, f: int) {
    exists k' :: k' in s.pt && k' != k && Refers(s, k', f)
  }

  ghost predicate Refers(s: St, k: Key, f: int) {
    k in s.pt && (s.pt[k].to == InMem(f) || (f in s.index && s.pt[k].to == OnDisk(s.index[f])))
  }

  // All pages that see frame `f`.
  ghost function Viewers(s: St, f: int): set<Key> {
    set k | k in s.pt && Refers(s, k, f)
  }

  // page_ref and swap_page_count together are the number of pages that see the frame.
  lemma CountIsViewers(s: St, held: multiset<Target>, own: set<int>, f: int)
    requires Inv(s, held, own) && held == multiset{} && f in s.ref
    ensures s.ref[f] + SwapCount(s, f) == |Viewers(s, f)|
  {
    hide Inv;
    CountFacts(s, held, own, InMem(f));
    var a := Holders(s.pt, InMem(f));
    if f in s.index {
      var e := s.index[f];
      IndexFacts(s, held, own, f);
      CacheFacts(s, held, own, e);
      var b := Holders(s.pt, OnDisk(e));
      assert Viewers(s, f) == a + b && a !! b;
    } else {
      assert Viewers(s, f) == a;
    }
  }

  // The test of copy on write: more than one reference means that another page sees the frame.
  lemma SharedIs(s: St, held: multiset<Target>, own: set<int>, k: Key, f: int)
    requires Inv(s, held, own) && held == multiset{} && Behind(s, k, f)
    ensures f in s.ref && (s.ref[f] + SwapCount(s, f) > 1 <==> Shared(s, k, f))
  {
    hide Inv;
    BehindFacts(s, held, own, k, f);
    CountIsViewers(s, held, own, f);
    if s.pt[k].to.OnDisk? {
      CacheFacts(s, held, own, s.pt[k].to.e);
    }
    var rest := Viewers(s, f) - {k};
    assert Viewers(s, f) == rest + {k};
    if rest == {} {
      assert !Shared(s, k, f) by {
        forall k' | k' in s.pt && k' != k
          ensures !Refers(s, k', f)
        {
          assert k' !in rest;
        }
      }
    } else {
      SomeKey(rest);
      var k' :| k' in rest;
      assert Refers(s, k', f);
    }
  }

  lemma SomeKey(ks: set<Key>)
    ensures ks == {} || exists k :: k in ks
  {
    if forall k :: k !in ks {
      assert ks == {};
    }
  }

  // The only reference to the frame behind a page may become writable; a reference that stays read-only may always be set.
  lemma KeepMay(s: St, held: multiset<Target>, own: set<int>, k: Key, f: int, p: Pte)
    requires Inv(s, held, own) && Behind(s, k, f) && p.to == InMem(f)
    requires if p.w then f in s.ref && s.ref[f] + SwapCount(s, f) <= 1 else s.pt[k].to.OnDisk?
    ensures MayInsert(s, own, k, p)
  {
    hide Inv;
    BehindFacts(s, held, own, k, f);
    PteFacts(s, held, own, k);
    if s.pt[k].to.OnDisk? {
      CacheFacts(s, held, own, s.pt[k].to.e);
    }
  }

  lemma OwnMay(s: St, own: set<int>, k: Key, p: Pte)
    requires p.to.InMem? && p.to.f in own && p.w
    ensures MayInsert(s, own, k, p)
  {
  }

  lemma SlotFacts(s: St, held: multiset<Target>, own: set<int>, e: int)
    requires Inv(s, held, own) && e in s.memMap
    ensures e in s.disk
  {
    hide Linked; hide Guarded; hide Clean; hide Listed; hide Counts; hide Typed; hide Pool;
  }

  lemma ReadSame(s: St, f: int, e: int)
    requires f in s.data && e in s.disk && s.data[f] == s.disk[e]
    ensures Read(s.data, f) == Read(s.disk, e)
  {
  }

  lemma CopySame(s: St, f: int, f': int)
    requires f in s.data
    ensures Read(s.data[f' := s.data[f]], f') == Read(s.data, f)
  {
  }

  // A frame that nobody refers to may be mapped for reading and for writing.
  lemma FreshMay(s: St, own: set<int>, k: Key, p: Pte)
    requires p.to.InMem? && p.to.f in own && forall k :: k in s.pt ==> s.pt[k].to != p.to
    ensures MayInsert(s, own, k, p)
  {
  }

  lemma FreedAlike(s: St, s': St)
    requires s'.pt == s.pt && s'.cache == s.cache && s'.data == s.data && s'.disk == s.disk
    ensures Alike(s, s')
  {
  }

  // A frame that an entry refers to without PTE_PW has no writable entry at all.
  lemma JoinMay(s: St, held: multiset<Target>, own: set<int>, k: Key, k': Key, p: Pte)
    requires Inv(s, held, own) && k in s.pt && s.pt[k].to.InMem? && p.to == s.pt[k].to && !p.w && (k' == k || !s.pt[k].w)
    ensures MayInsert(s, own, k', p)
  {
    hide Counts; hide Typed; hide Linked; hide Pool; hide Clean; hide Stores; hide Listed;
  }

  // An entry for a slot is never writable.
  lemma SlotMay(s: St, held: multiset<Target>, own: set<int>, p: Pte)
    requires Inv(s, held, own) && p.to.OnDisk? && !p.w
    ensures MayPut(s.pt, s.index, p)
  {
    hide Counts; hide Typed; hide Linked; hide Pool; hide Clean; hide Stores; hide Listed;
  }

  lemma FlagMay(s: St, own: set<int>, k: Key, p: Pte)
    requires Inv(s, multiset{}, own) && k in s.pt && s.pt[k].to.InMem? && p.to == s.pt[k].to && p.w == s.pt[k].w
    ensures MayInsert(s, own, k, p)
  {
    PteFacts(s, multiset{}, own, k);
    if p.w {
      CountFacts(s, multiset{}, own, p.to);
      assert Holders(s.pt, p.to) == {k};
    } else {
      JoinMay(s, multiset{}, own, k, k, p);
    }
  }

  lemma PageSame(s: St, held: multiset<Target>, own: set<int>, k: Key)
    requires Inv(s, held, own) && k in s.pt && s.pt[k].to.InMem?
    ensures Mem(s, k) == Read(s.data, s.pt[k].to.f)
  {
  }

  lemma Untouched(s: St, k: Key)
    ensures k !in s.pt ==> Mem(s, k) == Zero()
  {
  }

  lemma NeverZero(s: St, held: multiset<Target>, own: set<int>)
    requires Inv(s, held, own)
    ensures forall e :: e in s.memMap ==> s.memMap[e] != 0
  {
    forall e | e in s.memMap
      ensures s.memMap[e] != 0
    {
      CountFacts(s, held, own, OnDisk(e));
    }
  }

  // A slot with value SWAP_UNUSED has no references and no cached copy.
  lemma FreshSlot(s: St, held: multiset<Target>, own: set<int>, e: int)
    requires Inv(s, held, own) && e in s.memMap && s.memMap[e] == SWAP_UNUSED
    ensures Total(s.pt, held, OnDisk(e)) == 0 && e !in s.cache && forall k :: k in s.pt ==> s.pt[k].to != OnDisk(e)
  {
    CountFacts(s, held, own, OnDisk(e));
    hide Inv;
    Unheld(s.pt, held, OnDisk(e));
    UnusedFacts(s, held, own, e);
  }

  lemma ListedFacts(s: St, held: multiset<Target>, own: set<int>, f: int)
    requires Inv(s, held, own) && (f in s.active || f in s.inactive)
    ensures f in s.index && f in s.ref && s.index[f] in s.cache && s.cache[s.index[f]] == f
  {
    hide Counts; hide Typed; hide Pool; hide Clean; hide Stores; hide Guarded;
    assert f in multiset(s.active) + multiset(s.inactive);
    assert f in multiset(s.index.Keys);
  }

  // A frame on the inactive list is there once, and not on the active list.
  lemma InactiveOnce(s: St, held: multiset<Target>, own: set<int>)
    requires Inv(s, held, own) && s.inactive != []
    ensures s.inactive[0] !in s.active && OffLists(s.active, s.inactive, s.inactive[0]) == (s.active, s.inactive[1..])
  {
    hide Counts; hide Typed; hide Pool; hide Clean; hide Stores; hide Guarded; hide Linked;
    var f := s.inactive[0];
    assert (multiset(s.active) + multiset(s.inactive))[f] <= 1;
    assert f in multiset(s.inactive);
    assert multiset(s.active)[f] == 0;
  }

  lemma WritersGone(s: St, held: multiset<Target>, own: set<int>, k: Key)
    requires Inv(s, held, own) && k in s.pt
    ensures forall k' :: k' in s.pt && k' != k && s.pt[k'].to == s.pt[k].to ==> !s.pt[k'].w
  {
    hide Counts; hide Typed; hide Linked; hide Pool; hide Clean; hide Stores; hide Listed;
  }
}
