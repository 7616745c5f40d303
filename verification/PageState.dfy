/**
 * What the paging code of mm/vmm.c, mm/pmm.c and mm/swap.c keeps between its
 * steps.  A page-table entry refers to a frame or to a slot of the swap area; a
 * frame in the swap cache stands in for one slot.
 */
module PageState {
  import opened Common

  type Content = seq<byte>

  const PGSIZE := 4096

  const SWAP_UNUSED := 0xFFFFF
  const MAX_SWAP_REF := 0xFFFFE

  // A page as alloc_pages hands it out.
  function Zero(): Content {
    seq(PGSIZE, i => 0)
  }

  // A page of one address space.
  datatype Key = Key(mm: int, va: int)

  datatype Target = InMem(f: int) | OnDisk(e: int)

  // A non-zero page-table entry: where the page is, and the flags PTE_PW, PTE_A, PTE_D and PTE_S.
  datatype Pte = Pte(to: Target, w: bool, a: bool, d: bool, stack: bool)

  type Table = map<Key, Pte>

  ghost function Holders(pt: Table, t: Target): set<Key> {
    set k | k in pt && pt[k].to == t
  }

  // References to `t`: from page-table entries, and held by code in the middle of a step.
  ghost function Total(pt: Table, held: multiset<Target>, t: Target): nat {
    |Holders(pt, t)| + held[t]
  }

  lemma HoldersPut(pt: Table, k: Key, p: Pte, t: Target)
    requires k !in pt
    ensures |Holders(pt[k := p], t)| == |Holders(pt, t)| + if p.to == t then 1 else 0
  {
    if p.to == t {
      assert Holders(pt[k := p], t) == Holders(pt, t) + {k};
    } else {
      assert Holders(pt[k := p], t) == Holders(pt, t);
    }
  }

  lemma HoldersTake(pt: Table, k: Key, t: Target)
    requires k in pt
    ensures |Holders(pt, t)| == |Holders(pt - {k}, t)| + if pt[k].to == t then 1 else 0
  {
    HoldersPut(pt - {k}, k, pt[k], t);
    assert (pt - {k})[k := pt[k]] == pt;
  }

  // An entry's reference becomes one held by the running code, and back.
  lemma TakeTotal(pt: Table, held: multiset<Target>, k: Key)
    requires k in pt
    ensures forall t :: Total(pt - {k}, held + multiset{pt[k].to}, t) == Total(pt, held, t)
  {
    forall t
      ensures Total(pt - {k}, held + multiset{pt[k].to}, t) == Total(pt, held, t)
    {
      HoldersTake(pt, k, t);
    }
  }

  lemma PutTotal(pt: Table, held: multiset<Target>, k: Key, p: Pte)
    requires k !in pt && p.to in held
    ensures forall t :: Total(pt[k := p], held - multiset{p.to}, t) == Total(pt, held, t)
  {
    forall t
      ensures Total(pt[k := p], held - multiset{p.to}, t) == Total(pt, held, t)
    {
      HoldersPut(pt, k, p, t);
    }
  }

  lemma TotalPlus(pt: Table, held: multiset<Target>, x: Target)
    ensures forall t :: Total(pt, held + multiset{x}, t) == Total(pt, held, t) + if t == x then 1 else 0
  {
  }

  lemma TotalMinus(pt: Table, held: multiset<Target>, x: Target)
    requires x in held
    ensures forall t :: Total(pt, held - multiset{x}, t) == Total(pt, held, t) - if t == x then 1 else 0
  {
  }

  lemma Unheld(pt: Table, held: multiset<Target>, t: Target)
    requires Total(pt, held, t) == 0
    ensures t !in held && forall k :: k in pt ==> pt[k].to != t
  {
    assert Holders(pt, t) == {};
    forall k | k in pt
      ensures pt[k].to != t
    {
      assert k !in Holders(pt, t);
    }
  }

  lemma HeldBy(pt: Table, held: multiset<Target>, k: Key)
    requires k in pt
    ensures Total(pt, held, pt[k].to) > 0
  {
    assert k in Holders(pt, pt[k].to);
  }

  // The value of mem_map for a slot with `c` references.
  function Stored(c: int): int {
    if c == 0 then SWAP_UNUSED else c
  }

  // page->ref and mem_map count the references.
  ghost predicate Counts(pt: Table, ref: map<int, int>, memMap: map<int, int>, held: multiset<Target>) {
    && (forall f :: f in ref ==> ref[f] == Total(pt, held, InMem(f)))
    && (forall e :: e in memMap ==> memMap[e] == Stored(Total(pt, held, OnDisk(e))) && Total(pt, held, OnDisk(e)) <= MAX_SWAP_REF)
  }

  lemma CountsSame(pt: Table, pt': Table, ref: map<int, int>, memMap: map<int, int>, held: multiset<Target>, held': multiset<Target>)
    requires Counts(pt, ref, memMap, held) && forall t :: Total(pt', held', t) == Total(pt, held, t)
    ensures Counts(pt', ref, memMap, held')
  {
    hide Total;
  }

  lemma CountsInc(pt: Table, ref: map<int, int>, memMap: map<int, int>, held: multiset<Target>, f: int)
    requires Counts(pt, ref, memMap, held) && f in ref
    ensures ref[f] >= 0 && Counts(pt, ref[f := ref[f] + 1], memMap, held + multiset{InMem(f)})
  {
    hide Total;
    TotalPlus(pt, held, InMem(f));
  }

  lemma CountsDec(pt: Table, ref: map<int, int>, memMap: map<int, int>, held: multiset<Target>, f: int)
    requires Counts(pt, ref, memMap, held) && f in ref && InMem(f) in held
    ensures ref[f] > 0 && Counts(pt, ref[f := ref[f] - 1], memMap, held - multiset{InMem(f)})
  {
    assert Total(pt, held, InMem(f)) > 0;
    hide Total;
    TotalMinus(pt, held, InMem(f));
  }

  lemma CountsDuplicate(pt: Table, ref: map<int, int>, memMap: map<int, int>, held: multiset<Target>, e: int)
    requires Counts(pt, ref, memMap, held) && e in memMap && Total(pt, held, OnDisk(e)) < MAX_SWAP_REF
    ensures Counts(pt, ref, memMap[e := Total(pt, held, OnDisk(e)) + 1], held + multiset{OnDisk(e)})
  {
    hide Total;
    TotalPlus(pt, held, OnDisk(e));
  }

  lemma CountsRemove(pt: Table, ref: map<int, int>, memMap: map<int, int>, held: multiset<Target>, e: int)
    requires Counts(pt, ref, memMap, held) && e in memMap && OnDisk(e) in held
    ensures memMap[e] == Total(pt, held, OnDisk(e)) > 0
    ensures Counts(pt, ref, memMap[e := Stored(memMap[e] - 1)], held - multiset{OnDisk(e)})
    ensures memMap[e] == 1 ==> Total(pt, held - multiset{OnDisk(e)}, OnDisk(e)) == 0
  {
    assert Total(pt, held, OnDisk(e)) > 0;
    hide Total;
    TotalMinus(pt, held, OnDisk(e));
  }

  ghost predicate Known(t: Target, ref: map<int, int>, memMap: map<int, int>) {
    if t.InMem? then t.f in ref else t.e in memMap && t.e > 0
  }

  ghost predicate Typed(pt: Table, ref: map<int, int>, memMap: map<int, int>, held: multiset<Target>) {
    && (forall k :: k in pt ==> Known(pt[k].to, ref, memMap))
    && (forall t :: t in held ==> Known(t, ref, memMap))
  }

  // The hash lists and page->index agree, and only slots in use are cached.
  ghost predicate Linked(cache: map<int, int>, index: map<int, int>, ref: map<int, int>, memMap: map<int, int>) {
    && (forall e :: e in cache ==> cache[e] in index && index[cache[e]] == e)
    && (forall f :: f in index ==> f in ref && index[f] in cache && cache[index[f]] == f)
    && (forall e :: e in cache ==> e in memMap && memMap[e] != SWAP_UNUSED)
  }

  // A frame is free exactly when it is unmapped and not in the swap cache; `own` is what a running step has allocated.
  ghost predicate Pool(ref: map<int, int>, index: map<int, int>, free: set<int>, own: set<int>) {
    && (forall f :: f in free ==> f in ref && ref[f] == 0 && f !in index && f !in own)
    && (forall f :: f in own ==> f in ref && ref[f] == 0 && f !in index)
    && (forall f :: f in ref && ref[f] == 0 && f !in index && f !in own ==> f in free)
  }

  // A frame that can be written through an entry has no other entry and is not in the swap cache.
  ghost predicate Guarded(pt: Table, index: map<int, int>) {
    forall k :: k in pt && pt[k].w ==>
      && pt[k].to.InMem? && pt[k].to.f !in index
      && forall k' :: k' in pt && pt[k'].to == pt[k].to ==> k' == k
  }

  // A cached frame that is not marked dirty agrees with its slot.
  ghost predicate Clean(index: map<int, int>, dirty: set<int>, data: map<int, Content>, disk: map<int, Content>) {
    forall f :: f in index && f !in dirty ==> f in data && index[f] in disk && data[f] == disk[index[f]]
  }

  ghost predicate Stores(data: map<int, Content>, disk: map<int, Content>, ref: map<int, int>, memMap: map<int, int>) {
    data.Keys == ref.Keys && disk.Keys == memMap.Keys
  }

  // Every cached frame is on exactly one of the two lists, once.
  ghost predicate Listed(active: seq<int>, inactive: seq<int>, index: map<int, int>) {
    multiset(active) + multiset(inactive) == multiset(index.Keys)
  }

  // What is stored at `t`.
  ghost function At(t: Target, cache: map<int, int>, data: map<int, Content>, disk: map<int, Content>): Content {
    if t.InMem? then Read(data, t.f)
    else if t.e in cache then Read(data, cache[t.e])
    else Read(disk, t.e)
  }

  ghost function Read(store: map<int, Content>, i: int): Content {
    if i in store then store[i] else Zero()
  }

  // What the address space sees: pages never touched read as zero.
  ghost function View(pt: Table, cache: map<int, int>, data: map<int, Content>, disk: map<int, Content>, k: Key): Content {
    if k in pt then At(pt[k].to, cache, data, disk) else Zero()
  }

  // swap_list_del: the frame is removed from the list it is on.
  function OffLists(active: seq<int>, inactive: seq<int>, f: int): (r: (seq<int>, seq<int>))
    requires f in active || f in inactive
    ensures multiset(r.0) + multiset(r.1) + multiset{f} == multiset(active) + multiset(inactive)
  {
    WithoutBag(active, f);
    WithoutBag(inactive, f);
    if f in active then (Without(active, f), inactive) else (active, Without(inactive, f))
  }
}
