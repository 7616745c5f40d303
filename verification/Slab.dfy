/**
 * The object caches of mm/slab.c: slabs of equal objects, each with a chain of
 * its free objects in the array bufctl.
 */
module Slab {
  import opened Common

  const PGSIZE := 4096
  const SLAB_ALIGN := 16
  const SLAB_HEAD := 48        // sizeof(Slab)
  const BUFCTL := 8            // sizeof(kem_bufctl_t)
  const BUFCTL_END := 0xFFFF_FFFF
  const KMALLOC_MAX_ORDER := 10

  // ROUNDUP to SLAB_ALIGN
  function RoundUp(x: int): (r: int)
    ensures x <= r < x + SLAB_ALIGN && r % SLAB_ALIGN == 0
  {
    (x + SLAB_ALIGN - 1) - (x + SLAB_ALIGN - 1) % SLAB_ALIGN
  }

  // slab_mgmt_size: the header and the array, rounded up.
  function MgmtSize(num: int): (r: int)
    ensures SLAB_HEAD + num * BUFCTL <= r < SLAB_HEAD + num * BUFCTL + SLAB_ALIGN && r % SLAB_ALIGN == 0
  {
    RoundUp(SLAB_HEAD + num * BUFCTL)
  }

  function SlabSize(order: nat): (r: int)
    ensures r >= PGSIZE
  {
    if order == 0 then PGSIZE else 2 * SlabSize(order - 1)
  }

  // `n` objects and what is kept in the slab about them fit.
  predicate Fits(n: int, objsize: int, offSlab: bool, size: int)
  {
    n * objsize + (if offSlab then 0 else MgmtSize(n)) <= size
  }

  // cache_estimate: as many objects as fit, and what is left over.
  method Estimate(size: int, objsize: int, offSlab: bool) returns (remainder: int, num: int)
    requires size >= PGSIZE && objsize > 0
    ensures Fits(num, objsize, offSlab, size) && Estimated(size, objsize, offSlab, remainder, num)
  {
    hide MgmtSize;
    if offSlab {
      num := size / objsize;
      DivFits(size, objsize);
      if num > BUFCTL_END {
        FewerFit(BUFCTL_END, num, objsize);
        num := BUFCTL_END;
      }
      remainder := size - num * objsize;
    } else {
      num := (size - SLAB_HEAD) / (objsize + BUFCTL);
      StartsHigh(size, objsize);
      while MgmtSize(num) + num * objsize > size
        invariant num >= 0 && forall n :: n > num ==> !Fits(n, objsize, false, size)
        decreases num
      {
        if num == 0 {
          assert false;
        }
        num := num - 1;
      }
      if num > BUFCTL_END {
        FewerFit(BUFCTL_END, num, objsize);
        MgmtMono(BUFCTL_END, num);
        num := BUFCTL_END;
      }
      remainder := size - num * objsize - MgmtSize(num);
    }
  }

  lemma DivFits(size: int, objsize: int)
    requires size >= 0 && objsize > 0
    ensures size / objsize >= 0 && size / objsize * objsize <= size
    ensures forall n :: n > size / objsize ==> n * objsize > size
  {
    var k := size / objsize;
    assert size == objsize * k + size % objsize;
    forall n | n > k
      ensures n * objsize > size
    {
      MulGe(n - k, objsize);
      assert n * objsize == k * objsize + (n - k) * objsize;
    }
  }

  lemma MulGe(d: int, w: int)
    requires d >= 1 && w >= 0
    ensures d * w >= w
  {
  }

  lemma FewerFit(a: int, b: int, w: int)
    requires 0 <= a <= b && w >= 0
    ensures a * w <= b * w
  {
  }

  lemma MgmtMono(a: int, b: int)
    requires a <= b
    ensures MgmtSize(a) <= MgmtSize(b)
  {
  }

  // No more objects fit than the first guess of cache_estimate.
  lemma StartsHigh(size: int, objsize: int)
    requires size >= PGSIZE && objsize > 0
    ensures var k := (size - SLAB_HEAD) / (objsize + BUFCTL);
            k >= 0 && forall n :: n > k ==> !Fits(n, objsize, false, size)
  {
    DivFits(size - SLAB_HEAD, objsize + BUFCTL);
    var k := (size - SLAB_HEAD) / (objsize + BUFCTL);
    forall n | n > k
      ensures !Fits(n, objsize, false, size)
    {
      assert n * (objsize + BUFCTL) == n * objsize + n * BUFCTL;
    }
  }

  // How a cache lays out its slabs.
  datatype Layout = Layout(objsize: int, num: int, order: nat, offset: int, offSlab: bool)

  // The objects lie inside the slab, behind what is kept about them if that is in the slab too.
  ghost predicate LayoutOk(l: Layout) {
    && l.objsize > 0 && 0 < l.num <= BUFCTL_END && l.offset >= 0
    && l.offset + l.num * l.objsize <= SlabSize(l.order)
    && (!l.offSlab ==> l.offset >= SLAB_HEAD + l.num * BUFCTL)
  }

  // What cache_estimate computes.
  ghost predicate Estimated(size: int, objsize: int, offSlab: bool, remainder: int, num: int) {
    && 0 <= num <= BUFCTL_END
    && remainder == size - num * objsize - (if offSlab then 0 else MgmtSize(num)) >= 0
    && (num < BUFCTL_END ==> forall n :: n > num ==> !Fits(n, objsize, offSlab, size))
  }

  // There is only one answer for cache_estimate.
  lemma EstimatedOnce(size: int, objsize: int, offSlab: bool, remainder: int, num: int, remainder': int, num': int)
    requires Estimated(size, objsize, offSlab, remainder, num) && Estimated(size, objsize, offSlab, remainder', num')
    ensures remainder == remainder' && num == num'
  {
    hide MgmtSize;
    assert num < num' ==> Fits(num', objsize, offSlab, size);
    assert num' < num ==> Fits(num, objsize, offSlab, size);
  }

  // The header and the array for so many objects, kept apart, would be larger than an object.
  predicate TooMany(objsize: int, offSlab: bool, num: int): (r: bool)
    ensures r <==> num != 0 && offSlab && SLAB_HEAD + num * BUFCTL > objsize
  {
    num != 0 && offSlab && num > (objsize - SLAB_HEAD) / BUFCTL
  }

  // More than an eighth of a slab of this order is left over.
  ghost predicate Wasteful(objsize: int, offSlab: bool, order: nat) {
    exists remainder, num :: Estimated(SlabSize(order), objsize, offSlab, remainder, num)
                             && remainder * 8 > SlabSize(order) && !TooMany(objsize, offSlab, num)
  }

  ghost predicate AllWasteful(objsize: int, offSlab: bool, order: nat) {
    forall o: nat :: o < order ==> Wasteful(objsize, offSlab, o)
  }

  // The layout uses the first order at which at most an eighth is left over; the header moves into what is left if it fits there.
  ghost predicate Chosen(l: Layout, offSlab: bool) {
    && l.order <= KMALLOC_MAX_ORDER && AllWasteful(l.objsize, offSlab, l.order)
    && exists remainder :: Estimated(SlabSize(l.order), l.objsize, offSlab, remainder, l.num)
                           && remainder * 8 <= SlabSize(l.order) && !TooMany(l.objsize, offSlab, l.num)
                           && (l.offSlab <==> offSlab && remainder < MgmtSize(l.num))
                           && l.offset == if l.offSlab then 0 else MgmtSize(l.num)
  }

  // The search stops at an order at which there are too many objects or none, or goes past the last order.
  ghost predicate Fails(objsize: int, offSlab: bool) {
    || AllWasteful(objsize, offSlab, KMALLOC_MAX_ORDER + 1)
    || exists order: nat :: order <= KMALLOC_MAX_ORDER && AllWasteful(objsize, offSlab, order) && Unusable(objsize, offSlab, order)
  }

  ghost predicate Unusable(objsize: int, offSlab: bool, order: nat) {
    exists remainder, num :: Estimated(SlabSize(order), objsize, offSlab, remainder, num)
                             && (TooMany(objsize, offSlab, num) || (num == 0 && remainder * 8 <= SlabSize(order)))
  }

  // The sizes of slab_init: the powers of 2 from 32 bytes up to 512 pages.
  ghost predicate KmallocSize(size: int) {
    size in {32, 64, 128, 256, 512, 1024, 2048} || exists j: nat :: j <= 9 && size == SlabSize(j)
  }

  // In a small slab less than an eighth is left over, and it is not empty.
  lemma SmallSize(size: int, remainder: int, num: int)
    requires size in {32, 64, 128, 256} && Estimated(PGSIZE, size, false, remainder, num)
    ensures num > 0 && remainder * 8 <= PGSIZE
  {
    hide MgmtSize;
    if num < BUFCTL_END {
      assert !Fits(num + 1, size, false, PGSIZE);
      assert (num + 1) * size == num * size + size;
    }
  }

  // A size that divides a page fills it.
  lemma PageSize(size: int, remainder: int, num: int)
    requires size in {512, 1024, 2048} && Estimated(PGSIZE, size, true, remainder, num)
    ensures remainder == 0 && 0 < num <= (size - SLAB_HEAD) / BUFCTL
  {
    assert !Fits(num + 1, size, true, PGSIZE);
  }

  // A larger size does not fit until the slab is as large, and then once.
  lemma LargeSize(j: nat, order: nat, remainder: int, num: int)
    requires order <= j && Estimated(SlabSize(order), SlabSize(j), true, remainder, num)
    ensures order < j ==> num == 0 && remainder == SlabSize(order)
    ensures order == j ==> num == 1 && remainder == 0
  {
    hide SlabSize;
    var a, b := SlabSize(order), SlabSize(j);
    SizesGrow(order, j);
    if num >= 1 {
      MulGe(num, b);
    }
    if num >= 2 {
      assert num * b == (num - 1) * b + b;
      MulGe(num - 1, b);
    }
    if num == 0 {
      assert !Fits(1, b, true, a);
    }
  }

  lemma {:induction false} SizesGrow(i: nat, j: nat)
    requires i <= j
    ensures if i < j then SlabSize(i) < SlabSize(j) else SlabSize(i) == SlabSize(j)
    decreases j
  {
    if i < j {
      SizesGrow(i, j - 1);
    }
  }

  // The search has come to `order` without passing the order of the size.
  ghost predicate Awaited(size: int, order: nat) {
    if size < PGSIZE then order == 0 else exists j: nat :: order <= j <= 9 && size == SlabSize(j)
  }

  lemma Aligned(size: int)
    requires KmallocSize(size)
    ensures RoundUp(size) == size && Awaited(size, 0)
  {
    hide SlabSize; hide RoundUp;
    if size in {32, 64, 128, 256, 512, 1024, 2048} {
      assert size == 32 * (size / 32);
      RoundSame(2 * (size / 32));
    } else {
      var j: nat :| j <= 9 && size == SlabSize(j);
      var m := AlignedPages(j);
      RoundSame(m);
    }
  }

  lemma RoundSame(m: int)
    ensures RoundUp(SLAB_ALIGN * m) == SLAB_ALIGN * m
  {
  }

  lemma {:induction false} AlignedPages(j: nat) returns (m: int)
    ensures SlabSize(j) == SLAB_ALIGN * m
  {
    if j == 0 {
      m := 256;
    } else {
      m := AlignedPages(j - 1);
      m := 2 * m;
    }
  }

  // One round of calculate_slab_order: it goes on without a panic, or has found the order.
  lemma OneOrder(size: int, order: nat, offSlab: bool, remainder: int, num: int)
    requires KmallocSize(size) && Awaited(size, order) && (offSlab <==> size >= PGSIZE / 8)
    requires Estimated(SlabSize(order), size, offSlab, remainder, num)
    ensures num == 0 || !offSlab || num <= (size - SLAB_HEAD) / BUFCTL
    ensures if remainder * 8 <= SlabSize(order) then num > 0 else order < 9 && Awaited(size, order + 1)
  {
    hide Fits; hide MgmtSize;
    if size < PGSIZE / 8 {
      SmallSize(size, remainder, num);
    } else if size < PGSIZE {
      PageSize(size, remainder, num);
    } else {
      var j: nat :| order <= j <= 9 && size == SlabSize(j);
      LargeSize(j, order, remainder, num);
    }
  }

  /**
   * init_kmem_cache with calculate_slab_order; None stands for one of its
   * panics, which none of the caches that slab_init sets up runs into.
   */
  method InitCache(size: int) returns (r: Option<Layout>)
    requires size > 0
    ensures r.Some? ==> LayoutOk(r.value) && r.value.objsize == RoundUp(size) >= size && Chosen(r.value, RoundUp(size) >= PGSIZE / 8)
    ensures r.None? ==> Fails(RoundUp(size), RoundUp(size) >= PGSIZE / 8)
    ensures KmallocSize(size) ==> r.Some? && r.value.objsize == size
  {
    hide MgmtSize; hide SlabSize; hide Fits; hide KmallocSize; hide Estimated;
    var objsize := RoundUp(size);
    var offSlab := objsize >= PGSIZE / 8;
    var order := 0;
    r := None;
    if KmallocSize(size) {
      Aligned(size);
    }
    while order <= KMALLOC_MAX_ORDER
      invariant 0 <= order <= KMALLOC_MAX_ORDER + 1 && (KmallocSize(size) ==> Awaited(size, order))
      invariant AllWasteful(objsize, offSlab, order)
    {
      var remainder, num := Estimate(SlabSize(order), objsize, offSlab);
      if KmallocSize(size) {
        OneOrder(size, order, offSlab, remainder, num);
      }
      if TooMany(objsize, offSlab, num) {
        assert Unusable(objsize, offSlab, order);
        return None;
      }
      if remainder * 8 <= SlabSize(order) {
        if num == 0 {
          assert Unusable(objsize, offSlab, order);
          return None;
        }
        var mgmt := MgmtSize(num);
        var off := offSlab && remainder < mgmt;
        Room(SlabSize(order), objsize, offSlab, remainder, num);
        return Some(Layout(objsize, num, order, if off then 0 else mgmt, off));
      }
      assert Wasteful(objsize, offSlab, order);
      order := order + 1;
    }
  }

  lemma Room(size: int, objsize: int, offSlab: bool, remainder: int, num: int)
    requires Estimated(size, objsize, offSlab, remainder, num)
    ensures 0 <= num <= BUFCTL_END && num * objsize <= size
    ensures !(offSlab && remainder < MgmtSize(num)) ==> MgmtSize(num) + num * objsize <= size
  {
    hide MgmtSize; hide Fits;
  }

  // A slab: its objects in use, the first free one, and for every free one the next.
  datatype SlabRec = SlabRec(inuse: int, free: int, bufctl: seq<int>)

  // The free objects are `chain`, in the order of bufctl.
  ghost predicate SlabOk(s: SlabRec, chain: seq<int>, num: int) {
    && |s.bufctl| == num && |chain| + s.inuse == num && s.inuse >= 0
    && (forall k :: 0 <= k < |chain| ==> 0 <= chain[k] < num)
    && (forall k, l :: 0 <= k < l < |chain| ==> chain[k] != chain[l])
    && s.free == Nth(chain, 0)
    && (forall k :: 0 <= k < |chain| ==> s.bufctl[chain[k]] == Nth(chain, k + 1))
  }

  function Nth(chain: seq<int>, k: int): int
    requires 0 <= k
  {
    if k < |chain| then chain[k] else BUFCTL_END
  }

  // The slabs of a cache by address, and its two lists.
  datatype Cache = Cache(slabs: map<int, SlabRec>, full: seq<int>, notfull: seq<int>)

  type Chains = map<int, seq<int>>

  ghost predicate Inv(c: Cache, chains: Chains, l: Layout) {
    && chains.Keys == c.slabs.Keys
    && (forall b :: b in c.slabs ==> SlabOk(c.slabs[b], chains[b], l.num) && c.slabs[b].inuse >= 1)
    && (forall b :: b in c.full ==> b in c.slabs && chains[b] == [])
    && (forall b :: b in c.notfull ==> b in c.slabs && chains[b] != [])
    && (forall b :: b in c.slabs ==> b in c.full || b in c.notfull)
    && Once(c.full) && Once(c.notfull)
    && (forall b, b' :: b in c.slabs && b' in c.slabs && b != b' ==> Apart(b, b', SlabSize(l.order)))
  }

  ghost predicate Once(s: seq<int>) {
    forall i, j :: 0 <= i < j < |s| ==> s[i] != s[j]
  }

  ghost predicate Apart(b: int, b': int, size: int) {
    b + size <= b' || b' + size <= b
  }

  ghost predicate Live(chains: Chains, l: Layout, b: int, i: int) {
    b in chains && 0 <= i < l.num && i !in chains[b]
  }

  // Another object of the slab is in use.
  ghost predicate OthersLive(chains: Chains, l: Layout, b: int, i: int) {
    exists i' :: i' != i && Live(chains, l, b, i')
  }

  function Address(l: Layout, b: int, i: int): int {
    b + l.offset + i * l.objsize
  }

  // Objects in use overlap neither each other nor what is kept in their slab.
  lemma NoOverlap(c: Cache, chains: Chains, l: Layout, b: int, i: int, b': int, i': int)
    requires LayoutOk(l) && Inv(c, chains, l) && Live(chains, l, b, i) && Live(chains, l, b', i') && (b, i) != (b', i')
    ensures var x, y := Address(l, b, i), Address(l, b', i');
            && Apart(x, y, l.objsize) && b <= x && x + l.objsize <= b + SlabSize(l.order)
            && (!l.offSlab ==> b + SLAB_HEAD + l.num * BUFCTL <= x)
  {
    hide SlabOk; hide SlabSize;
    Inside(l, i);
    Inside(l, i');
    if b == b' {
      if i < i' {
        Steps(i, i', l.objsize);
      } else {
        Steps(i', i, l.objsize);
      }
    } else {
      assert Apart(b, b', SlabSize(l.order));
    }
  }

  // kfree finds the number of the object from its address.
  lemma ObjectNumber(l: Layout, b: int, i: int)
    requires LayoutOk(l) && 0 <= i < l.num
    ensures (Address(l, b, i) - (b + l.offset)) / l.objsize == i
  {
    var k := i * l.objsize / l.objsize;
    assert i * l.objsize == l.objsize * k + i * l.objsize % l.objsize;
    if k < i {
      Steps(k, i, l.objsize);
    } else if i < k {
      Steps(i, k, l.objsize);
    }
  }

  lemma Inside(l: Layout, i: int)
    requires LayoutOk(l) && 0 <= i < l.num
    ensures 0 <= i * l.objsize && i * l.objsize + l.objsize <= l.num * l.objsize
  {
    Steps(i, l.num, l.objsize);
    FewerFit(0, i, l.objsize);
  }

  lemma Steps(i: int, j: int, w: int)
    requires i < j && w > 0
    ensures i * w + w <= j * w
  {
    MulGe(j - i, w);
    assert j * w == i * w + (j - i) * w;
  }

  // kmem_cache_grow: the array of a new slab chains all its objects.
  method NewSlab(num: int) returns (s: SlabRec, ghost chain: seq<int>)
    requires 0 < num <= BUFCTL_END
    ensures SlabOk(s, chain, num) && s.inuse == 0 && chain == Upto(num)
  {
    var bufctl: seq<int> := [];
    while |bufctl| < num
      invariant |bufctl| <= num && forall k :: 0 <= k < |bufctl| ==> bufctl[k] == k + 1
    {
      bufctl := bufctl + [|bufctl| + 1];
    }
    bufctl := bufctl[num - 1 := BUFCTL_END];
    chain := Upto(num);
    s := SlabRec(0, 0, bufctl);
  }

  ghost function Upto(n: int): (s: seq<int>)
    requires n >= 0
    ensures |s| == n && forall k :: 0 <= k < n ==> s[k] == k
  {
    if n == 0 then [] else Upto(n - 1) + [n - 1]
  }

  // kmem_cache_alloc_one, for the slab: the first object of the chain leaves it.
  lemma TakeFirst(s: SlabRec, chain: seq<int>, num: int)
    requires SlabOk(s, chain, num) && chain != []
    ensures s.free == chain[0] && 0 <= s.free < |s.bufctl|
    ensures SlabOk(SlabRec(s.inuse + 1, s.bufctl[s.free], s.bufctl), chain[1..], num)
    ensures s.bufctl[s.free] == BUFCTL_END <==> |chain| == 1
    requires num <= BUFCTL_END
  {
    var s', rest := SlabRec(s.inuse + 1, s.bufctl[s.free], s.bufctl), chain[1..];
    forall k | 0 <= k < |rest|
      ensures s'.bufctl[rest[k]] == Nth(rest, k + 1)
    {
      assert rest[k] == chain[k + 1];
    }
  }

  // kmem_cache_free_one, for the slab: the object becomes the first of the chain.
  lemma PutFirst(s: SlabRec, chain: seq<int>, num: int, i: int)
    requires SlabOk(s, chain, num) && 0 <= i < num && i !in chain && s.inuse > 0
    ensures |s.bufctl| == num && SlabOk(SlabRec(s.inuse - 1, i, s.bufctl[i := s.free]), [i] + chain, num)
  {
    var s', more := SlabRec(s.inuse - 1, i, s.bufctl[i := s.free]), [i] + chain;
    forall k | 0 <= k < |more|
      ensures s'.bufctl[more[k]] == Nth(more, k + 1)
    {
      if k > 0 {
        assert more[k] == chain[k - 1];
      }
    }
  }

  lemma {:induction false} WithoutOnce(s: seq<int>, b: int)
    requires Once(s)
    ensures Once(Without(s, b)) && b !in Without(s, b)
  {
    if s != [] {
      WithoutMembers(s[1..], b);
      assert Once(s[1..]) && s[0] !in s[1..];
      WithoutOnce(s[1..], b);
    }
  }

  class SlabCache {
    var c: Cache
    const l: Layout
    ghost var chains: Chains

    ghost predicate Valid()
      reads this
    {
      LayoutOk(l) && Inv(c, chains, l)
    }

    constructor (layout: Layout)
      requires LayoutOk(layout)
      ensures Valid() && l == layout && c == Cache(map[], [], []) && chains == map[]
    {
      l := layout;
      c := Cache(map[], [], []);
      chains := map[];
    }

    // kmem_cache_grow and kmem_cache_alloc_one on the new slab.
    method AllocNew(base: int) returns (i: int)
      requires Valid() && c.notfull == [] && forall b :: b in c.slabs ==> Apart(b, base, SlabSize(l.order))
      modifies this
      ensures Valid() && base in c.slabs && base !in old(c).slabs && c.slabs.Keys == old(c).slabs.Keys + {base}
      ensures i == 0 && c.full + c.notfull == old(c).full + [base]
      ensures 0 <= i < l.num && forall b', i' :: Live(chains, l, b', i') <==> Live(old(chains), l, b', i') || (b', i') == (base, i)
    {
      hide SlabOk; hide SlabSize;
      var s, chain := NewSlab(l.num);
      TakeFirst(s, chain, l.num);
      NotThere(c, chains, l, base);
      i := s.free;
      var s' := SlabRec(s.inuse + 1, s.bufctl[s.free], s.bufctl);
      GrownInv(c, chains, l, base, s', chain[1..]);
      if s'.free == BUFCTL_END {
        c := Cache(c.slabs[base := s'], c.full + [base], []);
      } else {
        c := Cache(c.slabs[base := s'], c.full, [base]);
      }
      chains := chains[base := chain[1..]];
      RestLive(chain);
    }

    // kmem_cache_alloc_one on the first slab of slabs_notfull.
    method AllocOld() returns (b: int, i: int)
      requires Valid() && c.notfull != []
      modifies this
      ensures Valid() && b in c.slabs && c.slabs.Keys == old(c).slabs.Keys && !Live(old(chains), l, b, i)
      ensures c.full + c.notfull == old(c).full + old(c).notfull
      ensures b == old(c).notfull[0] && b in old(chains) && old(chains)[b] != [] && i == old(chains)[b][0]
      ensures 0 <= i < l.num && forall b', i' :: Live(chains, l, b', i') <==> Live(old(chains), l, b', i') || (b', i') == (b, i)
    {
      hide SlabOk; hide SlabSize;
      b := c.notfull[0];
      var s := c.slabs[b];
      ghost var chain := chains[b];
      TakeFirst(s, chain, l.num);
      ChainFacts(s, chain, l.num);
      i := s.free;
      var s' := SlabRec(s.inuse + 1, s.bufctl[s.free], s.bufctl);
      TakenInv(c, chains, l, s', chain[1..]);
      if s'.free == BUFCTL_END {
        c := Cache(c.slabs[b := s'], c.full + [b], c.notfull[1..]);
      } else {
        c := Cache(c.slabs[b := s'], c.full, c.notfull);
      }
      chains := chains[b := chain[1..]];
    }

    /**
     * kmem_cache_alloc: an object that was not in use, from a slab that has one or
     * from a new slab at `base`.  None when a new slab is needed and there are no
     * pages for it.
     */
    method Alloc(base: Option<int>) returns (r: Option<(int, int)>)
      requires Valid() && (base.Some? ==> forall b :: b in c.slabs ==> Apart(b, base.value, SlabSize(l.order)))
      modifies this
      ensures Valid() && (r.None? <==> old(c).notfull == [] && base.None?) && (r.None? ==> c == old(c) && chains == old(chains))
      ensures r.Some? ==> var (b, i) := r.value;
                && c.full + c.notfull == old(c).full + old(c).notfull + (if old(c).notfull == [] then [b] else [])
                && (if old(c).notfull != [] then b == old(c).notfull[0] && c.slabs.Keys == old(c).slabs.Keys
                    else b == base.value && c.slabs.Keys == old(c).slabs.Keys + {b})
                && !Live(old(chains), l, b, i) && forall b', i' :: Live(chains, l, b', i') <==> Live(old(chains), l, b', i') || (b', i') == (b, i)
    {
      hide Inv; hide SlabSize;
      if c.notfull != [] {
        var b, i := AllocOld();
        return Some((b, i));
      }
      if base.None? {
        return None;
      }
      NotThere(c, chains, l, base.value);
      var i := AllocNew(base.value);
      r := Some((base.value, i));
    }

    // kmem_cache_free_one: the object is free again; a slab without objects in use is given back.
    method Free(b: int, i: int)
      requires Valid() && Live(chains, l, b, i)
      modifies this
      ensures Valid() && forall b', i' :: Live(chains, l, b', i') <==> Live(old(chains), l, b', i') && (b', i') != (b, i)
      ensures c.slabs.Keys == old(c).slabs.Keys - if OthersLive(old(chains), l, b, i) then {} else {b}
      ensures c.full == Without(old(c).full, b)
      ensures c.notfull == if b !in c.slabs then Without(old(c).notfull, b) else if b in old(c).notfull then old(c).notfull else old(c).notfull + [b]
    {
      hide SlabOk; hide SlabSize; hide Inv; hide Without;
      LiveFacts(c, chains, l, b);
      var s := c.slabs[b];
      ghost var chain := chains[b];
      PutFirst(s, chain, l.num, i);
      var s' := SlabRec(s.inuse - 1, i, s.bufctl[i := s.free]);
      if s'.inuse == 0 {
        AllFree(s', [i] + chain, l.num);
        assert forall x :: x in [i] + chain <==> x == i || x in chain;
        DestroyedInv(c, chains, l, b);
        c := Cache(c.slabs - {b}, Without(c.full, b), Without(c.notfull, b));
        chains := chains - {b};
      } else if s'.inuse == l.num - 1 {
        WasFull(s, chain, l.num);
        InWhich(c, chains, l, b);
        SomeUsed(s', chains, l, b, i);
        FreedInv(c, chains, l, b, s', [i] + chain);
        c := Cache(c.slabs[b := s'], Without(c.full, b), Without(c.notfull, b) + [b]);
        chains := chains[b := [i] + chain];
      } else {
        NotFull(s, chain, l.num);
        InWhich(c, chains, l, b);
        SomeUsed(s', chains, l, b, i);
        KeptInv(c, chains, l, b, s', [i] + chain);
        c := c.(slabs := c.slabs[b := s']);
        chains := chains[b := [i] + chain];
      }
    }
  }

  lemma LiveFacts(c: Cache, chains: Chains, l: Layout, b: int)
    requires Inv(c, chains, l) && b in chains
    ensures b in c.slabs && SlabOk(c.slabs[b], chains[b], l.num) && c.slabs[b].inuse >= 1
  {
    hide SlabOk; hide SlabSize;
  }

  lemma NotThere(c: Cache, chains: Chains, l: Layout, base: int)
    requires LayoutOk(l) && Inv(c, chains, l) && forall b :: b in c.slabs ==> Apart(b, base, SlabSize(l.order))
    ensures base !in c.slabs && base !in chains
  {
    hide SlabOk;
    assert base in c.slabs ==> Apart(base, base, SlabSize(l.order));
  }

  lemma ChainFacts(s: SlabRec, chain: seq<int>, num: int)
    requires SlabOk(s, chain, num) && chain != []
    ensures 0 <= chain[0] < num && chain[0] !in chain[1..] && forall x :: x in chain <==> x == chain[0] || x in chain[1..]
  {
    assert chain == [chain[0]] + chain[1..];
  }

  lemma RestLive(chain: seq<int>)
    requires chain != [] && forall k :: 0 <= k < |chain| ==> chain[k] == k
    ensures forall x :: 0 <= x < |chain| ==> (x !in chain[1..] <==> x == chain[0])
  {
    forall x | 0 <= x < |chain|
      ensures x !in chain[1..] <==> x == chain[0]
    {
      if x > 0 {
        assert chain[1..][x - 1] == x;
      }
    }
  }

  lemma GrownInv(c: Cache, chains: Chains, l: Layout, base: int, s: SlabRec, chain: seq<int>)
    requires Inv(c, chains, l) && base !in c.slabs && c.notfull == [] && SlabOk(s, chain, l.num) && s.inuse >= 1
    requires (forall b :: b in c.slabs ==> Apart(b, base, SlabSize(l.order))) && (s.free == BUFCTL_END <==> chain == [])
    ensures var c' := if s.free == BUFCTL_END then Cache(c.slabs[base := s], c.full + [base], []) else Cache(c.slabs[base := s], c.full, [base]);
            Inv(c', chains[base := chain], l)
  {
    hide SlabOk; hide SlabSize;
  }

  lemma TakenInv(c: Cache, chains: Chains, l: Layout, s: SlabRec, chain: seq<int>)
    requires Inv(c, chains, l) && c.notfull != [] && SlabOk(s, chain, l.num) && s.inuse >= 1 && (s.free == BUFCTL_END <==> chain == [])
    ensures var b := c.notfull[0];
            var c' := if s.free == BUFCTL_END then Cache(c.slabs[b := s], c.full + [b], c.notfull[1..]) else Cache(c.slabs[b := s], c.full, c.notfull);
            Inv(c', chains[b := chain], l)
  {
    hide SlabOk; hide SlabSize;
    var b := c.notfull[0];
    assert c.notfull == [b] + c.notfull[1..];
    assert b !in c.full;
  }

  lemma DestroyedInv(c: Cache, chains: Chains, l: Layout, b: int)
    requires Inv(c, chains, l)
    ensures Inv(Cache(c.slabs - {b}, Without(c.full, b), Without(c.notfull, b)), chains - {b}, l)
  {
    hide SlabOk; hide SlabSize; hide Without;
    WithoutOnce(c.full, b);
    WithoutMembers(c.full, b);
    WithoutOnce(c.notfull, b);
    WithoutMembers(c.notfull, b);
  }

  lemma FreedInv(c: Cache, chains: Chains, l: Layout, b: int, s: SlabRec, chain: seq<int>)
    requires Inv(c, chains, l) && b in c.slabs && SlabOk(s, chain, l.num) && s.inuse >= 1 && chain != []
    ensures Inv(Cache(c.slabs[b := s], Without(c.full, b), Without(c.notfull, b) + [b]), chains[b := chain], l)
  {
    hide SlabOk; hide SlabSize; hide Without;
    WithoutOnce(c.full, b);
    WithoutMembers(c.full, b);
    WithoutOnce(c.notfull, b);
    WithoutMembers(c.notfull, b);
  }

  lemma KeptInv(c: Cache, chains: Chains, l: Layout, b: int, s: SlabRec, chain: seq<int>)
    requires Inv(c, chains, l) && b in c.slabs && SlabOk(s, chain, l.num) && s.inuse >= 1 && chain != [] && chains[b] != []
    ensures Inv(c.(slabs := c.slabs[b := s]), chains[b := chain], l)
  {
    hide SlabOk; hide SlabSize;
  }

  // With as many free objects as objects, every one is free.
  lemma AllFree(s: SlabRec, chain: seq<int>, num: int)
    requires SlabOk(s, chain, num) && s.inuse == 0
    ensures forall x :: 0 <= x < num ==> x in chain
  {
    var all := Numbers(num);
    var mine := set x | x in chain;
    Cardinality(chain, mine);
    assert mine <= all;
    SubsetSame(mine, all);
  }

  // With fewer, some one is in use.
  lemma SomeUsed(s: SlabRec, chains: Chains, l: Layout, b: int, i: int)
    requires l.num >= 0 && b in chains && SlabOk(s, [i] + chains[b], l.num) && s.inuse > 0
    ensures OthersLive(chains, l, b, i)
  {
    var chain := [i] + chains[b];
    var x := Missing(chain, l.num);
    assert chain[0] == i && forall k :: 0 <= k < |chains[b]| ==> chain[k + 1] == chains[b][k];
    assert Live(chains, l, b, x);
  }

  lemma Missing(chain: seq<int>, num: int) returns (x: int)
    requires Once(chain) && |chain| < num
    ensures 0 <= x < num && x !in chain
  {
    var mine := set y | y in chain;
    var all := Numbers(num);
    Cardinality(chain, mine);
    assert all == (all * mine) + (all - mine);
    assert |all * mine| <= |mine| by {
      assert mine == (all * mine) + (mine - all);
    }
    x :| x in all - mine;
  }

  lemma InWhich(c: Cache, chains: Chains, l: Layout, b: int)
    requires Inv(c, chains, l) && b in c.slabs
    ensures chains[b] == [] ==> b !in c.notfull && Without(c.notfull, b) == c.notfull
    ensures chains[b] != [] ==> b !in c.full && b in c.notfull && Without(c.full, b) == c.full
  {
    hide SlabOk; hide SlabSize; hide Without;
    if chains[b] == [] {
      WithoutNone(c.notfull, b);
    } else {
      WithoutNone(c.full, b);
    }
  }

  ghost function Numbers(n: int): (s: set<int>)
    requires n >= 0
    ensures |s| == n && forall x :: x in s <==> 0 <= x < n
  {
    if n == 0 then {} else Numbers(n - 1) + {n - 1}
  }

  lemma {:induction false} Cardinality(chain: seq<int>, mine: set<int>)
    requires Once(chain) && forall x :: x in mine <==> x in chain
    ensures |mine| == |chain|
  {
    if chain == [] {
      assert forall x :: x !in mine;
      assert mine == {};
    } else {
      var rest := chain[1..];
      assert chain == [chain[0]] + rest && chain[0] !in rest;
      Cardinality(rest, mine - {chain[0]});
    }
  }

  lemma SubsetSame(a: set<int>, b: set<int>)
    requires a <= b && |a| == |b|
    ensures a == b
  {
    assert b == a + (b - a);
    assert |b| == |a| + |b - a|;
  }

  lemma WasFull(s: SlabRec, chain: seq<int>, num: int)
    requires SlabOk(s, chain, num) && s.inuse == num
    ensures chain == []
  {
  }

  lemma NotFull(s: SlabRec, chain: seq<int>, num: int)
    requires SlabOk(s, chain, num) && s.inuse != num
    ensures chain != []
  {
  }
}
