/**
 * The buddy page allocator of mm/buddyPmm.c for one zone.  A page is named by
 * its index in the zone; the free list of each order is the sequence of the
 * first pages of its blocks.
 */
module Buddy {
  import opened Common
  import opened BuddyBlocks

  class Buddy {
    const n: nat
    var freeList: seq<seq<nat>>
    var nrFree: seq<nat>
    var flag: seq<bool>       // PG_PROPERTY
    var property: seq<nat>
    var ref: seq<int>
    ghost var hs: Heads

    // The tables describe the blocks `hs`; pages in `x` may still carry a stale flag.
    ghost predicate Kept(x: set<nat>)
      reads this
    {
      |ref| == n && Describes(freeList, nrFree, flag, property, hs, n, x)
    }

    ghost predicate Valid()
      reads this
    {
      Kept({}) && Good(hs, n)
    }

    // list_add and the counter and flag updates that go with it.
    method Link(p: nat, k: nat, ghost x: set<nat>)
      requires Kept(x) && k <= MAX_ORDER && p < n && p !in hs
      modifies this
      ensures Kept(x - {p}) && hs == old(hs)[p := k] && ref == old(ref)
      ensures k < |old(freeList)| && freeList == old(freeList)[k := old(freeList)[k] + [p]]
    {
      property := property[p := k];
      flag := flag[p := true];
      nrFree := nrFree[k := nrFree[k] + 1];
      freeList := freeList[k := freeList[k] + [p]];
      hs := hs[p := k];
    }

    // list_del and the counter update that goes with it; the flag is left to the caller.
    method Unlink(p: nat, k: nat, ghost x: set<nat>)
      requires Kept(x) && k <= MAX_ORDER && p in hs && hs[p] == k && p < n
      modifies this
      ensures Kept(x + {p}) && hs == old(hs) - {p} && ref == old(ref)
    {
      hide NoDup;
      nrFree := nrFree[k := nrFree[k] - 1];
      var l := freeList[k];
      var i :| 0 <= i < |l| && l[i] == p;
      TakenOff(l, i);
      freeList := freeList[k := l[..i] + l[i + 1..]];
      hs := hs - {p};
    }

    // buddy_init: no page is free yet.
    constructor (count: nat)
      ensures n == count && Valid() && hs == map[] && forall p :: 0 <= p < n ==> ref[p] == property[p] == 0
    {
      n := count;
      freeList := seq(MAX_ORDER + 1, _ => []);
      nrFree := seq(MAX_ORDER + 1, _ => 0);
      flag := seq(count, _ => false);
      property := seq(count, _ => 0);
      ref := seq(count, _ => 0);
      hs := map[];
    }

    // buddy_init_memmap: all pages of a fresh zone become free.
    method InitMemmap()
      requires Valid() && hs == map[]
      modifies this
      ensures Valid()
      ensures forall q: nat :: Free(hs, q) <==> q < n
    {
      hide Aligned; hide BitSet; hide Good; hide Describes; hide Free; hide NoDup;
      var left: nat, p: nat, order: nat := n, 0, MAX_ORDER;
      LeadingAligned(MAX_ORDER);
      EmptyGood(n);
      while left != 0
        invariant p + left == n && order <= MAX_ORDER && Valid() && Aligned(p, order)
        invariant order < MAX_ORDER ==> left < 2 * Size(order) && !BitSet(p, order)
        invariant forall q :: q in hs ==> q + Size(hs[q]) <= p
        invariant forall q: nat :: Free(hs, q) <==> q < p
        decreases order, left
      {
        while left >= Size(order)
          invariant p + left == n && Valid() && Aligned(p, order)
          invariant order < MAX_ORDER && left >= Size(order) ==> left < 2 * Size(order) && !BitSet(p, order)
          invariant forall q :: q in hs ==> q + Size(hs[q]) <= p
          invariant forall q: nat :: Free(hs, q) <==> q < p
          decreases left
        {
          FillBeyond(hs, n, p, order);
          AlignedPlus(p, order);
          assert {} - {p} == {};
          Link(p, order, {});
          left := left - Size(order);
          p := p + Size(order);
        }
        if left == 0 {
          break;
        }
        order := order - 1;
        AlignedUp(p, order);
      }
    }

    // getorder: the smallest order whose blocks hold `count` pages.
    static method GetOrder(count: nat) returns (order: nat)
      requires count <= Size(MAX_ORDER)
      ensures order <= MAX_ORDER && count <= Size(order)
      ensures forall k :: 0 <= k < order ==> Size(k) < count
    {
      order := 0;
      var size := 1;
      while count > size
        invariant order <= MAX_ORDER && size == Size(order)
        invariant forall k :: 0 <= k < order ==> Size(k) < count
        decreases MAX_ORDER - order
      {
        if order == MAX_ORDER {
          assert false;
        }
        order, size := order + 1, 2 * size;
      }
    }

    // The search of buddy_alloc_pages_sub for a non-empty list.
    method FindOrder(order: nat) returns (cur: nat)
      requires Valid() && order <= MAX_ORDER
      ensures order <= cur <= MAX_ORDER + 1
      ensures cur <= MAX_ORDER ==> freeList[cur] != []
      ensures forall p :: p in hs ==> hs[p] < order || hs[p] >= cur
      ensures cur > MAX_ORDER ==> forall p :: p in hs ==> hs[p] < order
    {
      hide Coalesced; hide Disjoint; hide NoDup; hide Aligned;
      cur := order;
      while cur <= MAX_ORDER && freeList[cur] == []
        invariant order <= cur <= MAX_ORDER + 1
        invariant forall p :: p in hs ==> hs[p] < order || hs[p] >= cur
      {
        forall p | p in hs
          ensures hs[p] != cur
        {
          assert p in freeList[cur] <==> hs[p] == cur;
        }
        cur := cur + 1;
      }
    }

    /**
     * buddy_alloc_pages_sub: takes the first block of the smallest sufficient
     * order and splits off what is not needed.  All other blocks stay.
     */
    method AllocSub(order: nat) returns (r: Option<nat>)
      requires Valid() && order <= MAX_ORDER
      modifies this
      ensures Valid()
      ensures r.None? ==> unchanged(this) && forall p :: p in hs ==> hs[p] < order
      ensures r.Some? ==>
                && Hole(hs, n, r.value, order)
                && forall q: nat :: Free(old(hs), q) <==> Free(hs, q) || InBlock(q, r.value, order)
      ensures r.Some? ==> forall q: nat :: !(Free(hs, q) && InBlock(q, r.value, order))
      ensures r.Some? ==> BestFit(old(hs), r.value, order) && FirstOf(old(freeList), old(hs)[r.value], r.value)
      ensures r.Some? ==> forall q :: q in old(hs) && q != r.value ==> q in hs && hs[q] == old(hs)[q]
    {
      hide Good; hide Hole; hide Free; hide Describes; hide FirstOf;
      var cur := FindOrder(order);
      if cur > MAX_ORDER {
        return None;
      }
      var page := TakeFirst(cur);
      while cur > order
        invariant order <= cur <= MAX_ORDER && Kept({page}) && Good(hs, n) && Hole(hs, n, page, cur)
        invariant forall q: nat :: Free(old(hs), q) <==> Free(hs, q) || InBlock(q, page, cur)
        invariant forall q :: q in old(hs) && q != page ==> q in hs && hs[q] == old(hs)[q]
      {
        SplitHole(hs, n, page, cur);
        cur := cur - 1;
        var buddy := page + Size(cur);
        assert {page} - {buddy} == {page};
        Link(buddy, cur, {page});
      }
      HoleNotFree(hs, n, page, order);
      assert {page} - {page} == {};
      ClearFlag(page, {page});
      r := Some(page);
    }

    // Takes the first block off a list, leaving its flag for later.
    method TakeFirst(cur: nat) returns (page: nat)
      requires Valid() && cur <= MAX_ORDER && freeList[cur] != []
      modifies this
      ensures Kept({page}) && Good(hs, n) && Hole(hs, n, page, cur)
      ensures forall q: nat :: Free(old(hs), q) <==> Free(hs, q) || InBlock(q, page, cur)
      ensures page in old(hs) && old(hs)[page] == cur && hs == old(hs) - {page} && FirstOf(old(freeList), cur, page)
    {
      page := freeList[cur][0];
      assert page in freeList[cur];
      HeadInRange(hs, n, page);
      HeadFree(hs, page);
      TakeHead(hs, n, page);
      assert {} + {page} == {page};
      hide Good; hide Hole; hide Free; hide InBlock; hide Describes;
      Unlink(page, cur, {});
    }

    method ClearFlag(p: nat, ghost x: set<nat>)
      requires Kept(x) && p < n && p !in hs
      modifies `flag
      ensures Kept(x - {p})
    {
      flag := flag[p := false];
    }

    // The first loop of buddy_free_pages_sub: no page of the block is marked as free.
    method ResetPages(base: nat, order: nat)
      requires Valid() && Hole(hs, n, base, order)
      modifies `flag, `ref
      ensures Valid() && RefsReset(old(ref), ref, base, base + Size(order))
    {
      hide Good; hide NoDup;
      var p := base;
      while p != base + Size(order)
        invariant base <= p <= base + Size(order) && Valid() && RefsReset(old(ref), ref, base, p)
      {
        assert !flag[p];
        flag := flag[p := false];
        ref := ref[p := 0];
        p := p + 1;
      }
    }

    // page_is_buddy
    method PageIsBuddy(page: nat, order: nat) returns (r: bool)
      requires Valid() && order <= MAX_ORDER
      ensures r <==> page in hs && hs[page] == order
    {
      hide Coalesced; hide Disjoint; hide NoDup;
      r := page < n && flag[page] && property[page] == order;
    }

    /**
     * buddy_free_pages_sub: a block that is not free becomes free and is merged
     * with its buddy as long as that is free and of the same order.
     */
    method FreeSub(base: nat, order0: nat)
      requires Valid() && Hole(hs, n, base, order0)
      modifies this
      ensures Valid()
      ensures forall q: nat :: Free(hs, q) <==> Free(old(hs), q) || InBlock(q, base, order0)
      ensures RefsReset(old(ref), ref, base, base + Size(order0)) && Newest(hs, freeList, base)
    {
      ResetPages(base, order0);
      hide Good; hide Free; hide InBlock; hide Describes; hide Hole; hide RefsReset; hide Newest; hide Size;
      var idx, order := MergeUp(base, order0);
      HoleOrder(hs, n, idx, order);
      FillHole(hs, n, idx, order);
      assert {} - {idx} == {};
      Link(idx, order, {});
      NewestIs(hs, freeList, base, idx, order);
    }

    // The merging loop of buddy_free_pages_sub: free buddies are taken off their lists as far as possible.
    method MergeUp(base: nat, order0: nat) returns (idx: nat, order: nat)
      requires Valid() && Hole(hs, n, base, order0)
      modifies this
      ensures Valid() && Hole(hs, n, idx, order) && InBlock(base, idx, order) && ref == old(ref)
      ensures forall q: nat :: Free(hs, q) || InBlock(q, idx, order) <==> Free(old(hs), q) || InBlock(q, base, order0)
      ensures order < MAX_ORDER ==> var b := FlipBit(idx, order); !(b in hs && hs[b] == order)
    {
      hide Good; hide Free; hide InBlock; hide Describes; hide BitSet; hide Hole; hide Size; hide FlipBit; hide ClearBit;
      idx, order := base, order0;
      HoleOrder(hs, n, idx, order);
      BlockStart(base, order0);
      while order < MAX_ORDER
        invariant order <= MAX_ORDER && Valid() && Hole(hs, n, idx, order) && InBlock(base, idx, order) && ref == old(ref)
        invariant forall q: nat :: Free(hs, q) || InBlock(q, idx, order) <==> Free(old(hs), q) || InBlock(q, base, order0)
      {
        var buddy := FlipBit(idx, order);
        var merge := PageIsBuddy(buddy, order);
        if !merge {
          break;
        }
        MergeHole(hs, n, idx, order);
        BlockGrows(base, idx, order);
        HeadInRange(hs, n, buddy);
        Unlink(buddy, order, {});
        assert {} + {buddy} - {buddy} == {};
        ClearFlag(buddy, {} + {buddy});
        idx := ClearBit(idx, order);
        order := order + 1;
      }
    }

    // The inner loop of buddy_free_pages: the largest order that fits into `m` pages.
    static method ShrinkOrder(m: nat, order0: nat, ghost b: nat) returns (order: nat)
      requires 0 < m <= Size(order0) && Aligned(b, order0)
      ensures order <= order0 && Size(order) <= m < 2 * Size(order) && Aligned(b, order)
    {
      order := order0;
      var size := Size(order0);
      while m < size
        invariant order <= order0 && size == Size(order) && m < 2 * size && Aligned(b, order)
        decreases order
      {
        AlignedUp(b, order - 1);
        order, size := order - 1, size / 2;
      }
    }

    // The second loop of buddy_free_pages: pieces of shrinking order from an aligned page on.
    method FreeShrinking(base: nat, count: nat, order0: nat)
      requires Valid() && 0 < count <= Size(order0) && Aligned(base, order0) && base + count <= n
      requires order0 <= MAX_ORDER || (order0 == MAX_ORDER + 1 && count < Size(order0))
      requires forall q: nat :: base <= q < base + count ==> !Free(hs, q)
      modifies this
      ensures Valid()
      ensures forall q: nat :: Free(hs, q) <==> Free(old(hs), q) || base <= q < base + count
    {
      hide Good; hide Free; hide Describes; hide Aligned; hide BitSet;
      var b: nat, m: nat, order: nat := base, count, order0;
      while m != 0
        invariant b + m == base + count && base <= b && m <= Size(order)
        invariant order <= MAX_ORDER || (order == MAX_ORDER + 1 && m < Size(order))
        invariant Valid() && Aligned(b, order)
        invariant forall q: nat :: Free(hs, q) <==> Free(old(hs), q) || base <= q < b
        decreases m
      {
        order := ShrinkOrder(m, order, b);
        FreePiece(b, order);
        AlignedPlus(b, order);
        b, m := b + Size(order), m - Size(order);
      }
    }

    /**
     * buddy_free_pages: frees `count` pages starting at any page, in aligned
     * pieces, first of growing and then of shrinking order.  Whether it gets
     * through depends on where the range ends, counted from the first page on that
     * is aligned to twice the largest block.
     */
    method FreePages(base: nat, count: nat) returns (r: Outcome)
      requires Valid() && 0 < count && base + count <= n
      requires forall q: nat :: base <= q < base + count ==> !Free(hs, q)
      modifies this
      ensures r == FreeOutcome(base, count)
      ensures r == Done ==> Valid() && forall q: nat :: Free(hs, q) <==> Free(old(hs), q) || base <= q < base + count
    {
      hide Good; hide Free; hide Describes; hide Aligned; hide BitSet; hide AlignUp; hide FreeOutcome;
      var b: nat, m: nat, order: nat, size: nat := base, count, 0, 1;
      AlignedZero(b);
      while m > size
        invariant b + m == base + count && base <= b < base + size && 0 < m && order <= MAX_ORDER + 1 && size == Size(order)
        invariant Valid() && Aligned(b, order)
        invariant forall q: nat :: Free(hs, q) <==> Free(old(hs), q) || base <= q < b
        decreases MAX_ORDER + 1 - order
      {
        if order > MAX_ORDER {
          GoesOn(base, b, m, order);
          return Stopped;
        }
        var b' := FreeStep(b, order);
        b, m := b', m - (b' - b);
        order, size := order + 1, 2 * size;
      }
      EndsHere(base, b, m, order);
      if order > MAX_ORDER && m == size {
        // The next piece goes on the list of order MAX_ORDER + 1, which free_area does not have.
        return Overrun;
      }
      FreeShrinking(b, m, order);
      r := Done;
    }

    // The piece of this order at `b`, if the range cannot begin with a larger one.
    method FreeStep(b: nat, order: nat) returns (b': nat)
      requires Valid() && order <= MAX_ORDER && Aligned(b, order) && b + Size(order) <= n
      requires forall q: nat :: b <= q < b + Size(order) ==> !Free(hs, q)
      modifies this
      ensures Valid() && Aligned(b', order + 1) && (b' == b || b' == b + Size(order))
      ensures forall q: nat :: Free(hs, q) <==> Free(old(hs), q) || b <= q < b'
    {
      hide Good; hide Free; hide Describes; hide Aligned; hide BitSet;
      AlignedUp(b, order);
      b' := b;
      if BitSet(b, order) {
        FreePiece(b, order);
        AlignedPlus(b, order);
        AlignedUp(b + Size(order), order);
        b' := b + Size(order);
      }
    }

    // One aligned piece of a range that is not free.
    method FreePiece(b: nat, order: nat)
      requires Valid() && order <= MAX_ORDER && Aligned(b, order) && b + Size(order) <= n
      requires forall q: nat :: b <= q < b + Size(order) ==> !Free(hs, q)
      modifies this
      ensures Valid()
      ensures forall q: nat :: Free(hs, q) <==> Free(old(hs), q) || b <= q < b + Size(order)
    {
      hide Good; hide Free; hide Describes;
      RangeHole(hs, n, b, order);
      FreeSub(b, order);
    }

    /**
     * buddy_alloc_pages: the pages handed out were free, are `count` in number
     * and aligned to the order of `count`; the rest of the block stays free.  They
     * start the first block of the smallest order that is large enough.
     * Allocation fails exactly when no aligned free run of that order exists.
     */
    method AllocPages(count: nat) returns (r: Option<nat>)
      requires Valid() && 0 < count <= Size(MAX_ORDER)
      modifies this
      ensures Valid()
      ensures r.None? ==> unchanged(this)
      ensures r.Some? ==>
                && r.value + count <= n
                && (forall q: nat :: r.value <= q < r.value + count ==> Free(old(hs), q))
                && (forall q: nat :: Free(hs, q) <==> Free(old(hs), q) && !(r.value <= q < r.value + count))
      ensures exists order :: IsOrder(order, count) &&
                (r.Some? <==> exists p :: Aligned(p, order) && AllFree(old(hs), p, order)) &&
                (r.Some? ==> Aligned(r.value, order) && BestFit(old(hs), r.value, order) && FirstOf(old(freeList), old(hs)[r.value], r.value))
    {
      hide FirstOf;
      var order := GetOrder(count);
      assert IsOrder(order, count);
      r := AllocSub(order);
      if r.None? {
        NoRun(hs, n, order);
      } else {
        var page := r.value;
        SplitRange(old(hs), hs, n, page, order);
        assert Aligned(page, order) && AllFree(old(hs), page, order);
        if count != Size(order) {
          hide Good; hide Free; hide Describes;
          SizeUpTo(order);
          SmallRange(page + count, Size(order) - count);
          var freed := FreePages(page + count, Size(order) - count);
        }
      }
    }

    // buddy_nr_free_pages: the list counters add up to the number of free pages.
    method NrFreePages() returns (ret: nat)
      requires Valid()
      ensures ret == |FreeSet(hs, n)|
    {
      hide ListPages; hide FreeBelow; hide Free; hide Coalesced;
      ret := 0;
      ghost var acc: set<nat> := {};
      NoneBelow(hs);
      var order := 0;
      while order <= MAX_ORDER
        invariant 0 <= order <= MAX_ORDER + 1 && ret == |acc|
        invariant forall q :: q in acc <==> FreeBelow(hs, order, q)
      {
        FreeBelowStep(hs, freeList[order], order, acc);
        ListPagesCount(hs, freeList[order], order);
        ret := ret + nrFree[order] * Size(order);
        acc := acc + ListPages(freeList[order], order);
        order := order + 1;
      }
      FreeBelowAll(hs, n, acc);
    }

    // Giving back what was handed out restores every free list's set of blocks.
    method AllocThenFree(count: nat)
      requires Valid() && 0 < count <= Size(MAX_ORDER)
      modifies this
      ensures Valid() && hs == old(hs)
    {
      hide Good; hide Free; hide Describes;
      var r := AllocPages(count);
      if r.Some? {
        SizeUpTo(MAX_ORDER);
        SmallRange(r.value, count);
        var freed := FreePages(r.value, count);
        Canonical(old(hs), hs, n);
      }
    }
  }

  // `order` is the smallest order whose blocks hold `count` pages.
  ghost predicate IsOrder(order: nat, count: nat) {
    order <= MAX_ORDER && count <= Size(order) && forall k :: 0 <= k < order ==> Size(k) < count
  }

  // `p` is the start of a free block, and none that holds `order` is smaller.
  ghost predicate BestFit(hs: Heads, p: nat, order: nat) {
    p in hs && hs[p] >= order && forall q :: q in hs && hs[q] >= order ==> hs[q] >= hs[p]
  }

  ghost predicate LastOf(freeList: seq<seq<nat>>, k: nat, p: nat) {
    k < |freeList| && freeList[k] != [] && freeList[k][|freeList[k]| - 1] == p
  }

  // The block that `q` lies in is the last on its list.
  ghost predicate Newest(hs: Heads, freeList: seq<seq<nat>>, q: nat) {
    exists p, k :: p in hs && hs[p] == k && LastOf(freeList, k, p) && InBlock(q, p, k)
  }

  lemma NewestIs(hs: Heads, freeList: seq<seq<nat>>, q: nat, p: nat, k: nat)
    requires p in hs && hs[p] == k && LastOf(freeList, k, p) && InBlock(q, p, k)
    ensures Newest(hs, freeList, q)
  {
  }

  // The reference counts of the pages from `a` up to `b` have been set to 0, and only those.
  ghost predicate RefsReset(ref: seq<int>, ref': seq<int>, a: nat, b: nat) {
    |ref'| == |ref| && forall q :: 0 <= q < |ref| ==> ref'[q] == if a <= q < b then 0 else ref[q]
  }

  lemma BlockStart(p: nat, k: nat)
    ensures InBlock(p, p, k)
  {
  }

  // A block lies in the block it forms with its buddy.
  lemma BlockGrows(q: nat, p: nat, k: nat)
    requires InBlock(q, p, k)
    ensures InBlock(q, ClearBit(p, k), k + 1)
  {
  }

  ghost predicate FirstOf(freeList: seq<seq<nat>>, k: nat, p: nat) {
    k < |freeList| && freeList[k] != [] && freeList[k][0] == p
  }

  // Lists, counters and page flags agree on the free blocks `hs`.
  ghost predicate Describes(freeList: seq<seq<nat>>, nrFree: seq<nat>, flag: seq<bool>, property: seq<nat>,
                            hs: Heads, n: nat, x: set<nat>) {
    && |freeList| == |nrFree| == MAX_ORDER + 1
    && |flag| == |property| == n
    && (forall k :: 0 <= k <= MAX_ORDER ==> NoDup(freeList[k]) && nrFree[k] == |freeList[k]|)
    && (forall k, p :: 0 <= k <= MAX_ORDER ==> (p in freeList[k] <==> p in hs && hs[p] == k))
    && (forall p :: 0 <= p < n ==> (flag[p] <==> p in hs || p in x))
    && (forall p :: 0 <= p < n && p in hs ==> property[p] == hs[p])
  }

  // How buddy_free_pages ends: well, by its assertion on the order, or with an access behind the end of free_area.
  datatype Outcome = Done | Stopped | Overrun

  ghost function FreeOutcome(base: nat, count: nat): Outcome {
    var limit := AlignUp(base, MAX_ORDER + 1) + Size(MAX_ORDER + 1);
    if base + count < limit then Done else if base + count == limit then Overrun else Stopped
  }

  lemma AlignUpIs(base: nat, b: nat, k: nat)
    requires Aligned(b, k) && base <= b < base + Size(k)
    ensures AlignUp(base, k) == b
  {
    hide Aligned; hide AlignUp; hide Size;
    var u := AlignUp(base, k);
    if b <= u {
      AlignedOnce(b, u, k);
    } else {
      AlignedOnce(u, b, k);
    }
  }

  // Where the first loop of buddy_free_pages ends.
  lemma GoesOn(base: nat, b: nat, m: nat, order: nat)
    requires order == MAX_ORDER + 1 && Aligned(b, order) && base <= b < base + Size(order) < base + m
    ensures FreeOutcome(base, b + m - base) == Stopped
  {
    hide Aligned; hide AlignUp; hide Size;
    AlignUpIs(base, b, order);
  }

  lemma EndsHere(base: nat, b: nat, m: nat, order: nat)
    requires order <= MAX_ORDER + 1 && Aligned(b, order) && base <= b < base + Size(order) && 0 < m <= Size(order)
    ensures FreeOutcome(base, b + m - base) == if order > MAX_ORDER && m == Size(order) then Overrun else Done
  {
    hide Aligned; hide AlignUp;
    if order > MAX_ORDER {
      AlignUpIs(base, b, order);
    } else {
      SizeUpTo(order);
      assert base <= AlignUp(base, MAX_ORDER + 1);
    }
  }

  // A range shorter than twice the largest block is freed well, wherever it lies.
  lemma SmallRange(base: nat, count: nat)
    requires count < Size(MAX_ORDER + 1)
    ensures FreeOutcome(base, count) == Done
  {
    hide AlignUp; hide Size;
    assert base <= AlignUp(base, MAX_ORDER + 1);
  }

  // 2048 pages from the start of the zone are too many by one list.
  method OverrunHappens() returns (r: Outcome)
    ensures r == Overrun
  {
    hide Good; hide Free; hide Describes; hide Aligned; hide AlignUp; hide Size; hide FreeOutcome;
    var b := new Buddy(2048);
    NoHeads(b.hs);
    TooLong();
    r := b.FreePages(0, 2048);
  }

  lemma TooLong()
    ensures FreeOutcome(0, 2048) == Overrun
  {
    hide Aligned; hide AlignUp;
    LeadingAligned(MAX_ORDER + 1);
    AlignUpIs(0, 0, MAX_ORDER + 1);
    assert Size(4) == 16;
    assert Size(8) == 256;
    assert Size(MAX_ORDER + 1) == 2048;
  }

  lemma NoHeads(hs: Heads)
    requires hs == map[]
    ensures forall q :: !Free(hs, q)
  {
  }

  lemma SizeUpTo(k: nat)
    requires k <= MAX_ORDER
    ensures 2 * Size(k) <= Size(MAX_ORDER + 1)
  {
    SizeGrows(k + 1, MAX_ORDER + 1);
  }

  lemma TakenOff(l: seq<nat>, i: nat)
    requires NoDup(l) && i < |l|
    ensures var l' := l[..i] + l[i + 1..]; NoDup(l') && forall x :: x in l' <==> x in l && x != l[i]
  {
    var l' := l[..i] + l[i + 1..];
    assert forall j :: 0 <= j < |l'| ==> l'[j] == l[if j < i then j else j + 1];
    forall x | x in l && x != l[i]
      ensures x in l'
    {
      var j :| 0 <= j < |l| && l[j] == x;
      assert l'[if j < i then j else j - 1] == x;
    }
  }

  ghost predicate NoDup(s: seq<nat>) {
    forall i, j :: 0 <= i < j < |s| ==> s[i] != s[j]
  }
}
