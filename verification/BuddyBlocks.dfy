/**
 * Aligned power-of-two blocks of pages, as the buddy allocator of
 * mm/buddyPmm.c uses them.  A zone is described by its free heads: the map from
 * the first page of every free block to the order of that block.
 */
module BuddyBlocks {

  const MAX_ORDER: nat := 10

  type Heads = map<nat, nat>

  // 1 << k
  function Size(k: nat): (s: nat)
    ensures s > 0
  {
    if k == 0 then 1 else 2 * Size(k - 1)
  }

  // Bit `k` of `p`: p & (1 << k) is not zero.
  predicate BitSet(p: nat, k: nat) {
    if k == 0 then p % 2 == 1 else BitSet(p / 2, k - 1)
  }

  // The low `k` bits of `p` are zero: p & ((1 << k) - 1) is zero.
  predicate Aligned(p: nat, k: nat) {
    k == 0 || (p % 2 == 0 && Aligned(p / 2, k - 1))
  }

  lemma {:induction false} BitSetLow(p: nat, k: nat)
    requires BitSet(p, k)
    ensures p >= Size(k)
  {
    if k > 0 {
      BitSetLow(p / 2, k - 1);
    }
  }

  // p ^ (1 << k)
  function FlipBit(p: nat, k: nat): nat {
    if BitSet(p, k) then (BitSetLow(p, k); p - Size(k)) else p + Size(k)
  }

  // p & (p ^ (1 << k))
  function ClearBit(p: nat, k: nat): nat {
    if BitSet(p, k) then (BitSetLow(p, k); p - Size(k)) else p
  }

  lemma {:induction false} AlignedUp(p: nat, k: nat)
    ensures Aligned(p, k + 1) <==> Aligned(p, k) && !BitSet(p, k)
  {
    if k > 0 {
      AlignedUp(p / 2, k - 1);
    }
  }

  // The first aligned page from `p` on.
  function AlignUp(p: nat, k: nat): (u: nat)
    ensures Aligned(u, k) && p <= u < p + Size(k)
  {
    if k == 0 then p else 2 * AlignUp((p + 1) / 2, k - 1)
  }

  // Two aligned pages are not closer than the block is long.
  lemma {:induction false} AlignedOnce(p: nat, q: nat, k: nat)
    requires Aligned(p, k) && Aligned(q, k) && p <= q < p + Size(k)
    ensures p == q
  {
    if k > 0 {
      AlignedOnce(p / 2, q / 2, k - 1);
    }
  }

  lemma {:induction false} SizeGrows(j: nat, k: nat)
    requires j <= k
    ensures Size(j) <= Size(k)
    decreases k
  {
    if j < k {
      SizeGrows(j, k - 1);
    }
  }

  lemma {:induction false} LeadingAligned(k: nat)
    ensures Aligned(0, k)
  {
    if k > 0 {
      LeadingAligned(k - 1);
    }
  }

  lemma {:induction false} AlignedPlus(p: nat, k: nat)
    requires Aligned(p, k)
    ensures Aligned(p + Size(k), k) && BitSet(p + Size(k), k) == !BitSet(p, k)
    ensures p >= Size(k) ==> Aligned(p - Size(k), k) && BitSet(p - Size(k), k) == !BitSet(p, k)
  {
    if k > 0 {
      AlignedPlus(p / 2, k - 1);
      assert (p + Size(k)) / 2 == p / 2 + Size(k - 1);
      assert p >= Size(k) ==> (p - Size(k)) / 2 == p / 2 - Size(k - 1);
    }
  }

  // Two buddies are the two halves of one block of the next order.
  lemma FlipBitPairs(p: nat, k: nat)
    requires Aligned(p, k)
    ensures var b := FlipBit(p, k);
            var c := ClearBit(p, k);
            && Aligned(b, k) && FlipBit(b, k) == p && ClearBit(b, k) == c && Aligned(c, k + 1)
            && ((c == p && b == p + Size(k)) || (c == b && p == b + Size(k)))
  {
    if BitSet(p, k) {
      BitSetLow(p, k);
    }
    AlignedPlus(p, k);
    AlignedUp(ClearBit(p, k), k);
  }

  // Aligned blocks that meet are nested.
  lemma {:induction false} Nested(p: nat, j: nat, q: nat, k: nat, x: nat)
    requires Aligned(p, j) && Aligned(q, k) && j <= k
    requires p <= x < p + Size(j) && q <= x < q + Size(k)
    ensures q <= p && p + Size(j) <= q + Size(k)
  {
    if j > 0 {
      Nested(p / 2, j - 1, q / 2, k - 1, x / 2);
    }
  }

  // ----- Heads -----

  // Page `q` lies in a free block.
  ghost predicate Free(hs: Heads, q: nat) {
    exists p :: p in hs && p <= q < p + Size(hs[p])
  }

  ghost predicate Disjoint(hs: Heads) {
    forall p, q :: p in hs && q in hs && p < q ==> p + Size(hs[p]) <= q
  }

  // No two free buddies of the same order are left apart.
  ghost predicate Coalesced(hs: Heads) {
    forall p :: p in hs && hs[p] < MAX_ORDER ==>
      var b := FlipBit(p, hs[p]); !(b in hs && hs[b] == hs[p])
  }

  ghost predicate WellPlaced(hs: Heads, n: nat) {
    forall p :: p in hs ==> hs[p] <= MAX_ORDER && Aligned(p, hs[p]) && p + Size(hs[p]) <= n
  }

  ghost predicate Good(hs: Heads, n: nat) {
    WellPlaced(hs, n) && Disjoint(hs) && Coalesced(hs)
  }

  // The block of order `k` at `p` fits the zone and meets no free block.
  ghost predicate Hole(hs: Heads, n: nat, p: nat, k: nat) {
    && k <= MAX_ORDER && Aligned(p, k) && p + Size(k) <= n
    && forall q :: q in hs ==> q + Size(hs[q]) <= p || p + Size(k) <= q
  }

  ghost predicate AllFree(hs: Heads, p: nat, k: nat) {
    forall q :: p <= q < p + Size(k) ==> Free(hs, q)
  }

  // ----- The free blocks are the maximal aligned runs of free pages -----

  // A free aligned run lies inside one free block.
  lemma {:induction false} Cover(hs: Heads, n: nat, p: nat, k: nat) returns (q: nat)
    requires Good(hs, n) && Aligned(p, k) && k <= MAX_ORDER && AllFree(hs, p, k)
    ensures q in hs && hs[q] >= k && q <= p && p + Size(k) <= q + Size(hs[q])
    decreases k
  {
    hide Disjoint; hide Coalesced;
    if k == 0 {
      assert Free(hs, p);
      q :| q in hs && q <= p < q + Size(hs[q]);
    } else {
      var r := p + Size(k - 1);
      AlignedUp(p, k - 1);
      AlignedPlus(p, k - 1);
      q := Cover(hs, n, p, k - 1);
      var q2 := Cover(hs, n, r, k - 1);
      q := CoverJoin(hs, n, p, k, q, q2);
    }
  }

  // Blocks around both halves of a block: one of them is around the whole block.
  lemma CoverJoin(hs: Heads, n: nat, p: nat, k: nat, q1: nat, q2: nat) returns (q: nat)
    requires Good(hs, n) && 0 < k <= MAX_ORDER && Aligned(p, k) && !BitSet(p, k - 1)
    requires q1 in hs && hs[q1] >= k - 1 && q1 <= p && p + Size(k - 1) <= q1 + Size(hs[q1])
    requires q2 in hs && hs[q2] >= k - 1 && q2 <= p + Size(k - 1) && p + Size(k) <= q2 + Size(hs[q2])
    ensures q in hs && hs[q] >= k && q <= p && p + Size(k) <= q + Size(hs[q])
  {
    hide Aligned; hide BitSet; hide Disjoint;
    var r := p + Size(k - 1);
    assert FlipBit(p, k - 1) == r;
    if hs[q1] >= k {
      Nested(p, k, q1, hs[q1], p);
      q := q1;
    } else if hs[q2] >= k {
      Nested(p, k, q2, hs[q2], r);
      q := q2;
    } else {
      assert false;
    }
  }

  /**
   * The heads are determined by which pages are free: a block is on a free list
   * exactly when it is a maximal aligned run of free pages.
   */
  lemma HeadsAreMaximal(hs: Heads, n: nat, p: nat, k: nat)
    requires Good(hs, n) && k <= MAX_ORDER && Aligned(p, k)
    ensures p in hs && hs[p] == k <==>
            AllFree(hs, p, k) && (k == MAX_ORDER || !AllFree(hs, ClearBit(p, k), k + 1))
  {
    FlipBitPairs(p, k);
    if p in hs && hs[p] == k {
      if k < MAX_ORDER && AllFree(hs, ClearBit(p, k), k + 1) {
        var q := Cover(hs, n, ClearBit(p, k), k + 1);
        assert false;
      }
    } else if AllFree(hs, p, k) {
      var q := Cover(hs, n, p, k);
      if hs[q] == k {
        assert false;
      }
      Nested(ClearBit(p, k), k + 1, q, hs[q], p);
      assert AllFree(hs, ClearBit(p, k), k + 1);
    }
  }

  // Two zones with the same free pages have the same free blocks.
  lemma Canonical(hs: Heads, hs': Heads, n: nat)
    requires Good(hs, n) && Good(hs', n)
    requires forall q :: Free(hs, q) <==> Free(hs', q)
    ensures hs == hs'
  {
    forall p
      ensures p in hs ==> p in hs' && hs'[p] == hs[p]
      ensures p in hs' ==> p in hs && hs'[p] == hs[p]
    {
      if p in hs {
        SameHead(hs, hs', n, p, hs[p]);
      }
      if p in hs' {
        SameHead(hs, hs', n, p, hs'[p]);
      }
    }
  }

  lemma SameHead(hs: Heads, hs': Heads, n: nat, p: nat, k: nat)
    requires Good(hs, n) && Good(hs', n) && Aligned(p, k) && k <= MAX_ORDER
    requires forall q :: Free(hs, q) <==> Free(hs', q)
    ensures p in hs && hs[p] == k <==> p in hs' && hs'[p] == k
  {
    HeadsAreMaximal(hs, n, p, k);
    HeadsAreMaximal(hs', n, p, k);
    assert AllFree(hs, p, k) <==> AllFree(hs', p, k);
    assert AllFree(hs, ClearBit(p, k), k + 1) <==> AllFree(hs', ClearBit(p, k), k + 1);
  }

  // ----- What splitting, merging and filling do -----

  ghost predicate InBlock(q: nat, p: nat, k: nat) {
    p <= q < p + Size(k)
  }

  // Taking a block off its list leaves a hole.
  lemma TakeHead(hs: Heads, n: nat, p: nat)
    requires Good(hs, n) && p in hs
    ensures var hs' := hs - {p};
            && Good(hs', n) && Hole(hs', n, p, hs[p])
            && forall q :: Free(hs', q) <==> Free(hs, q) && !InBlock(q, p, hs[p])
  {
    TakenGood(hs, n, p);
    TakenFree(hs, n, p);
    hide Good; hide Hole; hide Free;
  }

  lemma TakenGood(hs: Heads, n: nat, p: nat)
    requires Good(hs, n) && p in hs
    ensures Good(hs - {p}, n) && Hole(hs - {p}, n, p, hs[p])
  {
    hide Aligned; hide FlipBit; hide Size; hide BitSet;
  }

  lemma TakenFree(hs: Heads, n: nat, p: nat)
    requires Good(hs, n) && p in hs
    ensures forall q: nat :: Free(hs - {p}, q) <==> Free(hs, q) && !InBlock(q, p, hs[p])
  {
    hide WellPlaced; hide Coalesced; hide Size;
    var hs' := hs - {p};
    forall q: nat
      ensures Free(hs', q) <==> Free(hs, q) && !InBlock(q, p, hs[p])
    {
      if Free(hs, q) {
        var r: nat :| r in hs && r <= q < r + Size(hs[r]);
        assert r != p ==> r in hs';
      }
    }
  }

  // The upper half of a hole becomes a free block of the next lower order.
  lemma SplitHole(hs: Heads, n: nat, p: nat, k: nat)
    requires Good(hs, n) && k > 0 && Hole(hs, n, p, k)
    ensures var hs' := hs[p + Size(k - 1) := k - 1];
            && p + Size(k - 1) < n && p + Size(k - 1) !in hs && Good(hs', n) && Hole(hs', n, p, k - 1)
            && forall q :: Free(hs', q) <==> Free(hs, q) || InBlock(q, p + Size(k - 1), k - 1)
  {
    hide Aligned; hide BitSet; hide Size; hide Good; hide Free; hide FlipBit;
    var r := p + Size(k - 1);
    Halves(p, k);
    assert Hole(hs, n, r, k - 1) && Hole(hs, n, p, k - 1);
    FillHole(hs, n, r, k - 1);
  }

  // The two halves of an aligned block are buddies.
  lemma Halves(p: nat, k: nat)
    requires k > 0 && Aligned(p, k)
    ensures Size(k) == 2 * Size(k - 1)
    ensures Aligned(p, k - 1) && Aligned(p + Size(k - 1), k - 1) && FlipBit(p + Size(k - 1), k - 1) == p
  {
    AlignedUp(p, k - 1);
    AlignedPlus(p, k - 1);
  }

  // A hole whose buddy is not a free block of the same order becomes a free block.
  lemma FillHole(hs: Heads, n: nat, p: nat, k: nat)
    requires Good(hs, n) && Hole(hs, n, p, k)
    requires k < MAX_ORDER ==> var b := FlipBit(p, k); !(b in hs && hs[b] == k)
    ensures var hs' := hs[p := k];
            && p !in hs && Good(hs', n)
            && forall q :: Free(hs', q) <==> Free(hs, q) || InBlock(q, p, k)
  {
    hide Aligned; hide BitSet; hide Size; hide FlipBit; hide Free;
    FillCoalesced(hs, n, p, k);
    FillFree(hs, n, p, k);
  }

  lemma FillCoalesced(hs: Heads, n: nat, p: nat, k: nat)
    requires Good(hs, n) && Hole(hs, n, p, k)
    requires k < MAX_ORDER ==> var b := FlipBit(p, k); !(b in hs && hs[b] == k)
    ensures Coalesced(hs[p := k])
  {
    hide Aligned; hide BitSet; hide Size; hide FlipBit; hide Disjoint;
    var hs' := hs[p := k];
    FlipBitPairs(p, k);
    forall q | q in hs' && hs'[q] < MAX_ORDER
      ensures var b := FlipBit(q, hs'[q]); !(b in hs' && hs'[b] == hs'[q])
    {
      FlipBitPairs(q, hs'[q]);
    }
  }

  lemma FillFree(hs: Heads, n: nat, p: nat, k: nat)
    requires Hole(hs, n, p, k)
    ensures p !in hs
    ensures forall q: nat :: Free(hs[p := k], q) <==> Free(hs, q) || InBlock(q, p, k)
  {
    var hs' := hs[p := k];
    forall q: nat
      ensures Free(hs', q) <==> Free(hs, q) || InBlock(q, p, k)
    {
      if Free(hs, q) {
        var r: nat :| r in hs && r <= q < r + Size(hs[r]);
        assert r in hs' && hs'[r] == hs[r];
      }
      if InBlock(q, p, k) {
        assert p in hs';
      }
    }
  }

  // A hole and its free buddy together are a hole of the next order.
  lemma MergeHole(hs: Heads, n: nat, p: nat, k: nat)
    requires Good(hs, n) && Hole(hs, n, p, k) && k < MAX_ORDER
    requires FlipBit(p, k) in hs && hs[FlipBit(p, k)] == k
    ensures var b := FlipBit(p, k);
            var hs' := hs - {b};
            && Good(hs', n) && Hole(hs', n, ClearBit(p, k), k + 1)
            && forall q :: Free(hs', q) || InBlock(q, ClearBit(p, k), k + 1) <==> Free(hs, q) || InBlock(q, p, k)
  {
    hide Aligned; hide BitSet;
    FlipBitPairs(p, k);
    TakeHead(hs, n, FlipBit(p, k));
  }

  lemma HoleNotFree(hs: Heads, n: nat, p: nat, k: nat)
    requires Hole(hs, n, p, k)
    ensures p !in hs && p < n
    ensures forall q: nat :: !(Free(hs, q) && InBlock(q, p, k))
  {
    forall q: nat | Free(hs, q)
      ensures !InBlock(q, p, k)
    {
      var r: nat :| r in hs && r <= q < r + Size(hs[r]);
    }
  }

  lemma HeadFree(hs: Heads, p: nat)
    requires p in hs
    ensures forall q: nat :: InBlock(q, p, hs[p]) ==> Free(hs, q)
  {
  }

  lemma HeadInRange(hs: Heads, n: nat, p: nat)
    requires Good(hs, n) && p in hs
    ensures p < n
  {
  }

  lemma HoleOrder(hs: Heads, n: nat, p: nat, k: nat)
    requires Hole(hs, n, p, k)
    ensures k <= MAX_ORDER && p < n
  {
  }

  lemma EmptyGood(n: nat)
    ensures Good(map[], n) && forall q: nat :: !Free(map[], q)
  {
  }

  // Appending a block behind all others, aligned to twice its size unless it is of the largest order.
  lemma FillBeyond(hs: Heads, n: nat, p: nat, k: nat)
    requires Good(hs, n) && k <= MAX_ORDER && Aligned(p, k) && p + Size(k) <= n
    requires k < MAX_ORDER ==> !BitSet(p, k)
    requires forall q :: q in hs ==> q + Size(hs[q]) <= p
    ensures var hs' := hs[p := k];
            && p !in hs && Good(hs', n)
            && forall q: nat :: Free(hs', q) <==> Free(hs, q) || p <= q < p + Size(k)
  {
    FillHole(hs, n, p, k);
    var hs' := hs[p := k];
    forall q: nat
      ensures Free(hs', q) <==> Free(hs, q) || p <= q < p + Size(k)
    {
      assert InBlock(q, p, k) <==> p <= q < p + Size(k);
    }
  }

  lemma AlignedZero(p: nat)
    ensures Aligned(p, 0)
  {
  }

  // An aligned block with no free page in it is a hole.
  lemma RangeHole(hs: Heads, n: nat, p: nat, k: nat)
    requires Good(hs, n) && k <= MAX_ORDER && Aligned(p, k) && p + Size(k) <= n
    requires forall q: nat :: p <= q < p + Size(k) ==> !Free(hs, q)
    ensures Hole(hs, n, p, k)
    ensures forall q: nat :: InBlock(q, p, k) <==> p <= q < p + Size(k)
  {
    forall r | r in hs
      ensures r + Size(hs[r]) <= p || p + Size(k) <= r
    {
      if r < p + Size(k) && p < r + Size(hs[r]) {
        var q := if r < p then p else r;
        assert Free(hs, q);
        assert false;
      }
    }
  }

  // Without a block of order `k` or more there is no free aligned run of that order.
  lemma NoRun(hs: Heads, n: nat, k: nat)
    requires Good(hs, n) && k <= MAX_ORDER && forall p :: p in hs ==> hs[p] < k
    ensures !exists p :: Aligned(p, k) && AllFree(hs, p, k)
  {
    forall p | Aligned(p, k)
      ensures !AllFree(hs, p, k)
    {
      if AllFree(hs, p, k) {
        var q := Cover(hs, n, p, k);
        assert false;
      }
    }
  }

  // The same facts about an allocated block, page by page.
  lemma SplitRange(hs: Heads, hs': Heads, n: nat, p: nat, k: nat)
    requires Hole(hs', n, p, k)
    requires forall q: nat :: Free(hs, q) <==> Free(hs', q) || InBlock(q, p, k)
    requires forall q: nat :: !(Free(hs', q) && InBlock(q, p, k))
    ensures Aligned(p, k) && p + Size(k) <= n && AllFree(hs, p, k)
    ensures forall q: nat :: Free(hs', q) <==> Free(hs, q) && !(p <= q < p + Size(k))
  {
    forall q: nat
      ensures Free(hs', q) <==> Free(hs, q) && !(p <= q < p + Size(k))
    {
      assert InBlock(q, p, k) <==> p <= q < p + Size(k);
    }
    forall q: nat | p <= q < p + Size(k)
      ensures Free(hs, q)
    {
      assert InBlock(q, p, k);
    }
  }

  // ----- Counting free pages -----

  ghost function Pages(p: nat, c: nat): set<nat> {
    if c == 0 then {} else Pages(p, c - 1) + {p + c - 1}
  }

  lemma {:induction false} PagesCount(p: nat, c: nat)
    ensures |Pages(p, c)| == c
    ensures forall q: nat :: q in Pages(p, c) <==> p <= q < p + c
  {
    if c > 0 {
      PagesCount(p, c - 1);
    }
  }

  // The pages of the blocks of order `k` that start at the pages in `l`.
  ghost function ListPages(l: seq<nat>, k: nat): set<nat> {
    if l == [] then {} else ListPages(l[..|l| - 1], k) + Pages(l[|l| - 1], Size(k))
  }

  lemma {:induction false} ListPagesMember(l: seq<nat>, k: nat, q: nat)
    ensures q in ListPages(l, k) <==> exists p :: p in l && p <= q < p + Size(k)
  {
    if l != [] {
      var m := |l| - 1;
      ListPagesMember(l[..m], k, q);
      PagesCount(l[m], Size(k));
      assert l == l[..m] + [l[m]];
      assert l[m] in l;
      if p: nat :| p in l[..m] && p <= q < p + Size(k) {
        assert p in l;
      }
    }
  }

  lemma {:induction false} ListPagesCount(hs: Heads, l: seq<nat>, k: nat)
    requires Disjoint(hs) && forall p :: p in l ==> p in hs && hs[p] == k
    requires forall i, j :: 0 <= i < j < |l| ==> l[i] != l[j]
    ensures |ListPages(l, k)| == |l| * Size(k)
  {
    if l != [] {
      var m := |l| - 1;
      assert l == l[..m] + [l[m]];
      ListPagesCount(hs, l[..m], k);
      PagesCount(l[m], Size(k));
      forall q | q in ListPages(l[..m], k)
        ensures q !in Pages(l[m], Size(k))
      {
        ListPagesMember(l[..m], k, q);
        var p: nat :| p in l[..m] && p <= q < p + Size(k);
        assert p in l && l[m] in l;
      }
      assert ListPages(l[..m], k) !! Pages(l[m], Size(k));
      CountStep(m, Size(k));
    } else {
      CountZero(Size(k));
    }
  }

  lemma CountStep(m: nat, s: nat)
    ensures (m + 1) * s == m * s + s
  {
  }

  lemma CountZero(s: nat)
    ensures 0 * s == 0
  {
  }

  // The pages of all free blocks of an order below `k`.
  ghost predicate FreeBelow(hs: Heads, k: nat, q: nat) {
    exists p :: p in hs && hs[p] < k && p <= q < p + Size(hs[p])
  }

  // Adding the blocks of order `k` to those of smaller order.
  lemma FreeBelowStep(hs: Heads, l: seq<nat>, k: nat, acc: set<nat>)
    requires Disjoint(hs) && forall p :: p in l <==> p in hs && hs[p] == k
    requires forall q :: q in acc <==> FreeBelow(hs, k, q)
    ensures acc !! ListPages(l, k)
    ensures forall q :: q in acc + ListPages(l, k) <==> FreeBelow(hs, k + 1, q)
  {
    hide FreeBelow; hide ListPages; hide Disjoint; hide Size;
    forall q: nat
      ensures !(q in acc && q in ListPages(l, k))
      ensures q in acc + ListPages(l, k) <==> FreeBelow(hs, k + 1, q)
    {
      FreeBelowOne(hs, l, k, q);
    }
  }

  lemma FreeBelowOne(hs: Heads, l: seq<nat>, k: nat, q: nat)
    requires Disjoint(hs) && forall p :: p in l <==> p in hs && hs[p] == k
    ensures FreeBelow(hs, k + 1, q) <==> FreeBelow(hs, k, q) || q in ListPages(l, k)
    ensures !(FreeBelow(hs, k, q) && q in ListPages(l, k))
  {
    hide ListPages; hide Size;
    ListPagesMember(l, k, q);
    if FreeBelow(hs, k + 1, q) {
      var p: nat :| p in hs && hs[p] < k + 1 && p <= q < p + Size(hs[p]);
      assert hs[p] == k ==> p in l;
    }
    if q in ListPages(l, k) {
      var p: nat :| p in l && p <= q < p + Size(k);
      assert hs[p] == k;
    }
  }

  lemma NoneBelow(hs: Heads)
    ensures forall q :: !FreeBelow(hs, 0, q)
  {
  }

  ghost function FreeSet(hs: Heads, n: nat): set<nat> {
    set q: nat | q < n && Free(hs, q)
  }

  lemma FreeBelowAll(hs: Heads, n: nat, acc: set<nat>)
    requires WellPlaced(hs, n) && forall q :: q in acc <==> FreeBelow(hs, MAX_ORDER + 1, q)
    ensures acc == FreeSet(hs, n)
  {
    forall q: nat
      ensures q in acc <==> q < n && Free(hs, q)
    {
    }
  }
}
