/**
 * The virtual memory areas of one address space (mm/vmm.h), in the order of the
 * list mmap_list, and what they cover.
 */
module VmaShape {
  import opened Common
  import opened RbShape

  const PGSIZE := 4096
  const MAXVA := 0x40_0000_0000
  const U64 := 0x1_0000_0000_0000_0000

  // The record at address `id`.
  datatype Vma = Vma(id: Ptr, lo: int, hi: int, flags: int)

  function PgDown(x: int): (r: int)
    ensures r % PGSIZE == 0 && r <= x < r + PGSIZE
  {
    x - x % PGSIZE
  }

  // PGROUNDUP in 64 bits: past the last page boundary it comes out at 0.
  function PgUp(x: int): (r: int)
    ensures r % PGSIZE == 0
    ensures 0 <= x <= U64 - PGSIZE ==> x <= r < x + PGSIZE
    ensures U64 - PGSIZE < x < U64 ==> r == 0
  {
    PgDown((x + PGSIZE - 1) % U64)
  }

  ghost predicate Proper(v: Vma) {
    v.id > 1 && 0 <= v.lo < v.hi < U64 && v.lo % PGSIZE == 0 && v.hi % PGSIZE == 0
  }

  // Page-aligned areas in ascending order that do not overlap.
  ghost predicate Ordered(s: seq<Vma>) {
    && (forall i :: 0 <= i < |s| ==> Proper(s[i]))
    && forall i, j :: 0 <= i < j < |s| ==> s[i].hi <= s[j].lo && s[i].id != s[j].id
  }

  ghost predicate In(v: Vma, x: int) {
    v.lo <= x < v.hi
  }

  // Address `x` is mapped with flags `f`.
  ghost predicate Maps(s: seq<Vma>, x: int, f: int) {
    exists i :: 0 <= i < |s| && In(s[i], x) && s[i].flags == f
  }

  // Number of areas that end at or before `x`: the search along the list stops there.
  function First(s: seq<Vma>, x: int): (i: nat)
    ensures i <= |s| && (forall j :: 0 <= j < i ==> s[j].hi <= x) && (i < |s| ==> s[i].hi > x)
  {
    if s == [] || s[0].hi > x then 0 else 1 + First(s[1..], x)
  }

  lemma FirstUnique(s: seq<Vma>, x: int, i: nat)
    requires i <= |s| && (forall j :: 0 <= j < i ==> s[j].hi <= x) && (i < |s| ==> s[i].hi > x)
    ensures First(s, x) == i
  {
  }

  ghost predicate Clear(s: seq<Vma>, lo: int, hi: int) {
    forall i :: 0 <= i < |s| ==> s[i].hi <= lo || hi <= s[i].lo
  }

  ghost predicate Fresh(s: seq<Vma>, p: Ptr) {
    forall i :: 0 <= i < |s| ==> s[i].id != p
  }

  // Number of areas that start at or before `lo`: where a new one belongs.
  ghost predicate Place(s: seq<Vma>, lo: int, i: int) {
    && 0 <= i <= |s|
    && (forall j :: 0 <= j < i ==> s[j].lo <= lo)
    && (forall j :: i <= j < |s| ==> s[j].lo > lo)
  }

  lemma InsertOrdered(s: seq<Vma>, v: Vma, i: int)
    requires Ordered(s) && Proper(v) && Fresh(s, v.id) && Clear(s, v.lo, v.hi) && Place(s, v.lo, i)
    ensures Ordered(s[..i] + [v] + s[i..])
  {
  }

  lemma MapsJoin(a: seq<Vma>, b: seq<Vma>, x: int, f: int)
    ensures Maps(a + b, x, f) <==> Maps(a, x, f) || Maps(b, x, f)
  {
    if Maps(a, x, f) {
      var i :| 0 <= i < |a| && In(a[i], x) && a[i].flags == f;
      assert In((a + b)[i], x);
    }
    if Maps(b, x, f) {
      var i :| 0 <= i < |b| && In(b[i], x) && b[i].flags == f;
      assert In((a + b)[|a| + i], x);
    }
  }

  lemma MapsOne(v: Vma, x: int, f: int)
    ensures Maps([v], x, f) <==> In(v, x) && v.flags == f
  {
    if In(v, x) {
      assert In([v][0], x);
    }
  }

  lemma InsertMaps(s: seq<Vma>, v: Vma, i: int)
    requires 0 <= i <= |s|
    ensures forall x, f :: Maps(s[..i] + [v] + s[i..], x, f) <==> Maps(s, x, f) || (In(v, x) && v.flags == f)
  {
    hide Maps; hide In;
    assert s == s[..i] + s[i..];
    forall x, f
      ensures Maps(s[..i] + [v] + s[i..], x, f) <==> Maps(s, x, f) || (In(v, x) && v.flags == f)
    {
      MapsJoin(s[..i], s[i..], x, f);
      MapsJoin(s[..i] + [v], s[i..], x, f);
      MapsJoin(s[..i], [v], x, f);
      MapsOne(v, x, f);
    }
  }

  lemma InIsFirst(s: seq<Vma>, i: nat, x: int)
    requires Ordered(s) && i < |s| && In(s[i], x)
    ensures First(s, x) == i
  {
    forall j: nat | j < i
      ensures s[j].hi <= x
    {
    }
    FirstUnique(s, x, i);
  }

  lemma RemoveOrdered(s: seq<Vma>, i: nat)
    requires Ordered(s) && i < |s|
    ensures Ordered(s[..i] + s[i + 1..]) && Fresh(s[..i] + s[i + 1..], s[i].id)
  {
  }

  lemma RemoveMaps(s: seq<Vma>, i: nat, x: int, f: int)
    requires i < |s|
    ensures Maps(s, x, f) <==> Maps(s[..i] + s[i + 1..], x, f) || (In(s[i], x) && s[i].flags == f)
  {
    hide Maps; hide In;
    assert s == s[..i] + [s[i]] + s[i + 1..];
    MapsJoin(s[..i] + [s[i]], s[i + 1..], x, f);
    MapsJoin(s[..i], [s[i]], x, f);
    MapsJoin(s[..i], s[i + 1..], x, f);
    MapsOne(s[i], x, f);
  }

  // One area changes its bounds without meeting its neighbours.
  lemma ChangeOrdered(s: seq<Vma>, i: nat, v: Vma)
    requires Ordered(s) && i < |s| && Proper(v) && v.id == s[i].id
    requires (i > 0 ==> s[i - 1].hi <= v.lo) && (i + 1 < |s| ==> v.hi <= s[i + 1].lo)
    ensures Ordered(s[i := v])
  {
    forall j | 0 <= j < i
      ensures s[j].hi <= v.lo
    {
      assert Proper(s[i - 1]);
    }
    forall j | i < j < |s|
      ensures v.hi <= s[j].lo
    {
      assert Proper(s[i + 1]);
    }
  }

  lemma ChangeMaps(s: seq<Vma>, i: nat, v: Vma, x: int, f: int)
    requires i < |s|
    ensures Maps(s[i := v], x, f) <==> Maps(s[..i] + s[i + 1..], x, f) || (In(v, x) && v.flags == f)
  {
    hide Maps; hide In;
    RemoveMaps(s[i := v], i, x, f);
    assert s[i := v][..i] == s[..i] && s[i := v][i + 1..] == s[i + 1..];
  }

  // An address lies in at most one area.
  lemma OneArea(s: seq<Vma>, i: nat, x: int, f: int)
    requires Ordered(s) && i < |s| && In(s[i], x)
    ensures !Maps(s[..i] + s[i + 1..], x, f)
  {
    var r := s[..i] + s[i + 1..];
    forall j | 0 <= j < |r|
      ensures !In(r[j], x)
    {
      assert r[j] == s[if j < i then j else j + 1];
    }
  }

  // `v` lies inside the area of `s` with the same record.
  ghost predicate Inside(v: Vma, s: seq<Vma>) {
    exists j :: 0 <= j < |s| && s[j].id == v.id && s[j].lo <= v.lo && v.hi <= s[j].hi && s[j].flags == v.flags
  }

  ghost predicate AllInside(a: seq<Vma>, s: seq<Vma>) {
    forall i :: 0 <= i < |a| ==> Inside(a[i], s)
  }

  // Parts of different areas do not meet.
  lemma InsideClear(a: seq<Vma>, s: seq<Vma>, v: Vma)
    requires Ordered(s) && AllInside(a, s) && Inside(v, s) && Fresh(a, v.id) && v.lo < v.hi
    requires forall i :: 0 <= i < |a| ==> a[i].lo < a[i].hi
    ensures Clear(a, v.lo, v.hi)
  {
    forall i | 0 <= i < |a|
      ensures a[i].hi <= v.lo || v.hi <= a[i].lo
    {
      assert Inside(a[i], s);
    }
  }

  // Some area of `a` maps `x`, and `x` is not in the range that goes away.
  ghost predicate Kept(a: seq<Vma>, x: int, f: int, start: int, end: int) {
    Maps(a, x, f) && !(start <= x < end)
  }

  // What remains of one area when the range is cut out; at most one side remains here.
  function Remnant(v: Vma, start: int, end: int): Option<Vma> {
    if v.lo < start then Some(v.(hi := start))
    else if end < v.hi then Some(v.(lo := end))
    else None
  }

  // What unmap_range drops: at least the first page of the range, since its loop tests at the end.
  ghost predicate Drops(d: seq<(int, int)>, x: int) {
    exists i :: 0 <= i < |d| && InRange(d[i], x)
  }

  ghost predicate InRange(r: (int, int), x: int) {
    r.0 <= x < (if r.1 < r.0 + PGSIZE then r.0 + PGSIZE else r.1)
  }

  lemma DropsMore(d: seq<(int, int)>, r: (int, int), x: int)
    ensures Drops(d + [r], x) <==> Drops(d, x) || InRange(r, x)
  {
    if Drops(d, x) {
      var i :| 0 <= i < |d| && InRange(d[i], x);
      assert InRange((d + [r])[i], x);
    }
    if InRange(r, x) {
      assert InRange((d + [r])[|d|], x);
    }
  }
}
