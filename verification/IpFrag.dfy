/**
 * Fragmentation and reassembly of IPv4 datagrams in net/ipv4.c (section 3.2 of
 * RFC 791).
 */
module IpFrag {
  import opened Common

  const HDR := 20
  const IP_FRAG_MAX_BUF_NR := 200
  const NET_OK := 0
  const E_NET_FULL := 38
  const E_NET_EXIST := 42

  // A fragment: its header, the offset field in units of 8 bytes, the flag for more fragments, and its data.
  datatype Frag = Frag(hdr: seq<byte>, offset: int, more: bool, data: seq<byte>)

  // get_frag_start and get_frag_end, in 16 bits.
  function Start(f: Frag): int {
    f.offset * 8 % 65536
  }

  function End(f: Frag): int {
    (Start(f) + |f.data|) % 65536
  }

  // The `i`-th fragment starts where the one before ends, and all but the last announce more.
  ghost predicate Tiles(fs: seq<Frag>, payload: seq<byte>) {
    && |payload| <= 65535 && fs != []
    && (forall i :: 0 <= i < |fs| ==> fs[i].data != [] && |fs[i].hdr| == HDR && Start(fs[i]) + |fs[i].data| <= 65535)
    && (forall i, j :: 0 <= i < j < |fs| ==> Start(fs[i]) + |fs[i].data| <= Start(fs[j]))
    && Start(fs[0]) == 0 && (forall i :: 0 <= i < |fs| - 1 ==> Start(fs[i]) + |fs[i].data| == Start(fs[i + 1]))
    && (forall i :: 0 <= i < |fs| ==> (fs[i].more <==> i < |fs| - 1))
    && Data(fs) == payload
  }

  function Data(fs: seq<Frag>): seq<byte> {
    if fs == [] then [] else Data(fs[..|fs| - 1]) + fs[|fs| - 1].data
  }

  // ip_frag_out: cuts a datagram into pieces that fit the mtu, all but the last a multiple of 8 bytes long.
  method FragOut(payload: seq<byte>, mtu: nat, hdr: seq<byte>) returns (fs: seq<Frag>)
    requires mtu >= HDR + 8 && |payload| <= 65535 && |hdr| == HDR
    ensures payload == [] ==> fs == []
    ensures payload != [] ==> Tiles(fs, payload)
    ensures |fs| == FragCount(|payload|, mtu) && forall i :: 0 <= i < |fs| ==> fs[i].hdr == hdr
    ensures forall i :: 0 <= i < |fs| ==> HDR + |fs[i].data| <= mtu && (i < |fs| - 1 ==> |fs[i].data| == Chunk(mtu))
    ensures payload != [] ==> fs[0].offset == 0
    ensures forall i :: 0 <= i < |fs| - 1 ==> fs[i + 1].offset * 8 == fs[i].offset * 8 + |fs[i].data|
  {
    hide Data; hide Laid; hide FragCount; hide Chunk;
    fs := [];
    NoFrags(mtu);
    DataNone();
    LaidNone(mtu);
    var offset, total: nat := 0, |payload|;
    while total > 0
      invariant 0 <= offset && offset + total == |payload| && (total > 0 ==> offset % 8 == 0)
      invariant Data(fs) == payload[..offset] && (fs == [] <==> offset == 0) && Laid(fs, offset, total > 0, mtu)
      invariant |fs| + FragCount(total, mtu) == FragCount(|payload|, mtu) && forall i :: 0 <= i < |fs| ==> fs[i].hdr == hdr
    {
      ChunkFacts(mtu);
      OneFrag(total, mtu);
      var cur := if total > mtu - HDR then mtu - HDR else total;
      if cur < total {
        cur := cur - cur % 8;
      }
      var f := Frag(hdr, offset / 8 % 8192, total > cur, payload[offset..offset + cur]);
      StartIs(offset);
      DataMore(fs, f);
      LaidMore(fs, f, offset, mtu);
      assert payload[..offset] + payload[offset..offset + cur] == payload[..offset + cur];
      fs := fs + [f];
      total := total - cur;
      offset := offset + cur;
    }
    assert payload[..offset] == payload;
    LaidDone(fs, payload, mtu);
  }

  // The bytes in every fragment but the last: what the mtu leaves room for, rounded down to a multiple of 8.
  function Chunk(mtu: int): (c: int)
    ensures c % 8 == 0 && c <= mtu - HDR < c + 8
  {
    mtu - HDR - (mtu - HDR) % 8
  }

  // The number of fragments of `total` bytes.
  function FragCount(total: nat, mtu: int): (n: nat)
    requires mtu >= HDR + 8
  {
    ChunkFacts(mtu);
    if total == 0 then 0 else if total <= mtu - HDR then 1 else 1 + (total - (mtu - HDR) + Chunk(mtu) - 1) / Chunk(mtu)
  }

  lemma ChunkFacts(mtu: int)
    requires mtu >= HDR + 8
    ensures 8 <= Chunk(mtu) <= mtu - HDR < Chunk(mtu) + 8 && Chunk(mtu) % 8 == 0
  {
  }

  lemma NoFrags(mtu: int)
    requires mtu >= HDR + 8
    ensures FragCount(0, mtu) == 0
  {
  }

  // Cutting one fragment off leaves one less.
  lemma OneFrag(total: nat, mtu: int)
    requires mtu >= HDR + 8 && total > 0
    ensures if total <= mtu - HDR then FragCount(total, mtu) == 1 && FragCount(0, mtu) == 0
            else total >= Chunk(mtu) && FragCount(total, mtu) == 1 + FragCount(total - Chunk(mtu), mtu)
  {
    hide Chunk;
    ChunkFacts(mtu);
    var c, m := Chunk(mtu), mtu - HDR;
    if total > m {
      var x := total - m + c - 1;
      DivStep(x, c);
      if total - c <= m {
        SmallDiv(x - c, c);
      }
    }
  }

  lemma DivStep(x: int, c: int)
    requires c > 0
    ensures x / c == (x - c) / c + 1
  {
    DivIs(x, c, (x - c) / c + 1);
  }

  lemma DivIs(x: int, c: int, q: int)
    requires c > 0 && q * c <= x < q * c + c
    ensures x / c == q
  {
    var d := x / c - q;
    assert x == c * (x / c) + x % c;
    assert c * d == c * (x / c) - q * c;
    assert -c < c * d < c;
    if d >= 1 {
      TimesAtLeast(c, d);
    }
    if -d >= 1 {
      TimesAtLeast(c, -d);
    }
  }

  lemma TimesAtLeast(c: int, d: int)
    requires c > 0 && d >= 1
    ensures c * d >= c && c * -d <= -c
  {
  }

  lemma SmallDiv(x: int, c: int)
    requires 0 <= x < c
    ensures x / c == 0
  {
  }

  // Fragments laid one behind the other up to `offset`; `open`: more of them follow.
  ghost predicate Laid(fs: seq<Frag>, offset: int, open: bool, mtu: int) {
    && (forall i :: 0 <= i < |fs| ==> fs[i].data != [] && |fs[i].hdr| == HDR && HDR + |fs[i].data| <= mtu)
    && (forall i :: 0 <= i < |fs| && (i < |fs| - 1 || open) ==> |fs[i].data| == Chunk(mtu))
    && (forall i :: 0 <= i < |fs| ==> Start(fs[i]) + |fs[i].data| <= offset)
    && (forall i :: 0 <= i < |fs| - 1 ==> Start(fs[i]) + |fs[i].data| == Start(fs[i + 1]))
    && (fs != [] ==> Start(fs[0]) == 0 && Start(fs[|fs| - 1]) + |fs[|fs| - 1].data| == offset)
    && (forall i, j :: 0 <= i < j < |fs| ==> Start(fs[i]) + |fs[i].data| <= Start(fs[j]))
    && (forall i :: 0 <= i < |fs| ==> (fs[i].more <==> i < |fs| - 1 || open))
    && (forall i :: 0 <= i < |fs| ==> fs[i].offset * 8 == Start(fs[i]))
  }

  lemma LaidNone(mtu: int)
    ensures forall open :: Laid([], 0, open, mtu)
  {
  }

  lemma LaidMore(fs: seq<Frag>, f: Frag, offset: int, mtu: int)
    requires Laid(fs, offset, true, mtu) && (fs == [] ==> offset == 0) && Start(f) == offset == f.offset * 8
    requires f.data != [] && |f.hdr| == HDR && HDR + |f.data| <= mtu && (f.more ==> |f.data| == Chunk(mtu))
    ensures Laid(fs + [f], offset + |f.data|, f.more, mtu)
  {
    hide Start;
  }

  lemma LaidDone(fs: seq<Frag>, payload: seq<byte>, mtu: int)
    requires Laid(fs, |payload|, false, mtu) && |payload| <= 65535 && Data(fs) == payload
    ensures fs != [] ==> Tiles(fs, payload)
    ensures forall i :: 0 <= i < |fs| ==> HDR + |fs[i].data| <= mtu && (i < |fs| - 1 ==> |fs[i].data| == Chunk(mtu))
    ensures fs != [] ==> fs[0].offset == 0
    ensures forall i :: 0 <= i < |fs| - 1 ==> fs[i + 1].offset * 8 == fs[i].offset * 8 + |fs[i].data|
  {
    hide Start; hide Data;
  }

  lemma StartIs(offset: nat)
    requires offset % 8 == 0 && offset <= 65535
    ensures offset / 8 % 8192 * 8 == offset && offset / 8 % 8192 * 8 % 65536 == offset
  {
  }

  lemma DataNone()
    ensures Data([]) == []
  {
  }

  lemma DataMore(fs: seq<Frag>, f: Frag)
    ensures Data(fs + [f]) == Data(fs) + f.data
  {
    assert (fs + [f])[..|fs|] == fs;
  }

  // The fragments `fs` with the indices `ix`.
  ghost function Pick(fs: seq<Frag>, ix: seq<int>): (r: seq<Frag>)
    requires Picks(fs, ix)
    ensures |r| == |ix| && forall k :: 0 <= k < |ix| ==> r[k] == fs[ix[k]]
  {
    if ix == [] then [] else Pick(fs, ix[..|ix| - 1]) + [fs[ix[|ix| - 1]]]
  }

  ghost predicate Picks(fs: seq<Frag>, ix: seq<int>) {
    && (forall k :: 0 <= k < |ix| ==> 0 <= ix[k] < |fs|)
    && (forall k, l :: 0 <= k < l < |ix| ==> ix[k] < ix[l])
  }

  // Where index `i` belongs among `ix`.
  ghost predicate Between(ix: seq<int>, i: int, k: int) {
    0 <= k <= |ix| && (forall l :: 0 <= l < k ==> ix[l] < i) && (forall l :: k <= l < |ix| ==> i < ix[l])
  }

  function Put(ix: seq<int>, i: int, k: int): seq<int>
    requires 0 <= k <= |ix|
  {
    ix[..k] + [i] + ix[k..]
  }

  // The loop of frag_insert over fragments of one datagram.
  method Insert(list: seq<Frag>, f: Frag, ghost fs: seq<Frag>, ghost payload: seq<byte>, ghost ix: seq<int>, ghost i: int)
    returns (ret: int, list': seq<Frag>, ghost ix': seq<int>)
    requires Tiles(fs, payload) && Picks(fs, ix) && list == Pick(fs, ix) && 0 <= i < |fs| && f == fs[i]
    ensures ret == if i in ix then -E_NET_EXIST else NET_OK
    ensures Picks(fs, ix') && list' == Pick(fs, ix')
    ensures if i in ix then ix' == ix else exists k :: Between(ix, i, k) && ix' == Put(ix, i, k)
  {
    hide Pick; hide Data;
    list', ix' := list, ix;
    var k := 0;
    while k < |list|
      invariant 0 <= k <= |list| && forall l :: 0 <= l < k ==> ix[l] < i
    {
      OneOrder(fs, payload, i, ix[k]);
      if Start(f) == Start(list[k]) {
        return -E_NET_EXIST, list, ix;
      } else if End(f) <= Start(list[k]) {
        break;
      }
      k := k + 1;
    }
    assert Between(ix, i, k);
    PutPick(fs, ix, i, k);
    list' := list[..k] + [f] + list[k..];
    ix' := Put(ix, i, k);
    ret := NET_OK;
  }

  // The order of the start addresses is the order of the fragments.
  lemma OneOrder(fs: seq<Frag>, payload: seq<byte>, i: int, j: int)
    requires Tiles(fs, payload) && 0 <= i < |fs| && 0 <= j < |fs|
    ensures Start(fs[i]) == Start(fs[j]) <==> i == j
    ensures End(fs[i]) <= Start(fs[j]) <==> i < j
  {
    hide Data;
    assert fs[i].data != [] && fs[j].data != [];
    if j < i {
      assert Start(fs[j]) + |fs[j].data| <= Start(fs[i]);
    }
  }

  lemma PutPick(fs: seq<Frag>, ix: seq<int>, i: int, k: int)
    requires Picks(fs, ix) && 0 <= i < |fs| && Between(ix, i, k)
    ensures Picks(fs, Put(ix, i, k)) && i !in ix
    ensures Pick(fs, Put(ix, i, k)) == Pick(fs, ix)[..k] + [fs[i]] + Pick(fs, ix)[k..]
  {
    hide Pick;
    var ix' := Put(ix, i, k);
    forall l | 0 <= l < |ix'|
      ensures ix'[l] == if l < k then ix[l] else if l == k then i else ix[l - 1]
    {
    }
    forall l, m | 0 <= l < m < |ix'|
      ensures ix'[l] < ix'[m]
    {
    }
  }

  // frag_is_all_arrived
  method AllArrived(list: seq<Frag>) returns (r: bool)
    ensures r <==> Complete(list)
  {
    hide Start;
    var offset, k := 0, 0;
    while k < |list|
      invariant 0 <= k <= |list| && offset == Before(list, k)
      invariant forall l :: 0 <= l < k ==> Start(list[l]) == Before(list, l)
    {
      if Start(list[k]) != offset {
        return false;
      }
      offset := offset + |list[k].data|;
      k := k + 1;
    }
    r := list != [] && !list[|list| - 1].more;
  }

  // The bytes in the first `k` fragments of the list.
  function Before(list: seq<Frag>, k: int): int
    requires 0 <= k <= |list|
  {
    if k == 0 then 0 else Before(list, k - 1) + |list[k - 1].data|
  }

  ghost predicate Complete(list: seq<Frag>) {
    && list != [] && !list[|list| - 1].more
    && forall l :: 0 <= l < |list| ==> Start(list[l]) == Before(list, l)
  }

  // The list is complete exactly when every fragment is in it.
  lemma CompleteIsAll(fs: seq<Frag>, payload: seq<byte>, ix: seq<int>)
    requires Tiles(fs, payload) && Picks(fs, ix)
    ensures Complete(Pick(fs, ix)) <==> |ix| == |fs|
  {
    hide Data; hide Pick; hide Start;
    var list := Pick(fs, ix);
    if Complete(list) {
      var m := |ix|;
      forall l: nat | l < m
        ensures ix[l] == l
      {
        InSequence(fs, payload, ix, l);
      }
      assert !fs[ix[m - 1]].more;
    }
    if |ix| == |fs| {
      forall l: nat | l < |ix|
        ensures ix[l] == l
      {
        FullIndex(fs, ix, l);
      }
      forall l: nat | l < |ix|
        ensures Start(list[l]) == Before(list, l)
      {
        StartBefore(fs, payload, list, l);
      }
    }
  }

  lemma {:induction false} InSequence(fs: seq<Frag>, payload: seq<byte>, ix: seq<int>, l: nat)
    requires Tiles(fs, payload) && Picks(fs, ix) && Complete(Pick(fs, ix)) && l < |ix|
    ensures ix[l] == l
  {
    hide Tiles; hide Picks; hide Complete; hide Pick;
    if l == 0 {
      FirstInSequence(fs, payload, ix);
    } else {
      InSequence(fs, payload, ix, l - 1);
      NextInSequence(fs, payload, ix, l);
    }
  }

  lemma FirstInSequence(fs: seq<Frag>, payload: seq<byte>, ix: seq<int>)
    requires Tiles(fs, payload) && Picks(fs, ix) && Complete(Pick(fs, ix)) && ix != []
    ensures ix[0] == 0
  {
    hide Data; hide Pick; hide Start; hide Complete;
    CompleteAt(Pick(fs, ix), 0);
    OneOrder(fs, payload, ix[0], 0);
  }

  // Behind fragment l - 1 comes fragment l.
  lemma NextInSequence(fs: seq<Frag>, payload: seq<byte>, ix: seq<int>, l: nat)
    requires Tiles(fs, payload) && Picks(fs, ix) && Complete(Pick(fs, ix)) && 0 < l < |ix| && ix[l - 1] == l - 1
    ensures ix[l] == l
  {
    hide Data; hide Pick; hide Start; hide Complete;
    AtLeast(fs, ix, l);
    CompleteAt(Pick(fs, ix), l);
    StartNext(fs, payload, l - 1);
    hide Tiles;
    OneOrder(fs, payload, ix[l], l);
  }

  lemma CompleteAt(list: seq<Frag>, l: nat)
    requires Complete(list) && l < |list|
    ensures Start(list[l]) == if l == 0 then 0 else Start(list[l - 1]) + |list[l - 1].data|
  {
    hide Start;
    assert Start(list[l]) == Before(list, l);
    assert l > 0 ==> Start(list[l - 1]) == Before(list, l - 1);
  }

  lemma StartNext(fs: seq<Frag>, payload: seq<byte>, i: nat)
    requires Tiles(fs, payload) && i + 1 < |fs|
    ensures Start(fs[i + 1]) == Start(fs[i]) + |fs[i].data|
  {
    hide Start; hide Data;
  }

  // As many increasing indices as there are fragments: all of them.
  lemma {:induction false} FullIndex(fs: seq<Frag>, ix: seq<int>, l: nat)
    requires Picks(fs, ix) && |ix| == |fs| && l < |ix|
    ensures ix[l] == l
  {
    AtLeast(fs, ix, l);
    AtMost(fs, ix, l);
  }

  lemma {:induction false} AtLeast(fs: seq<Frag>, ix: seq<int>, l: nat)
    requires Picks(fs, ix) && l < |ix|
    ensures ix[l] >= l
  {
    if l > 0 {
      AtLeast(fs, ix, l - 1);
    }
  }

  lemma {:induction false} AtMost(fs: seq<Frag>, ix: seq<int>, l: nat)
    requires Picks(fs, ix) && |ix| == |fs| && l < |ix|
    ensures ix[l] <= l
    decreases |ix| - l
  {
    if l + 1 < |ix| {
      AtMost(fs, ix, l + 1);
    }
  }

  lemma {:induction false} StartBefore(fs: seq<Frag>, payload: seq<byte>, list: seq<Frag>, l: nat)
    requires Tiles(fs, payload) && l < |list| <= |fs| && forall k :: 0 <= k < |list| ==> list[k] == fs[k]
    ensures Start(list[l]) == Before(list, l)
  {
    hide Data; hide Start;
    if l > 0 {
      StartBefore(fs, payload, list, l - 1);
    }
  }

  // frag_join: the header of the first fragment, and the data of all of them.
  method JoinAll(list: seq<Frag>) returns (buf: seq<byte>)
    requires list != []
    ensures buf == list[0].hdr + Data(list)
  {
    hide Data;
    buf := list[0].hdr + list[0].data;
    var k := 1;
    DataNone();
    DataMore([], list[0]);
    assert list[..1] == [] + [list[0]];
    while k < |list|
      invariant 1 <= k <= |list| && buf == list[0].hdr + Data(list[..k])
    {
      DataMore(list[..k], list[k]);
      assert list[..k + 1] == list[..k] + [list[k]];
      buf := buf + list[k].data;
      k := k + 1;
    }
    assert list[..k] == list;
  }

  // What has arrived of one datagram: the indices are those of the fragments on the list.
  ghost predicate Holds(list: seq<Frag>, fs: seq<Frag>, ix: seq<int>) {
    Picks(fs, ix) && list == Pick(fs, ix) && |ix| <= IP_FRAG_MAX_BUF_NR
  }

  /**
   * ip_frag_in for a fragment of one datagram: `list` is ip_frag_buf_list, and a
   * list that is freed is empty afterwards.  The datagram comes out together with
   * its last missing fragment.
   */
  method FragIn(list: seq<Frag>, f: Frag, ghost fs: seq<Frag>, ghost payload: seq<byte>, ghost ix: seq<int>, ghost i: int)
    returns (ret: int, list': seq<Frag>, out: Option<seq<byte>>, ghost ix': seq<int>)
    requires Tiles(fs, payload) && Holds(list, fs, ix) && 0 <= i < |fs| && f == fs[i]
    ensures Holds(list', fs, ix')
    ensures |ix| >= IP_FRAG_MAX_BUF_NR ==> ret == -E_NET_FULL && out.None? && ix' == []
    ensures |ix| < IP_FRAG_MAX_BUF_NR && i in ix ==> ret == -E_NET_EXIST && out.None? && ix' == ix
    ensures |ix| < IP_FRAG_MAX_BUF_NR && i !in ix && |ix| + 1 < |fs| ==>
              ret == NET_OK && out.None? && |ix'| == |ix| + 1 && forall j :: j in ix' <==> j in ix || j == i
    ensures |ix| < IP_FRAG_MAX_BUF_NR && i !in ix && |ix| + 1 >= |fs| ==>
              ret == NET_OK && out == Some(fs[0].hdr + payload) && ix' == []
  {
    hide Pick; hide Data; hide Complete; hide Tiles;
    PickNone(fs);
    if |list| >= IP_FRAG_MAX_BUF_NR {
      return -E_NET_FULL, [], None, [];
    }
    ret, list', ix' := Insert(list, f, fs, payload, ix, i);
    out := None;
    if ret != NET_OK {
      return;
    }
    PutMembers(ix, ix', i);
    CompleteIsAll(fs, payload, ix');
    NotMore(fs, ix');
    var all := AllArrived(list');
    if all {
      AllInOrder(fs, payload, ix');
      var buf := JoinAll(list');
      return NET_OK, [], Some(buf), [];
    }
  }

  lemma PickNone(fs: seq<Frag>)
    ensures Picks(fs, []) && Pick(fs, []) == []
  {
  }

  lemma PutMembers(ix: seq<int>, ix': seq<int>, i: int)
    requires exists k :: Between(ix, i, k) && ix' == Put(ix, i, k)
    ensures |ix'| == |ix| + 1 && forall j :: j in ix' <==> j in ix || j == i
  {
    var k :| Between(ix, i, k) && ix' == Put(ix, i, k);
    assert ix == ix[..k] + ix[k..];
  }

  lemma NotMore(fs: seq<Frag>, ix: seq<int>)
    requires Picks(fs, ix)
    ensures |ix| <= |fs|
  {
    if |ix| > 0 {
      AtLeast(fs, ix, |ix| - 1);
    }
  }

  lemma AllInOrder(fs: seq<Frag>, payload: seq<byte>, ix: seq<int>)
    requires Tiles(fs, payload) && Picks(fs, ix) && |ix| == |fs|
    ensures Pick(fs, ix) == fs && Data(fs) == payload
  {
    hide Pick; hide Start; hide Data;
    forall l: nat | l < |ix|
      ensures Pick(fs, ix)[l] == fs[l]
    {
      FullIndex(fs, ix, l);
    }
  }

  // Fragment `i` is among the first `n` to arrive.
  ghost predicate Arrived(order: seq<int>, n: int, i: int)
    requires 0 <= n <= |order|
  {
    i in order[..n]
  }

  // All `m` fragments are.
  ghost predicate AllBy(order: seq<int>, n: int, m: int)
    requires 0 <= n <= |order|
  {
    forall i :: 0 <= i < m ==> Arrived(order, n, i)
  }

  /**
   * The fragments of one datagram arrive in any order, with duplicates, until it
   * is put together: after `n` of them, and exactly when all have arrived.  With
   * more than IP_FRAG_MAX_BUF_NR fragments this never happens.
   */
  method Deliver(fs: seq<Frag>, ghost payload: seq<byte>, order: seq<int>) returns (n: int, out: Option<seq<byte>>)
    requires Tiles(fs, payload) && forall k :: 0 <= k < |order| ==> 0 <= order[k] < |fs|
    ensures 0 <= n <= |order|
    ensures |fs| > IP_FRAG_MAX_BUF_NR ==> out.None? && n == |order|
    ensures |fs| <= IP_FRAG_MAX_BUF_NR && out.None? ==> n == |order| && !AllBy(order, n, |fs|)
    ensures |fs| <= IP_FRAG_MAX_BUF_NR && out.Some? ==>
              && out.value == fs[0].hdr + payload && n > 0
              && AllBy(order, n, |fs|) && !AllBy(order, n - 1, |fs|)
  {
    hide Pick; hide Data; hide Tiles; hide Picks;
    var list: seq<Frag> := [];
    ghost var ix: seq<int> := [];
    PickNone(fs);
    SomeFragment(fs, payload);
    n, out := 0, None;
    while n < |order|
      invariant 0 <= n <= |order| && out.None? && Holds(list, fs, ix) && |ix| < |fs|
      invariant |fs| <= IP_FRAG_MAX_BUF_NR ==> forall i :: i in ix <==> Arrived(order, n, i)
    {
      var i := order[n];
      ghost var old' := ix;
      assert order[..n + 1] == order[..n] + [i];
      Missing(fs, ix);
      var ret;
      ret, list, out, ix := FragIn(list, fs[i], fs, payload, ix, i);
      n := n + 1;
      if out.Some? {
        LastOne(fs, old', i);
        forall j | 0 <= j < |fs|
          ensures |fs| <= IP_FRAG_MAX_BUF_NR ==> Arrived(order, n, j)
        {
          assert j in old' || j == i;
          assert j in old' && |fs| <= IP_FRAG_MAX_BUF_NR ==> Arrived(order, n - 1, j);
        }
        return;
      }
    }
    Missing(fs, ix);
  }

  lemma SomeFragment(fs: seq<Frag>, payload: seq<byte>)
    requires Tiles(fs, payload)
    ensures |fs| > 0
  {
  }

  // With fewer indices than fragments, one is missing.
  lemma Missing(fs: seq<Frag>, ix: seq<int>)
    requires Picks(fs, ix) && |ix| < |fs|
    ensures exists i :: 0 <= i < |fs| && i !in ix
  {
    if forall i :: 0 <= i < |fs| ==> i in ix {
      Pigeon(fs, ix, |fs|);
    }
  }

  lemma {:induction false} Pigeon(fs: seq<Frag>, ix: seq<int>, n: nat)
    requires Picks(fs, ix) && n <= |fs| && forall i :: 0 <= i < n ==> i in ix
    ensures n <= |ix| && forall i :: 0 <= i < n ==> ix[i] == i
  {
    if n > 0 {
      Pigeon(fs, ix, n - 1);
      assert (n - 1) in ix;
      var k :| 0 <= k < |ix| && ix[k] == n - 1;
      AtLeast(fs, ix, k);
    }
  }

  // The fragment that completes the list makes it hold them all.
  lemma LastOne(fs: seq<Frag>, ix: seq<int>, i: int)
    requires Picks(fs, ix) && 0 <= i < |fs| && i !in ix && |ix| + 1 == |fs|
    ensures forall j :: 0 <= j < |fs| ==> j in ix || j == i
  {
    var k := PlaceOf(ix, i);
    PutPick(fs, ix, i, k);
    PutMembers(ix, Put(ix, i, k), i);
    forall j: nat | j < |fs|
      ensures j in ix || j == i
    {
      FullIndex(fs, Put(ix, i, k), j);
    }
  }

  lemma {:induction false} PlaceOf(ix: seq<int>, i: int) returns (k: int)
    requires (forall l, m :: 0 <= l < m < |ix| ==> ix[l] < ix[m]) && i !in ix
    ensures Between(ix, i, k)
  {
    k := 0;
    while k < |ix| && ix[k] < i
      invariant 0 <= k <= |ix| && forall l :: 0 <= l < k ==> ix[l] < i
    {
      k := k + 1;
    }
  }

  /**
   * A datagram is cut up and its fragments arrive in any order, with duplicates:
   * it comes out, as it was, exactly when all of them arrive and they are not too many.
   */
  method Transmit(payload: seq<byte>, mtu: nat, hdr: seq<byte>, order: seq<int>) returns (out: Option<seq<byte>>)
    requires mtu >= HDR + 8 && 0 < |payload| <= 65535 && |hdr| == HDR
    requires forall k :: 0 <= k < |order| ==> 0 <= order[k] < FragCount(|payload|, mtu)
    ensures var m := FragCount(|payload|, mtu);
            out == if m <= IP_FRAG_MAX_BUF_NR && AllBy(order, |order|, m) then Some(hdr + payload) else None
  {
    hide Tiles; hide Data; hide FragCount; hide Chunk; hide Arrived;
    var fs := FragOut(payload, mtu, hdr);
    SomeFragment(fs, payload);
    var n;
    n, out := Deliver(fs, payload, order);
    if out.Some? {
      MoreArrived(order, n, |fs|);
    }
  }

  lemma MoreArrived(order: seq<int>, n: int, m: int)
    requires 0 <= n <= |order| && AllBy(order, n, m)
    ensures AllBy(order, |order|, m)
  {
    forall i | 0 <= i < m
      ensures Arrived(order, |order|, i)
    {
      assert Arrived(order, n, i);
      assert order[..|order|] == order[..n] + order[n..];
    }
  }

  // A datagram of 1608 bytes over links with an mtu of 28 bytes never arrives, even if every fragment does.
  method TooManyHappens() returns (out: Option<seq<byte>>)
    ensures FragCount(1608, 28) == 201 && out.None?
  {
    assert FragCount(1608, 28) == 201;
    hide FragCount; hide AllBy;
    out := Transmit(seq(1608, i => 0), 28, seq(HDR, i => 0), seq(201, i => i));
  }
}
