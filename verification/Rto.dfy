/**
 * The estimator of the retransmission timeout, tcp_cal_rto of net/tcp_out.c, in
 * integers: srtt holds 8 times the smoothed round-trip time and rttvar 4 times
 * its variation (section 2 of RFC 6298).
 */
module Rto {

  const TCP_RTO_MIN := 200
  const TCP_INIT_RTO := 1000

  function Abs(x: int): int {
    if x < 0 then -x else x
  }

  function Max(a: int, b: int): int {
    if a > b then a else b
  }

  // The largest variation that samples between `lo` and `hi` can produce.
  function VarBound(lo: int, hi: int): int {
    Max(2 * hi, 4 * (hi - lo))
  }

  // `>> 3` and `>> 2` on a signed number round down, as division by a positive number does here.
  // Seven eighths of what there was and the sample: 1/8 of the new time, rounded up to the next eighth.
  function Smooth(srtt: int, rtt: int): (s: int)
    ensures 7 * srtt + 8 * rtt <= 8 * s <= 7 * srtt + 8 * rtt + 7
  {
    srtt + (rtt - srtt / 8)
  }

  // Three quarters of what there was and how far the sample is off, rounded up to the next quarter.
  function Vary(rttvar: int, srtt: int, rtt: int): (v: int)
    ensures var d := Abs(rtt - srtt / 8); 3 * rttvar + 4 * d <= 4 * v <= 3 * rttvar + 4 * d + 3
  {
    rttvar + (Abs(rtt - srtt / 8) - rttvar / 4)
  }

  // The timeout leaves room for a sample as far off as the last one, and more room after one farther off.
  lemma VaryReaches(v: int, srtt: int, rtt: int, rtt': int)
    requires v >= 0 && Abs(rtt - srtt / 8) <= Abs(rtt' - srtt / 8)
    ensures Vary(v, srtt, rtt) >= Abs(rtt - srtt / 8)
    ensures Vary(v, srtt, rtt') - Vary(v, srtt, rtt) == Abs(rtt' - srtt / 8) - Abs(rtt - srtt / 8)
  {
    Decay(v, v);
  }

  // The smoothed time stays between the samples.
  lemma SmoothBounds(srtt: int, rtt: int, lo: int, hi: int)
    requires 1 <= lo <= rtt <= hi && 8 * lo <= srtt <= 8 * hi
    ensures 8 * lo <= Smooth(srtt, rtt) <= 8 * hi && lo <= srtt / 8 <= hi
  {
    var k, r := srtt / 8, srtt % 8;
    assert srtt == 8 * k + r;
    if k == hi {
      assert r == 0;
    }
  }

  lemma VaryBounds(v: int, srtt: int, rtt: int, lo: int, hi: int)
    requires 1 <= lo <= rtt <= hi && lo <= srtt / 8 <= hi && 0 <= v <= VarBound(lo, hi)
    ensures 0 <= Vary(v, srtt, rtt) <= VarBound(lo, hi)
  {
    var d := hi - lo;
    assert Abs(rtt - srtt / 8) <= d;
    var b := VarBound(lo, hi);
    Decay(v, b);
    Enough(lo, hi);
  }

  // What is left of the variation grows with it.
  lemma Decay(v: int, b: int)
    requires 0 <= v <= b
    ensures 0 <= v - v / 4 <= b - b / 4
  {
  }

  lemma Enough(lo: int, hi: int)
    requires 1 <= lo <= hi
    ensures var b := VarBound(lo, hi); b - b / 4 + (hi - lo) <= b
  {
    var d := hi - lo;
    if 2 * hi > 4 * d {
      assert VarBound(lo, hi) == 2 * hi && (2 * hi) / 4 >= d;
    } else {
      assert VarBound(lo, hi) == 4 * d && (4 * d) / 4 == d;
    }
  }

  lemma Sampled(rttvar: int, srtt: int, rtt: int)
    ensures var delta := rtt - srtt / 8;
            Smooth(srtt, rtt) == srtt + delta && Vary(rttvar, srtt, rtt) == rttvar + ((if delta < 0 then -delta else delta) - rttvar / 4)
  {
  }

  lemma FirstBounds(rtt: int, lo: int, hi: int)
    requires lo <= rtt <= hi
    ensures 2 * rtt <= VarBound(lo, hi)
  {
  }

  lemma EighthBound(srtt: int, hi: int)
    requires srtt <= 8 * hi
    ensures srtt / 8 <= hi
  {
  }

  class Estimator {
    var srtt: int
    var rttvar: int
    var rto: int
    var going: bool

    // All samples so far, if any, lay between `lo` and `hi`.
    ghost predicate Bounded(lo: int, hi: int)
      reads this
    {
      srtt == 0 == rttvar || (8 * lo <= srtt <= 8 * hi && 0 <= rttvar <= VarBound(lo, hi))
    }

    constructor ()
      ensures srtt == 0 && rttvar == 0 && rto == TCP_INIT_RTO && !going
      ensures forall lo, hi :: Bounded(lo, hi)
    {
      srtt, rttvar, rto, going := 0, 0, TCP_INIT_RTO, false;
    }

    // The part of tcp_cal_rto that takes in a sample.
    method Sample(rtt: int, ghost lo: int, ghost hi: int)
      requires Bounded(lo, hi) && 1 <= lo <= rtt <= hi
      modifies `srtt, `rttvar
      ensures 8 * lo <= srtt <= 8 * hi && 0 <= rttvar <= VarBound(lo, hi)
      ensures old(srtt) != 0 ==> srtt == Smooth(old(srtt), rtt) && rttvar == Vary(old(rttvar), old(srtt), rtt)
      ensures old(srtt) == 0 ==> srtt == 8 * rtt && rttvar == 2 * rtt
    {
      hide VarBound; hide Smooth; hide Vary;
      if srtt != 0 {
        SmoothBounds(srtt, rtt, lo, hi);
        VaryBounds(rttvar, srtt, rtt, lo, hi);
        Sampled(rttvar, srtt, rtt);
        var delta := rtt - srtt / 8;
        srtt := srtt + delta;
        rttvar := rttvar + ((if delta < 0 then -delta else delta) - rttvar / 4);
      } else {
        FirstBounds(rtt, lo, hi);
        srtt, rttvar := rtt * 8, rtt * 2;
      }
    }

    /**
     * tcp_cal_rto with the time that has gone by.  A time of 0 counts as 1.  The
     * estimates stay within what the samples allow, whatever their order, and with
     * them the timeout.
     */
    method Update(elapsed: nat, ghost lo: int, ghost hi: int)
      requires Bounded(lo, hi) && 1 <= lo && (going ==> lo <= Max(elapsed, 1) <= hi)
      modifies this
      ensures Bounded(lo, hi) && !going
      ensures old(going) ==> srtt != 0 && TCP_RTO_MIN <= rto <= Max(TCP_RTO_MIN, hi + VarBound(lo, hi))
      ensures old(going) && old(srtt) != 0 ==>
                srtt == Smooth(old(srtt), Max(elapsed, 1)) && rttvar == Vary(old(rttvar), old(srtt), Max(elapsed, 1))
      ensures old(going) && old(srtt) == 0 ==> srtt == 8 * Max(elapsed, 1) && rttvar == 2 * Max(elapsed, 1)
      ensures old(going) ==> rto == Max(TCP_RTO_MIN, srtt / 8 + rttvar)
      ensures !old(going) ==> unchanged(this)
    {
      hide VarBound; hide Smooth; hide Vary;
      if !going {
        return;
      }
      Sample(if elapsed == 0 then 1 else elapsed, lo, hi);
      EighthBound(srtt, hi);
      rto := srtt / 8 + rttvar;
      if rto < TCP_RTO_MIN {
        rto := TCP_RTO_MIN;
      }
      going := false;
    }

    // Any number of samples between `lo` and `hi`: the timeout is between 200 and the larger of 200 and five times the longest.
    method Updates(samples: seq<nat>, ghost lo: int, ghost hi: int)
      requires Bounded(lo, hi) && 1 <= lo && forall i :: 0 <= i < |samples| ==> lo <= Max(samples[i], 1) <= hi
      modifies this
      ensures Bounded(lo, hi) && (samples != [] ==> srtt != 0 && TCP_RTO_MIN <= rto <= Max(TCP_RTO_MIN, 5 * hi))
    {
      var i := 0;
      while i < |samples|
        invariant 0 <= i <= |samples| && Bounded(lo, hi)
        invariant i > 0 ==> srtt != 0 && TCP_RTO_MIN <= rto <= Max(TCP_RTO_MIN, 5 * hi)
      {
        going := true;
        Update(samples[i], lo, hi);
        i := i + 1;
      }
    }

    /**
     * The same time over and over, from any state that samples lead to: after
     * enough of them the smoothed time is that time, and the timeout at most 3 more.
     */
    method Steady(elapsed: nat, ghost hi: int)
      requires Bounded(1, hi)
      modifies this
      ensures var rtt := Max(elapsed, 1);
              srtt / 8 == rtt && 0 <= rttvar <= 3 && rto == Max(TCP_RTO_MIN, rtt + rttvar)
    {
      ghost var rtt := Max(elapsed, 1);
      ghost var top := Max(hi, rtt);
      WiderBound(hi, top);
      var more := true;
      while more
        invariant Bounded(1, top) && (!more ==> srtt / 8 == rtt && 0 <= rttvar <= 3 && rto == Max(TCP_RTO_MIN, rtt + rttvar))
        decreases srtt == 0, Away(srtt, rtt), Max(rttvar, 0), more
      {
        more := srtt == 0 || srtt / 8 != Max(elapsed, 1) || rttvar > 3;
        if srtt != 0 {
          Closer(srtt, rtt);
        }
        going := true;
        Update(elapsed, 1, top);
      }
    }
  }

  // How far the smoothed time is from resting at `rtt`.
  ghost function Away(srtt: int, rtt: int): nat {
    if srtt < 8 * rtt then 8 * rtt - srtt else if srtt > 8 * rtt + 7 then srtt - 8 * rtt - 7 else 0
  }

  // A sample moves the smoothed time towards the sample and not past it; there it rests.
  lemma Closer(srtt: int, rtt: int)
    ensures Away(srtt, rtt) > 0 ==> Away(Smooth(srtt, rtt), rtt) < Away(srtt, rtt)
    ensures Away(srtt, rtt) == 0 <==> srtt / 8 == rtt
    ensures Away(srtt, rtt) == 0 <==> Smooth(srtt, rtt) == srtt
  {
    var k, m := srtt / 8, srtt % 8;
    assert srtt == 8 * k + m;
  }

  lemma WiderBound(hi: int, top: int)
    requires hi <= top
    ensures VarBound(1, hi) <= VarBound(1, top)
  {
  }
}
