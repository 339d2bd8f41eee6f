/** Clock replacement (p2/src/buffer.cpp and p3/src/buffer.cpp, allocBuf): which frame
    the hand stops at, when it stops at all, and that both implementations agree. */
module Clock {
  import opened Storage
  import opened HashTable

  datatype BufDesc = BufDesc(file: FileName, pageNo: PageId, pinCnt: nat, dirty: bool, valid: bool, refbit: bool) {
    /** clear() */
    static function Cleared(): BufDesc {
      BufDesc("", INVALID_NUMBER, 0, false, false, false)
    }

    /** Set() */
    static function Assigned(k: PageKey): BufDesc {
      BufDesc(k.file, k.pageNo, 1, false, true, true)
    }

    function Key(): PageKey {
      PageKey(file, pageNo)
    }

    /** No client relies on what the frame holds. */
    predicate Reusable() {
      !valid || pinCnt == 0
    }

    /** The hand stops here. */
    predicate Stops() {
      !valid || (!refbit && pinCnt == 0)
    }
  }

  datatype Walk =
    | Stopped(descs: seq<BufDesc>, hand: nat)
    | Exhausted(descs: seq<BufDesc>, hand: nat)

  function NextHand(hand: nat, n: nat): (h: nat)
    requires hand < n
    ensures h < n
  {
    if hand + 1 == n then 0 else hand + 1
  }

  /** One look at the frame under the hand: referenced frames lose their bit. */
  function Looked(ds: seq<BufDesc>, hand: nat): (r: seq<BufDesc>)
    requires hand < |ds|
    ensures |r| == |ds|
  {
    if ds[hand].valid && ds[hand].refbit then ds[hand := ds[hand].(refbit := false)] else ds
  }

  /** The hand looks at up to `fuel` frames. */
  function Sweep(ds: seq<BufDesc>, hand: nat, fuel: nat): (w: Walk)
    requires hand < |ds|
    ensures |w.descs| == |ds| && w.hand < |ds|
    decreases fuel
  {
    if fuel == 0 then Exhausted(ds, hand)
    else if ds[hand].Stops() then Stopped(ds, hand)
    else Sweep(Looked(ds, hand), NextHand(hand, |ds|), fuel - 1)
  }

  /** Steps from the hand to frame f. */
  function Ahead(hand: nat, f: nat, n: nat): nat
    requires hand < n && f < n
  {
    if hand <= f then f - hand else f + n - hand
  }

  ghost predicate AnyReusable(ds: seq<BufDesc>) {
    exists f :: 0 <= f < |ds| && ds[f].Reusable()
  }

  /** The sweep changes nothing but reference bits of valid frames, and where it stops
      nobody holds a pin. */
  lemma {:induction false} SweepKeeps(ds: seq<BufDesc>, hand: nat, fuel: nat)
    requires hand < |ds|
    ensures var w := Sweep(ds, hand, fuel);
      && (forall f :: 0 <= f < |ds| ==> w.descs[f] == ds[f].(refbit := w.descs[f].refbit))
      && (forall f :: 0 <= f < |ds| && w.descs[f].refbit ==> ds[f].refbit)
      && (forall f :: 0 <= f < |ds| && !ds[f].valid ==> w.descs[f] == ds[f])
      && (w.Stopped? ==> w.descs[w.hand].Stops() && ds[w.hand].Reusable())
    decreases fuel
  {
    if fuel > 0 && !ds[hand].Stops() {
      SweepKeeps(Looked(ds, hand), NextHand(hand, |ds|), fuel - 1);
    }
  }

  /** A frame that stops the hand is reached if it is near enough. */
  lemma {:induction false} ReachesStop(ds: seq<BufDesc>, hand: nat, fuel: nat, f: nat)
    requires hand < |ds| && f < |ds| && ds[f].Stops() && Ahead(hand, f, |ds|) < fuel
    ensures Sweep(ds, hand, fuel).Stopped?
    decreases fuel
  {
    if !ds[hand].Stops() {
      ReachesStop(Looked(ds, hand), NextHand(hand, |ds|), fuel - 1, f);
    }
  }

  /** An unpinned frame is reached on the second round at the latest. */
  lemma {:induction false} ReachesReusable(ds: seq<BufDesc>, hand: nat, fuel: nat, f: nat)
    requires hand < |ds| && f < |ds| && ds[f].Reusable() && Ahead(hand, f, |ds|) + |ds| < fuel
    ensures Sweep(ds, hand, fuel).Stopped?
    decreases fuel
  {
    if !ds[hand].Stops() {
      var ds1, hand1 := Looked(ds, hand), NextHand(hand, |ds|);
      if hand == f {
        ReachesStop(ds1, hand1, fuel - 1, f);
      } else {
        ReachesReusable(ds1, hand1, fuel - 1, f);
      }
    }
  }

  lemma StoppedReusable(ds: seq<BufDesc>, hand: nat, fuel: nat)
    requires hand < |ds|
    ensures Sweep(ds, hand, fuel).Stopped? ==> AnyReusable(ds)
  {
    SweepKeeps(ds, hand, fuel);
  }

  /** Two rounds find a frame exactly when there is one to find. */
  lemma TwoRoundsSuffice(ds: seq<BufDesc>, hand: nat)
    requires hand < |ds|
    ensures Sweep(ds, hand, 2 * |ds|).Stopped? <==> AnyReusable(ds)
  {
    StoppedReusable(ds, hand, 2 * |ds|);
    if AnyReusable(ds) {
      var f :| 0 <= f < |ds| && ds[f].Reusable();
      ReachesReusable(ds, hand, 2 * |ds|, f);
    }
  }

  /** More fuel changes nothing once the hand has stopped. */
  lemma {:induction false} MoreFuel(ds: seq<BufDesc>, hand: nat, fuel: nat, more: nat)
    requires hand < |ds| && fuel <= more && Sweep(ds, hand, fuel).Stopped?
    ensures Sweep(ds, hand, more) == Sweep(ds, hand, fuel)
    decreases fuel
  {
    if !ds[hand].Stops() {
      MoreFuel(Looked(ds, hand), NextHand(hand, |ds|), fuel - 1, more - 1);
    }
  }

  // -------------------------------------------- the victim, from the frames alone

  /** How many frames a hand at `hand` passes before it comes to frame f. */
  ghost function Steps(hand: nat, f: nat, n: nat): nat
    requires hand < n && f < n
  {
    if hand < f then f - hand - 1 else f + n - hand - 1
  }

  /** v is the first frame from the hand on that is free, or unpinned and not referenced. */
  ghost predicate FirstVictim(ds: seq<BufDesc>, hand: nat, v: nat)
    requires hand < |ds|
  {
    && v < |ds| && (!ds[v].valid || (ds[v].pinCnt == 0 && !ds[v].refbit))
    && forall f :: 0 <= f < |ds| && Steps(hand, f, |ds|) < Steps(hand, v, |ds|) ==>
      ds[f].valid && (ds[f].pinCnt > 0 || ds[f].refbit)
  }

  /** There is none, and v is the first unpinned frame. */
  ghost predicate SecondVictim(ds: seq<BufDesc>, hand: nat, v: nat)
    requires hand < |ds|
  {
    && v < |ds| && ds[v].pinCnt == 0
    && (forall f :: 0 <= f < |ds| ==> ds[f].valid && (ds[f].pinCnt > 0 || ds[f].refbit))
    && forall f :: 0 <= f < |ds| && Steps(hand, f, |ds|) < Steps(hand, v, |ds|) ==> ds[f].pinCnt > 0
  }

  /** Every frame is in use. */
  ghost predicate NoVictim(ds: seq<BufDesc>) {
    forall f :: 0 <= f < |ds| ==> ds[f].valid && ds[f].pinCnt > 0
  }

  /** Only the reference bits of the frames before v are cleared. */
  ghost predicate ClearedTo(ds: seq<BufDesc>, hand: nat, v: nat, ds1: seq<BufDesc>)
    requires hand < |ds| == |ds1| && v < |ds|
  {
    forall f :: 0 <= f < |ds| ==>
      ds1[f] == ds[f].(refbit := ds[f].refbit && Steps(hand, f, |ds|) >= Steps(hand, v, |ds|))
  }

  /** Every reference bit is cleared, and nothing else changed. */
  ghost predicate ClearedAll(ds: seq<BufDesc>, ds1: seq<BufDesc>)
    requires |ds| == |ds1|
  {
    forall f :: 0 <= f < |ds| ==> ds1[f] == ds[f].(refbit := false)
  }

  /** The clock gave every referenced frame a second chance: what it found, where, and which
      bits it cleared, from the frames as they were. */
  ghost predicate SecondChance(ds: seq<BufDesc>, hand: nat, found: bool, v: nat, ds1: seq<BufDesc>)
    requires hand < |ds| == |ds1|
  {
    && (forall u :: FirstVictim(ds, hand, u) ==> found && v == u && ClearedTo(ds, hand, u, ds1))
    && (forall u :: SecondVictim(ds, hand, u) ==> found && v == u && ClearedAll(ds, ds1))
    && (NoVictim(ds) ==> !found && ClearedAll(ds, ds1))
  }

  lemma StepsAhead(hand: nat, f: nat, n: nat)
    requires hand < n && f < n
    ensures Steps(hand, f, n) == Ahead(NextHand(hand, n), f, n) < n
    ensures f == NextHand(hand, n) <==> Steps(hand, f, n) == 0
  {
  }

  /** The first frame of a set that the hand comes to. */
  lemma {:induction false} Nearest(hand: nat, n: nat, s: set<nat>) returns (v: nat)
    requires hand < n && s != {} && forall f :: f in s ==> f < n
    ensures v in s && forall f :: f in s ==> Steps(hand, v, n) <= Steps(hand, f, n)
  {
    var w :| w in s;
    var rest := s - {w};
    assert forall f :: f in s ==> f == w || f in rest;
    v := w;
    if rest != {} {
      var u := Nearest(hand, n, rest);
      v := if Steps(hand, u, n) < Steps(hand, w, n) then u else w;
    }
  }

  /** One of the three cases applies. */
  lemma SomeVictim(ds: seq<BufDesc>, hand: nat)
    requires hand < |ds|
    ensures (exists v :: FirstVictim(ds, hand, v)) || (exists v :: SecondVictim(ds, hand, v)) || NoVictim(ds)
  {
    var first := set f: nat | f < |ds| && (!ds[f].valid || (ds[f].pinCnt == 0 && !ds[f].refbit));
    var unpinned := set f: nat | f < |ds| && ds[f].pinCnt == 0;
    if first != {} {
      var v := Nearest(hand, |ds|, first);
      forall f | 0 <= f < |ds| && Steps(hand, f, |ds|) < Steps(hand, v, |ds|)
        ensures ds[f].valid && (ds[f].pinCnt > 0 || ds[f].refbit)
      {
        assert f !in first;
      }
      assert FirstVictim(ds, hand, v);
    } else {
      forall f | 0 <= f < |ds| ensures ds[f].valid && (ds[f].pinCnt > 0 || ds[f].refbit) {
        assert f !in first;
      }
      if unpinned != {} {
        var v := Nearest(hand, |ds|, unpinned);
        forall f | 0 <= f < |ds| && Steps(hand, f, |ds|) < Steps(hand, v, |ds|) ensures ds[f].pinCnt > 0 {
          assert f !in unpinned;
        }
        assert SecondVictim(ds, hand, v);
      } else {
        forall f | 0 <= f < |ds| ensures ds[f].pinCnt > 0 {
          assert f !in unpinned;
        }
      }
    }
  }

  /** The first frame that stops the hand, and the bits it clears on the way there. */
  lemma {:induction false} PassTo(ds: seq<BufDesc>, start: nat, v: nat, fuel: nat)
    requires start < |ds| && v < |ds| && Ahead(start, v, |ds|) < fuel && ds[v].Stops()
    requires forall f :: 0 <= f < |ds| && Ahead(start, f, |ds|) < Ahead(start, v, |ds|) ==> !ds[f].Stops()
    ensures Sweep(ds, start, fuel) == Stopped(Bits(ds, start, Ahead(start, v, |ds|)), v)
    decreases fuel
  {
    var n := |ds|;
    if start == v {
      assert Bits(ds, start, 0) == ds;
    } else {
      var ds1, next := Looked(ds, start), NextHand(start, n);
      forall f | 0 <= f < n ensures Ahead(next, f, n) == if f == start then n - 1 else Ahead(start, f, n) - 1 {
        OneStep(start, f, n);
      }
      PassTo(ds1, next, v, fuel - 1);
      assert Bits(ds1, next, Ahead(next, v, n)) == Bits(ds, start, Ahead(start, v, n));
    }
  }

  /** The first m frames from the start without their reference bits. */
  ghost function Bits(ds: seq<BufDesc>, start: nat, m: nat): (r: seq<BufDesc>)
    requires start < |ds|
    ensures |r| == |ds|
    ensures forall f :: 0 <= f < |ds| ==> r[f] == ds[f].(refbit := ds[f].refbit && Ahead(start, f, |ds|) >= m)
  {
    seq(|ds|, f requires 0 <= f < |ds| => ds[f].(refbit := ds[f].refbit && Ahead(start, f, |ds|) >= m))
  }

  /** A round on which nothing stops the hand. */
  lemma {:induction false} PassAll(ds: seq<BufDesc>, start: nat, m: nat, fuel: nat)
    requires start < |ds| && m <= |ds| && m <= fuel
    requires forall f :: 0 <= f < |ds| && Ahead(start, f, |ds|) < m ==> !ds[f].Stops()
    ensures var at := if start + m < |ds| then start + m else start + m - |ds|;
      Sweep(ds, start, fuel) == Sweep(Bits(ds, start, m), at, fuel - m)
  {
    hide Ahead, NextHand, Looked;
    if m == 0 {
      assert Bits(ds, start, 0) == ds;
    } else {
      var n := |ds|;
      PassAll(ds, start, m - 1, fuel);
      var ds1, at := Bits(ds, start, m - 1), if start + m - 1 < n then start + m - 1 else start + m - 1 - n;
      AheadIs(start, at, m - 1, n);
      assert !ds[at].Stops() && !ds1[at].Stops();
      BitsStep(ds, start, at, m);
    }
  }

  lemma AheadIs(start: nat, at: nat, m: nat, n: nat)
    requires start < n && m < n && at == if start + m < n then start + m else start + m - n
    ensures at < n && Ahead(start, at, n) == m
    ensures NextHand(at, n) == if start + m + 1 < n then start + m + 1 else start + m + 1 - n
  {
  }

  lemma BitsStep(ds: seq<BufDesc>, start: nat, at: nat, m: nat)
    requires start < |ds| && 0 < m <= |ds|
    requires at == (if start + m - 1 < |ds| then start + m - 1 else start + m - 1 - |ds|)
    requires ds[at].valid
    ensures Looked(Bits(ds, start, m - 1), at) == Bits(ds, start, m)
  {
    var a, b := Looked(Bits(ds, start, m - 1), at), Bits(ds, start, m);
    forall f | 0 <= f < |ds| ensures a[f] == b[f] {
    }
    assert a == b;
  }

  lemma OneStep(start: nat, f: nat, n: nat)
    requires start < n && f < n
    ensures Ahead(NextHand(start, n), f, n) == if f == start then n - 1 else Ahead(start, f, n) - 1
  {
  }

  /** The sweep gives every referenced frame its second chance. */
  lemma SweepChances(ds: seq<BufDesc>, hand: nat, fuel: nat)
    requires hand < |ds| && fuel >= 2 * |ds|
    ensures var w := Sweep(ds, NextHand(hand, |ds|), fuel); SecondChance(ds, hand, w.Stopped?, w.hand, w.descs)
  {
    hide Sweep, Ahead, Steps, FirstVictim, SecondVictim, NoVictim, ClearedTo, ClearedAll;
    forall u | FirstVictim(ds, hand, u) {
      FirstChance(ds, hand, u, fuel);
    }
    forall u | SecondVictim(ds, hand, u) {
      LastChance(ds, hand, u, fuel);
    }
    if NoVictim(ds) {
      NoChance(ds, hand, fuel);
    }
  }

  lemma FirstChance(ds: seq<BufDesc>, hand: nat, v: nat, fuel: nat)
    requires hand < |ds| && fuel >= 2 * |ds| && FirstVictim(ds, hand, v)
    ensures var w := Sweep(ds, NextHand(hand, |ds|), fuel);
      w.Stopped? && w.hand == v && ClearedTo(ds, hand, v, w.descs)
  {
    hide Sweep, Ahead, Steps, NextHand;
    forall f | 0 <= f < |ds| ensures Steps(hand, f, |ds|) == Ahead(NextHand(hand, |ds|), f, |ds|) < |ds| {
      StepsAhead(hand, f, |ds|);
    }
    PassTo(ds, NextHand(hand, |ds|), v, fuel);
  }

  lemma LastChance(ds: seq<BufDesc>, hand: nat, v: nat, fuel: nat)
    requires hand < |ds| && fuel >= 2 * |ds| && SecondVictim(ds, hand, v)
    ensures var w := Sweep(ds, NextHand(hand, |ds|), fuel);
      w.Stopped? && w.hand == v && ClearedAll(ds, w.descs)
  {
    hide Sweep, Ahead, Steps, NextHand;
    var n, start := |ds|, NextHand(hand, |ds|);
    forall f | 0 <= f < n ensures Steps(hand, f, n) == Ahead(start, f, n) < n {
      StepsAhead(hand, f, n);
    }
    PassAll(ds, start, n, fuel);
    PassTo(Bits(ds, start, n), start, v, fuel - n);
  }

  lemma NoChance(ds: seq<BufDesc>, hand: nat, fuel: nat)
    requires hand < |ds| && fuel >= 2 * |ds| && NoVictim(ds)
    ensures var w := Sweep(ds, NextHand(hand, |ds|), fuel); !w.Stopped? && ClearedAll(ds, w.descs)
  {
    hide Sweep, Ahead, NextHand;
    var n, start := |ds|, NextHand(hand, |ds|);
    forall f | 0 <= f < n ensures Ahead(start, f, n) < n {
      StepsAhead(hand, f, n);
    }
    PassAll(ds, start, n, fuel);
    ClearedStays(Bits(ds, start, n), start, fuel - n);
  }

  /** Where every frame is pinned and no bit is set, the hand goes round in vain. */
  lemma {:induction false} ClearedStays(ds: seq<BufDesc>, start: nat, fuel: nat)
    requires start < |ds| && forall f :: 0 <= f < |ds| ==> ds[f].valid && ds[f].pinCnt > 0 && !ds[f].refbit
    ensures Sweep(ds, start, fuel).Exhausted? && Sweep(ds, start, fuel).descs == ds
    decreases fuel
  {
    if fuel > 0 {
      ClearedStays(ds, NextHand(start, |ds|), fuel - 1);
    }
  }

  // ----------------------------------------------------- the two hands in code

  /** allocBuf of p2 up to the frame it picks: at most three passes over the starting
      frame (lines 59-84). */
  method FirstClock(descs: array<BufDesc>, clockHand: nat) returns (found: bool, hand: nat)
    requires clockHand < descs.Length
    modifies descs
    ensures var w := Sweep(old(descs[..]), NextHand(clockHand, descs.Length), 2 * descs.Length + 1);
      descs[..] == w.descs && hand == w.hand && (found <==> w.Stopped?)
    ensures SecondChance(old(descs[..]), clockHand, found, hand, descs[..])
  {
    hide SecondChance;
    var n := descs.Length;
    SweepChances(descs[..], clockHand, 2 * n + 1);
    var loop := 0;
    hand := NextHand(clockHand, n);
    var start := hand;
    ghost var w := Sweep(descs[..], hand, 2 * n + 1);
    ghost var left, ahead := 2 * n + 1, 0;
    while loop < 3
      invariant hand < n && 0 <= loop <= 3 && 0 <= ahead < n && start < n
      invariant hand == if start + ahead < n then start + ahead else start + ahead - n
      invariant left == LeftOver(loop, ahead, n)
      invariant loop == 0 ==> ahead == 0
      invariant Sweep(descs[..], hand, left) == w
      decreases left
    {
      if start == hand {
        loop := loop + 1;
      }
      var d := descs[hand];
      if !d.valid || (!d.refbit && d.pinCnt == 0) {
        return true, hand;
      }
      ghost var was := descs[..];
      if d.refbit {
        descs[hand] := d.(refbit := false);
      }
      assert descs[..] == Looked(was, hand);
      hand := NextHand(hand, n);
      left := left - 1;
      ahead := if ahead + 1 == n then 0 else ahead + 1;
    }
    found := false;
  }

  /** Looks still to come before FirstClock gives up, at the top of its loop. */
  ghost function LeftOver(loop: nat, ahead: nat, n: nat): int {
    if ahead == 0 then
      if loop == 0 then 2 * n + 1 else if loop == 1 then n + 1 else if loop == 2 then 1 else 0
    else
      if loop == 1 then 2 * n + 1 - ahead else if loop == 2 then n + 1 - ahead else 0
  }

  /** allocBuf of p3 up to the frame it picks: twice numBufs looks (lines 63-103). */
  method SecondClock(descs: array<BufDesc>, clockHand: nat) returns (found: bool, hand: nat)
    requires clockHand < descs.Length
    modifies descs
    ensures var w := Sweep(old(descs[..]), NextHand(clockHand, descs.Length), 2 * descs.Length);
      && descs[..] == w.descs && (found <==> w.Stopped?)
      && (found ==> hand == w.hand)
    ensures SecondChance(old(descs[..]), clockHand, found, hand, descs[..])
  {
    hide SecondChance;
    var n := descs.Length;
    var numScanned := 0;
    found := false;
    hand := clockHand;
    var stopped := false;
    ghost var start, ahead := NextHand(hand, n), 0;
    ghost var w := Sweep(descs[..], start, 2 * n);
    while numScanned < 2 * n && !stopped
      invariant hand < n && 0 <= numScanned <= 2 * n && 0 <= ahead < n
      invariant !stopped ==> !found && Sweep(descs[..], NextHand(hand, n), 2 * n - numScanned) == w
      invariant !stopped ==> NextHand(hand, n) == if start + ahead < n then start + ahead else start + ahead - n
      invariant !stopped && numScanned < n ==> ahead == numScanned
      invariant !stopped ==> forall f :: 0 <= f < n && Ahead(start, f, n) < numScanned ==> descs[f].valid
      invariant stopped ==> w == Stopped(descs[..], hand) && (found || numScanned <= n)
      decreases 2 * n - numScanned, !stopped
    {
      hand := NextHand(hand, n);
      numScanned := numScanned + 1;
      var d := descs[hand];
      if !d.valid {
        stopped := true;
      } else if !d.refbit {
        if d.pinCnt == 0 {
          found := true;
          stopped := true;
        }
      } else {
        descs[hand] := d.(refbit := false);
      }
      ahead := if ahead + 1 == n then 0 else ahead + 1;
    }
    found := found || numScanned < 2 * n;
    SweepChances(old(descs[..]), clockHand, 2 * n);
    ChanceWithout(old(descs[..]), clockHand, found, w.hand, hand, descs[..]);
  }

  /** Where nothing was found the hand does not matter. */
  lemma ChanceWithout(ds: seq<BufDesc>, hand: nat, found: bool, v: nat, v1: nat, ds1: seq<BufDesc>)
    requires hand < |ds| == |ds1| && SecondChance(ds, hand, found, v, ds1) && (found ==> v == v1)
    ensures SecondChance(ds, hand, found, v1, ds1)
  {
  }

  /** The two implementations succeed on the same frames, pick the same victim and leave
      the same reference bits and hand; they do so exactly when some frame is invalid or
      unpinned. */
  lemma ClocksAgree(ds: seq<BufDesc>, hand: nat, two: nat)
    requires hand < |ds| && two == 2 * |ds|
    ensures Sweep(ds, hand, two).Stopped? <==> AnyReusable(ds)
    ensures Sweep(ds, hand, two + 1).Stopped? <==> AnyReusable(ds)
    ensures AnyReusable(ds) ==> Sweep(ds, hand, two + 1) == Sweep(ds, hand, two)
  {
    hide Sweep, AnyReusable;
    TwoRoundsSuffice(ds, hand);
    if AnyReusable(ds) {
      MoreFuel(ds, hand, two, two + 1);
    }
    StoppedReusable(ds, hand, two + 1);
  }
}
