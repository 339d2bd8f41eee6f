/** What a range scan should return, what startScan and scanNext do with the leaf
    chain, and exactly when the two agree. */
module BTreeScanSpec {
  import opened Storage
  import opened BTreeSpec
  import opened BTreePages

  datatype Operator = LT | LTE | GTE | GT

  datatype Query = Query(low: int, lowOp: Operator, high: int, highOp: Operator) {
    predicate Valid() {
      (lowOp == GT || lowOp == GTE) && (highOp == LT || highOp == LTE) && low <= high <= INT_MAX
    }

    predicate AboveLow(k: int) {
      k > low || (k == low && lowOp == GTE)
    }

    predicate BelowHigh(k: int) {
      k < high || (k == high && highOp == LTE)
    }
  }

  /** The reference: the entries whose key satisfies both bounds. */
  function InRange(s: seq<Entry>, q: Query): seq<Entry> {
    if s == [] then []
    else (if q.AboveLow(s[0].key) && q.BelowHigh(s[0].key) then [s[0]] else []) + InRange(s[1..], q)
  }

  /** The key satisfies both comparisons, whatever they are. */
  ghost predicate Asked(k: int, low: int, lowOp: Operator, high: int, highOp: Operator) {
    && (lowOp == GT ==> k > low) && (lowOp == GTE ==> k >= low)
    && (highOp == LT ==> k < high) && (highOp == LTE ==> k <= high)
  }

  /** The reference holds exactly the entries asked for, in key order. */
  lemma {:induction false} InRangeExact(s: seq<Entry>, q: Query)
    requires q.Valid() && StrictlySorted(s)
    ensures StrictlySorted(InRange(s, q))
    ensures forall e :: e in InRange(s, q) <==> e in s && Asked(e.key, q.low, q.lowOp, q.high, q.highOp)
  {
    if s != [] {
      assert s == [s[0]] + s[1..];
      InRangeExact(s[1..], q);
    }
  }

  /** What a running scan still returns when s lies ahead of it. */
  function TakeBelow(s: seq<Entry>, q: Query): seq<Entry> {
    if s == [] || !q.BelowHigh(s[0].key) then [] else [s[0]] + TakeBelow(s[1..], q)
  }

  function DropLow(s: seq<Entry>, q: Query): seq<Entry> {
    if s == [] || q.AboveLow(s[0].key) then s else DropLow(s[1..], q)
  }

  datatype Start =
    | NoSuchKey
    | Started(pending: seq<Entry>)
    | LostWay

  /** Whether the descent of startScan runs off a freshly made root: its second key
      slot is 0, not INT_MAX, so larger searches walk past its two children. */
  predicate LosesWay(keys: seq<int>, low: int, c: Capacity, root: bool) {
    root && |keys| == 1 && c.node >= 3 && low > 0 && low > keys[0]
  }

  /** The test the leaf loop applies to an entry (lines 467-468). */
  predicate Wanted(k: int, q: Query) {
    (k > q.low && k < q.high) || (k == q.low && q.lowOp == GTE)
  }

  /** startScan on the leaf it reached: es are the entries left to look at, rest those
      of all later leaves, full says whether the leaf has no free slot. */
  function StartIn(es: seq<Entry>, rest: seq<Entry>, q: Query, full: bool): (start: Start)
    ensures !start.LostWay?
  {
    if es == [] then
      if (!full && q.high < INT_MAX) || rest == [] then NoSuchKey
      else Started([rest[0]] + TakeBelow(rest[1..], q))
    else if es[0].key > q.high then NoSuchKey
    else if Wanted(es[0].key, q) then Started([es[0]] + TakeBelow(es[1..] + rest, q))
    else StartIn(es[1..], rest, q, full)
  }

  /** What a scan that started this way will return. */
  function Answer(start: Start): seq<Entry> {
    match start
    case Started(pending) => pending
    case _ => []
  }

  /** The scan starts on exactly the entries asked for. */
  predicate Right(start: Start, answer: seq<Entry>) {
    !start.LostWay? && Answer(start) == answer
  }

  /** When it does: c is the first entry that satisfies the low bound. */
  predicate Guard(es: seq<Entry>, rest: seq<Entry>, q: Query, full: bool) {
    var ahead := DropLow(es, q);
    if ahead != [] then
      var c := ahead[0].key;
      c == q.high ==>
        if q.low == q.high then q.highOp == LTE
        else q.highOp == LT && !(|ahead| == 1 && full && rest != [])
    else
      rest != [] ==> ((full || q.high == INT_MAX) <==> q.BelowHigh(rest[0].key))
  }

  lemma {:induction false} InRangeAppend(a: seq<Entry>, b: seq<Entry>, q: Query)
    ensures InRange(a + b, q) == InRange(a, q) + InRange(b, q)
  {
    if a == [] {
      assert a + b == b;
    } else {
      assert (a + b)[1..] == a[1..] + b;
      InRangeAppend(a[1..], b, q);
    }
  }

  lemma {:induction false} InRangeBelowLow(s: seq<Entry>, q: Query)
    requires forall i :: 0 <= i < |s| ==> s[i].key < q.low
    ensures InRange(s, q) == []
  {
    if s != [] {
      InRangeBelowLow(s[1..], q);
    }
  }

  lemma {:induction false} InRangeAboveHigh(s: seq<Entry>, q: Query)
    requires forall i :: 0 <= i < |s| ==> !q.BelowHigh(s[i].key)
    ensures InRange(s, q) == []
  {
    if s != [] {
      InRangeAboveHigh(s[1..], q);
    }
  }

  /** In key order the answer is one run. */
  lemma {:induction false} InRangeIsRun(s: seq<Entry>, q: Query)
    requires StrictlySorted(s) && (s != [] ==> q.AboveLow(s[0].key))
    ensures InRange(s, q) == TakeBelow(s, q)
  {
    if s != [] {
      if q.BelowHigh(s[0].key) {
        InRangeIsRun(s[1..], q);
      } else {
        InRangeAboveHigh(s, q);
      }
    }
  }

  /** An entry below the low bound plays no part. */
  lemma SkipBelowLow(es: seq<Entry>, rest: seq<Entry>, q: Query, full: bool)
    requires q.Valid() && es != [] && !q.AboveLow(es[0].key)
    ensures StartIn(es, rest, q, full) == StartIn(es[1..], rest, q, full)
    ensures InRange(es + rest, q) == InRange(es[1..] + rest, q)
    ensures Guard(es, rest, q, full) <==> Guard(es[1..], rest, q, full)
  {
    assert (es + rest)[1..] == es[1..] + rest;
  }

  /** The case of a leaf with no entry above the low bound. */
  lemma StartAtEnd(rest: seq<Entry>, q: Query, full: bool)
    requires q.Valid() && StrictlySorted(rest)
    requires forall i :: 0 <= i < |rest| ==> q.low < rest[i].key <= INT_MAX
    ensures Right(StartIn([], rest, q, full), InRange(rest, q)) <==> Guard([], rest, q, full)
  {
    InRangeIsRun(rest, q);
  }

  /** startScan meets the reference exactly when the guard holds. */
  lemma {:induction false} StartExact(es: seq<Entry>, rest: seq<Entry>, q: Query, full: bool)
    requires q.Valid() && StrictlySorted(es + rest)
    requires forall i :: 0 <= i < |rest| ==> rest[i].key > q.low
    requires forall i :: 0 <= i < |es + rest| ==> (es + rest)[i].key <= INT_MAX
    ensures Right(StartIn(es, rest, q, full), InRange(es + rest, q)) <==> Guard(es, rest, q, full)
    decreases |es|
  {
    hide StartIn, InRange, Guard, Right, TakeBelow;
    var s := es + rest;
    if es == [] {
      assert s == rest;
      StartAtEnd(rest, q, full);
    } else if q.AboveLow(es[0].key) {
      InRangeIsRun(s, q);
      StartAtFirst(es, rest, q, full);
    } else {
      SkipBelowLow(es, rest, q, full);
      var s1 := es[1..] + rest;
      assert forall i :: 0 <= i < |s1| ==> s1[i] == s[i + 1];
      StartExact(es[1..], rest, q, full);
    }
  }

  /** The case where the first entry looked at satisfies the low bound. */
  lemma StartAtFirst(es: seq<Entry>, rest: seq<Entry>, q: Query, full: bool)
    requires q.Valid() && StrictlySorted(es + rest) && es != [] && q.AboveLow(es[0].key)
    requires forall i :: 0 <= i < |es + rest| ==> (es + rest)[i].key <= INT_MAX
    ensures Right(StartIn(es, rest, q, full), TakeBelow(es + rest, q)) <==> Guard(es, rest, q, full)
  {
    if es[0].key == q.high && q.low < q.high {
      StartAtHigh(es, rest, q, full);
    } else {
      assert (es + rest)[0] == es[0] && (es + rest)[1..] == es[1..] + rest;
    }
  }

  /** It sits on the high bound, and the leaf loop passes it by. */
  lemma StartAtHigh(es: seq<Entry>, rest: seq<Entry>, q: Query, full: bool)
    requires q.Valid() && StrictlySorted(es + rest) && es != [] && q.low < es[0].key == q.high
    requires forall i :: 0 <= i < |es + rest| ==> (es + rest)[i].key <= INT_MAX
    ensures Right(StartIn(es, rest, q, full), TakeBelow(es + rest, q)) <==> Guard(es, rest, q, full)
  {
    var s := es + rest;
    assert s[0] == es[0] && s[1..] == es[1..] + rest;
    assert StartIn(es, rest, q, full) == StartIn(es[1..], rest, q, full);
    if |es| > 1 {
      assert s[1] == es[1] && es[1].key > q.high;
      assert StartIn(es[1..], rest, q, full) == NoSuchKey;
    } else {
      assert es == [es[0]];
      StartAtLast(es[0], rest, q, full);
    }
  }

  /** The same where it is the last of its leaf. */
  lemma StartAtLast(e: Entry, rest: seq<Entry>, q: Query, full: bool)
    requires q.Valid() && StrictlySorted([e] + rest) && q.low < e.key == q.high
    requires forall i :: 0 <= i < |rest| ==> rest[i].key <= INT_MAX
    ensures Right(StartIn([], rest, q, full), TakeBelow([e] + rest, q)) <==> Guard([e], rest, q, full)
  {
    var s := [e] + rest;
    assert s[0] == e && s[1..] == rest;
    if rest != [] {
      assert s[1] == rest[0] && rest[0].key > q.high;
      assert TakeBelow(rest, q) == [];
      assert Started([rest[0]] + TakeBelow(rest[1..], q)).pending[0] == rest[0];
    }
  }
}
