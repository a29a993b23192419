/** Orders, bounded deques and the deduplication ring: the collection idioms the services share. */
module Ordering {

  ghost predicate TotalOrder<T(!new)>(leq: (T, T) -> bool) {
    && (forall a, b :: leq(a, b) || leq(b, a))
    && (forall a, b :: leq(a, b) && leq(b, a) ==> a == b)
    && (forall a, b, c :: leq(a, b) && leq(b, c) ==> leq(a, c))
  }

  predicate IsLeast<T>(leq: (T, T) -> bool, s: set<T>, m: T) {
    m in s && forall x :: x in s ==> leq(m, x)
  }

  lemma {:induction false} LeastExists<T(!new)>(leq: (T, T) -> bool, s: set<T>)
    requires TotalOrder(leq) && s != {}
    ensures exists m :: IsLeast(leq, s, m)
    decreases |s|
  {
    var x :| x in s;
    var rest := s - {x};
    if rest == {} {
      assert s == {x};
      assert IsLeast(leq, s, x);
    } else {
      LeastExists(leq, rest);
      var m :| IsLeast(leq, rest, m);
      assert IsLeast(leq, s, if leq(x, m) then x else m);
    }
  }

  // ---------- strings, compared code point by code point ----------

  predicate LexLeq(a: string, b: string) {
    a == "" || (b != "" && (a[0] < b[0] || (a[0] == b[0] && LexLeq(a[1..], b[1..]))))
  }

  lemma {:induction false} LexAntisymmetric(a: string, b: string)
    requires LexLeq(a, b) && LexLeq(b, a)
    ensures a == b
  {
    if a != "" {
      LexAntisymmetric(a[1..], b[1..]);
      assert a == [a[0]] + a[1..] && b == [b[0]] + b[1..];
    }
  }

  lemma {:induction false} LexTransitive(a: string, b: string, c: string)
    requires LexLeq(a, b) && LexLeq(b, c)
    ensures LexLeq(a, c)
  {
    if a != "" && a[0] == b[0] == c[0] {
      LexTransitive(a[1..], b[1..], c[1..]);
    }
  }

  lemma {:induction false} LexTotal(a: string, b: string)
    ensures LexLeq(a, b) || LexLeq(b, a)
  {
    if a != "" && b != "" && a[0] == b[0] {
      LexTotal(a[1..], b[1..]);
    }
  }

  /** The strings agree up to place k, where the first one ends or has the smaller code point. */
  predicate PrecedesAt(a: string, b: string, k: nat) {
    && k <= |a| && k <= |b| && a[..k] == b[..k]
    && (k == |a| || (k < |b| && a[k] < b[k]))
  }

  lemma PrecedesInTail(a: string, b: string, k: nat)
    requires a != "" && b != "" && a[0] == b[0]
    ensures PrecedesAt(a, b, k + 1) <==> PrecedesAt(a[1..], b[1..], k)
    ensures !PrecedesAt(a, b, 0)
  {
    if k < |a| && k < |b| {
      assert a[..k + 1] == [a[0]] + a[1..][..k] && b[..k + 1] == [b[0]] + b[1..][..k];
    }
  }

  /** Python's order of strings. */
  lemma {:induction false} LexExactly(a: string, b: string)
    ensures LexLeq(a, b) <==> exists k: nat :: PrecedesAt(a, b, k)
  {
    if a == "" {
      assert PrecedesAt(a, b, 0);
    } else if b != "" && a[0] == b[0] {
      LexExactly(a[1..], b[1..]);
      hide PrecedesAt;
      PrecedesInTail(a, b, 0);
      if k: nat :| PrecedesAt(a[1..], b[1..], k) {
        PrecedesInTail(a, b, k);
      }
      if k: nat :| PrecedesAt(a, b, k) {
        assert k > 0;
        PrecedesInTail(a, b, k - 1);
      }
    } else {
      FirstDiffers(a, b);
    }
  }

  lemma FirstDiffers(a: string, b: string)
    requires a != "" && (b == "" || a[0] != b[0])
    ensures (exists k: nat :: PrecedesAt(a, b, k)) <==> b != "" && a[0] < b[0]
  {
    if b != "" && a[0] < b[0] {
      assert PrecedesAt(a, b, 0);
    }
    forall k: nat | k > 0
      ensures !PrecedesAt(a, b, k)
    {
      DifferentHeads(a, b, k);
    }
  }

  lemma DifferentHeads(a: string, b: string, k: nat)
    requires k > 0 && a != "" && (b == "" || a[0] != b[0])
    ensures !PrecedesAt(a, b, k)
  {
    if k <= |a| && k <= |b| {
      assert a[..k][0] == a[0] && b[..k][0] == b[0];
    }
  }

  lemma LexIsTotalOrder()
    ensures TotalOrder(LexLeq)
  {
    forall a, b ensures LexLeq(a, b) || LexLeq(b, a) { LexTotal(a, b); }
    forall a, b | LexLeq(a, b) && LexLeq(b, a) ensures a == b { LexAntisymmetric(a, b); }
    forall a, b, c | LexLeq(a, b) && LexLeq(b, c) ensures LexLeq(a, c) { LexTransitive(a, b, c); }
  }

  function LeastString(s: set<string>): (m: string)
    requires s != {}
    ensures m in s && forall x :: x in s ==> LexLeq(m, x)
  {
    LexIsTotalOrder();
    LeastExists(LexLeq, s);
    hide LexLeq;
    var m :| m in s && forall x :: x in s ==> LexLeq(m, x);
    m
  }

  /** `sorted(...)` of a set of strings. */
  function SortedStrings(s: set<string>): seq<string>
    decreases |s|
  {
    if s == {} then []
    else
      var m := LeastString(s);
      [m] + SortedStrings(s - {m})
  }

  lemma {:induction false} SortedStringsMembers(s: set<string>)
    ensures forall x :: x in SortedStrings(s) <==> x in s
    decreases |s|
  {
    hide LexLeq;
    if s != {} {
      SortedStringsMembers(s - {LeastString(s)});
    }
  }

  predicate Ascending(r: seq<string>) {
    forall i, j :: 0 <= i < j < |r| ==> LexLeq(r[i], r[j])
  }

  predicate Distinct<T(==)>(r: seq<T>) {
    forall i, j :: 0 <= i < j < |r| ==> r[i] != r[j]
  }

  lemma Prepend(m: string, rest: seq<string>)
    requires Ascending(rest) && Distinct(rest)
    requires forall x :: x in rest ==> LexLeq(m, x) && m != x
    ensures Ascending([m] + rest) && Distinct([m] + rest)
  {
    hide LexLeq;
  }

  /** Sorting lists every element once, in ascending order. */
  lemma {:induction false} SortedStringsIsSorted(s: set<string>)
    ensures forall x :: x in SortedStrings(s) <==> x in s
    ensures Ascending(SortedStrings(s)) && Distinct(SortedStrings(s))
    decreases |s|
  {
    hide LexLeq, Ascending, Distinct;
    SortedStringsMembers(s);
    if s == {} {
      EmptyIsSorted();
    } else {
      var m := LeastString(s);
      SortedStringsIsSorted(s - {m});
      Prepend(m, SortedStrings(s - {m}));
    }
  }

  lemma EmptyIsSorted()
    ensures Ascending([]) && Distinct<string>([])
  {}
}

/** Bounded deques and the ring-plus-set index built on them. */
module DedupRing {
  import opened Ordering

  /** The last n elements: what a deque of length at most n keeps. */
  function LastN<T>(s: seq<T>, n: nat): (r: seq<T>)
    ensures |r| == if |s| <= n then |s| else n
  {
    if |s| <= n then s else s[|s| - n..]
  }

  lemma LastNAppend<T>(s: seq<T>, x: T, n: nat)
    requires n >= 1
    ensures LastN(LastN(s, n) + [x], n) == LastN(s + [x], n)
    ensures LastN(s, n) == LastN(LastN(s, n), n)
  {}

  function Elements<T>(s: seq<T>): set<T> {
    set x | x in s
  }

  /** A deque of ids in admission order and the set used to look ids up. */
  datatype Ring<T(==)> = Ring(order: seq<T>, ids: set<T>) {

    /** Every look-up gives the answer a search of the deque would give. */
    predicate Agrees() {
      ids == Elements(order)
    }

    predicate Valid(cap: nat) {
      Agrees() && Distinct(order) && |order| <= cap
    }

    /** Admit a new id, forgetting the oldest one when the deque is full. */
    function Push(id: T, cap: nat): Ring<T> {
      var kept := if cap != 0 && |order| == cap then ids - {order[0]} else ids;
      Ring(LastN(order + [id], cap), kept + {id})
    }

    /** What happens to each presented id: a known one changes nothing. */
    function Offer(id: T, cap: nat): Ring<T> {
      if id in ids then this else Push(id, cap)
    }
  }

  /** Exactly when admitting an id keeps deque and set in agreement: the id pushed out must have no second copy. */
  lemma PushKeepsAgreement<T>(r: Ring<T>, id: T, cap: nat)
    requires r.Agrees() && id !in r.ids && |r.order| <= cap && cap >= 1
    ensures r.Push(id, cap).Agrees() <==> !(|r.order| == cap && r.order[0] in r.order[1..])
  {
    var pushed := r.Push(id, cap);
    if |r.order| == cap {
      assert r.order == [r.order[0]] + r.order[1..];
      assert pushed.order == r.order[1..] + [id];
      if r.order[0] in r.order[1..] {
        assert r.order[0] in pushed.order && r.order[0] !in pushed.ids;
      }
    } else {
      assert pushed.order == r.order + [id];
    }
  }

  lemma PushKeepsValid<T>(r: Ring<T>, id: T, cap: nat)
    requires r.Valid(cap) && id !in r.ids && cap >= 1
    ensures r.Push(id, cap).Valid(cap)
  {
    PushKeepsAgreement(r, id, cap);
  }

  function Run<T>(r: Ring<T>, presented: seq<T>, cap: nat): Ring<T>
    decreases |presented|
  {
    if presented == [] then r
    else Run(r, presented[..|presented| - 1], cap).Offer(presented[|presented| - 1], cap)
  }

  /** Every id admitted so far, the initial ones first. */
  function Admitted<T>(r: Ring<T>, presented: seq<T>, cap: nat): seq<T>
    decreases |presented|
  {
    if presented == [] then r.order
    else
      var n := |presented| - 1;
      var before := Admitted(r, presented[..n], cap);
      if presented[n] in Run(r, presented[..n], cap).ids then before else before + [presented[n]]
  }

  /** Main result: from a valid ring, after any presentation of ids, an id is reported as a duplicate
      exactly when it is among the last `cap` admitted ids; the deque never repeats an id.
    */
  lemma {:induction false} RingAgreesOnEveryRun<T>(r: Ring<T>, presented: seq<T>, cap: nat)
    requires r.Valid(cap) && cap >= 1
    ensures
      var last := Run(r, presented, cap);
      && last.Valid(cap)
      && last.order == LastN(Admitted(r, presented, cap), cap)
      && forall id :: id in last.ids <==> id in LastN(Admitted(r, presented, cap), cap)
    decreases |presented|
  {
    if presented != [] {
      var n := |presented| - 1;
      RingAgreesOnEveryRun(r, presented[..n], cap);
      var before := Run(r, presented[..n], cap);
      if presented[n] !in before.ids {
        PushKeepsValid(before, presented[n], cap);
        LastNAppend(Admitted(r, presented[..n], cap), presented[n], cap);
      }
    }
  }

  // ---------- starting from a repeated id ----------

  lemma {:induction false} RunHead<T>(r: Ring<T>, id: T, presented: seq<T>, cap: nat)
    ensures Run(r, [id] + presented, cap) == Run(r.Offer(id, cap), presented, cap)
    decreases |presented|
  {
    hide Ring.Offer;
    if presented == [] {
      assert [id] + presented == [id] && [id][..0] == [];
      assert Run(r, [], cap) == r;
    } else {
      var n := |presented| - 1;
      assert ([id] + presented)[..|[id] + presented| - 1] == [id] + presented[..n];
      RunHead(r, id, presented[..n], cap);
    }
  }

  /** Pushing enough new ids brings the first copy to the front; the push that drops it, or an earlier one, breaks the
      agreement.
    */
  lemma {:induction false} RepeatBreaks<T>(r: Ring<T>, i: nat, unseen: seq<T>, cap: nat) returns (k: nat)
    requires r.Agrees() && |r.order| <= cap && i < |r.order| && r.order[i] in r.order[i + 1..]
    requires |unseen| == cap - |r.order| + i + 1 && Distinct(unseen) && forall x :: x in unseen ==> x !in r.ids
    ensures k <= |unseen| && !Run(r, unseen[..k], cap).Agrees()
    decreases |unseen|
  {
    hide Distinct, Ring.Push, Run, Ring.Agrees;
    var id, rest := unseen[0], unseen[1..];
    var pushed := r.Push(id, cap);
    assert unseen == [id] + rest;
    UnseenIsPushed(r, unseen, cap);
    if !pushed.Agrees() {
      k := 1;
      assert unseen[..1] == [id] + [];
      RunHead(r, id, [], cap);
      RunNothing(pushed, cap);
    } else {
      PushKeepsAgreement(r, id, cap);
      var front := if |r.order| == cap then 1 else 0;
      if |r.order| == cap { NoSecondCopy(r.order, i); }
      PushedOrder(r, id, cap, i);
      k := RepeatBreaks(pushed, i - front, rest, cap);
      assert unseen[..k + 1] == [id] + rest[..k];
      RunHead(r, id, rest[..k], cap);
      k := k + 1;
    }
  }

  lemma RunNothing<T>(r: Ring<T>, cap: nat)
    ensures Run(r, [], cap) == r
  {}

  lemma NoSecondCopy<T>(s: seq<T>, i: nat)
    requires i < |s| && s[i] in s[i + 1..] && s[0] !in s[1..]
    ensures i > 0
  {}

  lemma UnseenIsPushed<T>(r: Ring<T>, unseen: seq<T>, cap: nat)
    requires unseen != [] && Distinct(unseen) && forall x :: x in unseen ==> x !in r.ids
    ensures r.Offer(unseen[0], cap) == r.Push(unseen[0], cap)
    ensures Distinct(unseen[1..]) && forall x :: x in unseen[1..] ==> x !in r.Push(unseen[0], cap).ids
  {
    assert unseen[0] in unseen;
    forall x | x in unseen[1..]
      ensures x !in r.Push(unseen[0], cap).ids
    {
      assert x in unseen && x != unseen[0];
    }
  }

  lemma PushedOrder<T>(r: Ring<T>, id: T, cap: nat, i: nat)
    requires |r.order| <= cap && i < |r.order| && r.order[i] in r.order[i + 1..]
    requires |r.order| == cap ==> i > 0
    ensures
      var order, j := r.Push(id, cap).order, if |r.order| == cap then i - 1 else i;
      && |order| == (if |r.order| == cap then cap else |r.order| + 1)
      && j < |order| && order[j] in order[j + 1..]
  {
    var order, j := r.Push(id, cap).order, if |r.order| == cap then i - 1 else i;
    var h :| i + 1 <= h < |r.order| && r.order[h] == r.order[i];
    assert order[j] == r.order[i] && order[j + h - i] == r.order[h];
    assert order[j + 1..][h - i - 1] == order[j + h - i];
  }

  function Longest(s: seq<string>): (n: nat)
    ensures forall x :: x in s ==> |x| <= n
  {
    if s == [] then 0
    else
      var n := Longest(s[1..]);
      if |s[0]| > n then |s[0]| else n
  }

  function Dashes(n: nat): (s: string)
    ensures |s| == n
  {
    if n == 0 then "" else Dashes(n - 1) + "-"
  }

  /** n strings, each longer than m and of its own length. */
  function FreshStrings(m: nat, n: nat): (s: seq<string>)
    ensures |s| == n && forall i :: 0 <= i < n ==> |s[i]| == m + 1 + i
  {
    if n == 0 then [] else FreshStrings(m, n - 1) + [Dashes(m + n)]
  }

  /** From a start that repeats an id some ids exist after which set and deque disagree. */
  lemma RepeatedStartBreaksAgreement(r: Ring<string>, cap: nat) returns (presented: seq<string>)
    requires r.Agrees() && |r.order| <= cap && !Distinct(r.order)
    ensures !Run(r, presented, cap).Agrees()
  {
    var i, j :| 0 <= i < j < |r.order| && r.order[i] == r.order[j];
    assert r.order[i + 1..][j - i - 1] == r.order[i];
    var unseen := FreshStrings(Longest(r.order), cap - |r.order| + i + 1);
    var k := RepeatBreaks(r, i, unseen, cap);
    presented := unseen[..k];
  }

  /** Main result: set and deque agree after every list of ids exactly when the start repeats none. */
  lemma StartKeepsAgreementExactly(r: Ring<string>, cap: nat)
    requires r.Agrees() && |r.order| <= cap && cap >= 1
    ensures (forall presented :: Run(r, presented, cap).Agrees()) <==> Distinct(r.order)
  {
    if Distinct(r.order) {
      forall presented
        ensures Run(r, presented, cap).Agrees()
      {
        RingAgreesOnEveryRun(r, presented, cap);
      }
    } else {
      var presented := RepeatedStartBreaksAgreement(r, cap);
    }
  }

  // ---------- distinct ids ----------

  /** The ring that has admitted these ids. */
  function RingOf<T>(ids: seq<T>, cap: nat): Ring<T> {
    Ring(LastN(ids, cap), Elements(LastN(ids, cap)))
  }

  lemma NewIdIsPushed<T>(ids: seq<T>, id: T, cap: nat)
    requires Distinct(ids + [id]) && cap >= 1
    ensures id !in RingOf(ids, cap).ids && RingOf(ids, cap).Push(id, cap) == RingOf(ids + [id], cap)
  {
    var r := RingOf(ids, cap);
    LastIsDistinct(ids, id, cap);
    LastNAppend(ids, id, cap);
    PushKeepsValid(r, id, cap);
  }

  lemma LastIsDistinct<T>(ids: seq<T>, id: T, cap: nat)
    requires Distinct(ids + [id])
    ensures Distinct(LastN(ids, cap)) && id !in LastN(ids, cap)
  {
    var c := if |ids| <= cap then 0 else |ids| - cap;
    assert LastN(ids, cap) == ids[c..];
    assert forall i :: 0 <= i < |ids[c..]| ==> ids[c..][i] == (ids + [id])[c + i];
    assert (ids + [id])[|ids|] == id;
  }
}
