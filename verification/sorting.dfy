/** `list.sort(key=lambda x: x[1], reverse=...)` on (label, amount) pairs
    (finance_manager.py line 121). Python's sort is stable, and stays
    stable with `reverse=True`: pairs with equal amounts keep their input
    order in either direction. */
module Sorting {

  /** A (label, amount) pair: a month and its amount, an item or a category. */
  type Entry = (string, real)

  /** `x` may precede `y` in the requested direction. */
  predicate InOrder(descending: bool, x: real, y: real) {
    if descending then x >= y else x <= y
  }

  predicate Sorted(s: seq<Entry>, descending: bool) {
    forall i, j :: 0 <= i < j < |s| ==> InOrder(descending, s[i].1, s[j].1)
  }

  /** The pairs of `s` whose amount is `v`, in their order in `s`. */
  function WithAmount(s: seq<Entry>, v: real): (r: seq<Entry>)
    ensures forall e :: e in r ==> e in s && e.1 == v
  {
    if |s| == 0 then []
    else if s[0].1 == v then [s[0]] + WithAmount(s[1..], v)
    else WithAmount(s[1..], v)
  }

  /** `r` orders the pairs of `s` without reordering pairs of equal amount. */
  ghost predicate StableReorder(r: seq<Entry>, s: seq<Entry>) {
    forall v :: WithAmount(r, v) == WithAmount(s, v)
  }

  lemma WithAmountCons(e: Entry, t: seq<Entry>, v: real)
    ensures WithAmount([e] + t, v) == if e.1 == v then [e] + WithAmount(t, v) else WithAmount(t, v)
  {
    assert ([e] + t)[1..] == t;
  }

  /** A pair in order with everything after it extends a sorted sequence. */
  lemma SortedCons(e: Entry, t: seq<Entry>, descending: bool)
    requires Sorted(t, descending)
    requires forall k :: 0 <= k < |t| ==> InOrder(descending, e.1, t[k].1)
    ensures Sorted([e] + t, descending)
  {
    var r := [e] + t;
    forall i, j | 0 <= i < j < |r|
      ensures InOrder(descending, r[i].1, r[j].1)
    {
      if i > 0 {
        assert r[i] == t[i - 1] && r[j] == t[j - 1];
      } else {
        assert r[j] == t[j - 1];
      }
    }
  }

  /** `x` goes into `s` ahead of every pair of equal amount, keeping the
      sequence sorted: the step that makes `Insert` a stable insertion. */
  ghost predicate InsertedStably(r: seq<Entry>, x: Entry, s: seq<Entry>, descending: bool) {
    && |r| == |s| + 1
    && Sorted(r, descending)
    && multiset(r) == multiset(s) + multiset{x}
    && forall v :: WithAmount(r, v) == if x.1 == v then [x] + WithAmount(s, v) else WithAmount(s, v)
  }

  /** Inserting behind a first pair that must stay ahead of `x`. */
  lemma InsertBehind(x: Entry, e: Entry, t: seq<Entry>, rest: seq<Entry>, descending: bool)
    requires Sorted([e] + t, descending) && !InOrder(descending, x.1, e.1)
    requires InsertedStably(rest, x, t, descending)
    ensures InsertedStably([e] + rest, x, [e] + t, descending)
  {
    var s := [e] + t;
    var r := [e] + rest;
    forall k | 0 <= k < |rest|
      ensures InOrder(descending, e.1, rest[k].1)
    {
      assert rest[k] in multiset(rest);
      if rest[k] != x {
        assert rest[k] in multiset(t);
        var m :| 0 <= m < |t| && t[m] == rest[k];
        assert s[m + 1] == rest[k];
        assert InOrder(descending, s[0].1, s[m + 1].1);
      }
    }
    SortedCons(e, rest, descending);
    forall v
      ensures WithAmount(r, v) == if x.1 == v then [x] + WithAmount(s, v) else WithAmount(s, v)
    {
      WithAmountCons(e, rest, v);
      WithAmountCons(e, t, v);
    }
  }

  /** Inserting in front of a sorted sequence whose head may follow `x`. */
  lemma InsertInFront(x: Entry, s: seq<Entry>, descending: bool)
    requires Sorted(s, descending)
    requires |s| > 0 ==> InOrder(descending, x.1, s[0].1)
    ensures InsertedStably([x] + s, x, s, descending)
  {
    forall k | 0 <= k < |s|
      ensures InOrder(descending, x.1, s[k].1)
    {
      assert InOrder(descending, s[0].1, s[k].1) || k == 0;
    }
    SortedCons(x, s, descending);
    forall v
      ensures WithAmount([x] + s, v) == if x.1 == v then [x] + WithAmount(s, v) else WithAmount(s, v)
    {
      WithAmountCons(x, s, v);
    }
  }

  /** Places `x` in the sorted `s` ahead of every pair of equal amount. */
  function Insert(x: Entry, s: seq<Entry>, descending: bool): (r: seq<Entry>)
    requires Sorted(s, descending)
    ensures InsertedStably(r, x, s, descending)
  {
    if |s| == 0 || InOrder(descending, x.1, s[0].1) then
      InsertInFront(x, s, descending);
      [x] + s
    else
      var rest := Insert(x, s[1..], descending);
      assert s == [s[0]] + s[1..];
      InsertBehind(x, s[0], s[1..], rest, descending);
      [s[0]] + rest
  }

  /** A stable sort by amount, ascending or descending. */
  function Sort(s: seq<Entry>, descending: bool): (r: seq<Entry>)
    ensures |r| == |s|
    ensures Sorted(r, descending)
    ensures multiset(r) == multiset(s)
    ensures StableReorder(r, s)
  {
    if |s| == 0 then []
    else
      var t := Sort(s[1..], descending);
      var r := Insert(s[0], t, descending);
      assert s == [s[0]] + s[1..];
      forall v
        ensures WithAmount(r, v) == WithAmount(s, v)
      {
        WithAmountCons(s[0], s[1..], v);
      }
      r
  }

  /** Every pair of `s` is among the pairs of `s` with its own amount. */
  lemma {:induction false} InWithAmount(s: seq<Entry>, e: Entry)
    requires e in s
    ensures e in WithAmount(s, e.1)
    decreases |s|
  {
    if s[0] != e {
      InWithAmount(s[1..], e);
    }
  }

  /** Stable reorderings have the same pairs. */
  lemma ReorderMembers(a: seq<Entry>, b: seq<Entry>, e: Entry)
    requires StableReorder(a, b) && e in b
    ensures e in a
  {
    InWithAmount(b, e);
    assert e in WithAmount(a, e.1);
  }

  /** The first pair of a sorted sequence may precede each of its pairs. */
  lemma HeadInOrder(a: seq<Entry>, e: Entry, descending: bool)
    requires Sorted(a, descending) && e in a
    ensures InOrder(descending, a[0].1, e.1)
  {
    var i :| 0 <= i < |a| && a[i] == e;
    if i > 0 {
      assert InOrder(descending, a[0].1, a[i].1);
    }
  }

  /** The pairs of amount `v` in a sequence that starts with such a pair. */
  lemma WithAmountHead(s: seq<Entry>)
    requires |s| > 0
    ensures WithAmount(s, s[0].1) == [s[0]] + WithAmount(s[1..], s[0].1)
  {
  }

  /** Sorted stable reorderings start with the same pair. */
  lemma SameHead(a: seq<Entry>, b: seq<Entry>, descending: bool)
    requires Sorted(a, descending) && Sorted(b, descending)
    requires StableReorder(a, b) && |a| > 0
    ensures |b| > 0 && a[0] == b[0]
  {
    InWithAmount(a, a[0]);
    assert a[0] in WithAmount(b, a[0].1);
    assert |b| > 0;
    ReorderMembers(a, b, b[0]);
    assert StableReorder(b, a);
    ReorderMembers(b, a, a[0]);
    HeadInOrder(a, b[0], descending);
    HeadInOrder(b, a[0], descending);
    assert a[0].1 == b[0].1;
    WithAmountHead(a);
    WithAmountHead(b);
    assert WithAmount(a, a[0].1) == WithAmount(b, a[0].1);
    assert WithAmount(a, a[0].1)[0] == a[0] && WithAmount(b, b[0].1)[0] == b[0];
  }

  /** Dropping a common first pair keeps a stable reordering. */
  lemma ReorderTails(a: seq<Entry>, b: seq<Entry>)
    requires StableReorder(a, b) && |a| > 0 && |b| > 0 && a[0] == b[0]
    ensures StableReorder(a[1..], b[1..])
  {
    forall v
      ensures WithAmount(a[1..], v) == WithAmount(b[1..], v)
    {
      assert WithAmount(a, v) == WithAmount(b, v);
      if a[0].1 == v {
        assert WithAmount(a[1..], v) == WithAmount(a, v)[1..];
        assert WithAmount(b[1..], v) == WithAmount(b, v)[1..];
      }
    }
  }

  /** A stable sort has only one possible outcome: two sorted sequences that
      agree on the order of the pairs of every amount are equal. */
  lemma {:induction false} SortedUnique(a: seq<Entry>, b: seq<Entry>, descending: bool)
    requires Sorted(a, descending) && Sorted(b, descending)
    requires StableReorder(a, b)
    ensures a == b
    decreases |a|
  {
    if |a| == 0 {
      if |b| > 0 {
        InWithAmount(b, b[0]);
      }
    } else {
      SameHead(a, b, descending);
      ReorderTails(a, b);
      SortedUnique(a[1..], b[1..], descending);
      assert a == [a[0]] + a[1..] && b == [b[0]] + b[1..];
    }
  }

  /** Sorting ascending after sorting descending gives what sorting the
      original ascending gives: the earlier in-place descending sort of the
      same list does not change the outcome of the later ascending one. */
  lemma ResortAscending(s: seq<Entry>)
    ensures Sort(Sort(s, true), false) == Sort(s, false)
  {
    var d := Sort(s, true);
    var r := Sort(d, false);
    var q := Sort(s, false);
    assert StableReorder(r, q) by {
      forall v
        ensures WithAmount(r, v) == WithAmount(q, v)
      {
        assert WithAmount(r, v) == WithAmount(d, v) == WithAmount(s, v);
      }
    }
    SortedUnique(r, q, false);
  }

  /** Sorting twice in the same direction changes nothing. */
  lemma SortIdempotent(s: seq<Entry>, descending: bool)
    requires Sorted(s, descending)
    ensures Sort(s, descending) == s
  {
    SortedUnique(Sort(s, descending), s, descending);
  }
}
