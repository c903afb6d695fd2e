/** The list operations the scene graph and the physics scene use on their `List<T>` fields:
    `Remove` (first occurrence), `Contains`, and the order-keeping filter the `Get*` methods build. */
module Sequences {

  /** `List<T>.Remove(x)`: drops the first element equal to `x`; a list without `x` is unchanged. */
  function RemoveFirst<T(==)>(s: seq<T>, x: T): (r: seq<T>)
    ensures x !in s ==> r == s
    ensures x in s ==> |r| == |s| - 1
    ensures forall y :: y in r ==> y in s
  {
    if |s| == 0 then []
    else if s[0] == x then s[1..]
    else [s[0]] + RemoveFirst(s[1..], x)
  }

  /** The index `RemoveFirst` drops: the first position holding `x`. */
  function FirstIndex<T(==)>(s: seq<T>, x: T): (i: nat)
    requires x in s
    ensures i < |s| && s[i] == x && x !in s[..i]
  {
    if s[0] == x then 0 else 1 + FirstIndex(s[1..], x)
  }

  /** Removal cuts out exactly the first occurrence, so the other elements keep their order. */
  lemma {:induction false} RemoveFirstCutsFirst<T>(s: seq<T>, x: T)
    requires x in s
    ensures var i := FirstIndex(s, x); RemoveFirst(s, x) == s[..i] + s[i + 1..]
  {
    if s[0] != x {
      RemoveFirstCutsFirst(s[1..], x);
      var i := FirstIndex(s[1..], x);
      assert s[1..][..i] == s[1..i + 1];
      assert s[1..][i + 1..] == s[i + 2..];
      assert [s[0]] + s[1..i + 1] == s[..i + 1];
    }
  }

  /** Removal takes one copy of `x` out of the multiset, which for an absent `x` is no change. */
  lemma {:induction false} RemoveFirstMultiset<T>(s: seq<T>, x: T)
    ensures multiset(RemoveFirst(s, x)) == multiset(s) - multiset{x}
  {
    if |s| > 0 {
      assert s == [s[0]] + s[1..];
      if s[0] != x {
        RemoveFirstMultiset(s[1..], x);
      }
    }
  }

  /** The elements of `s` that satisfy `keep`, in their order: the array the filtering `Get*`
      methods fill. Defined from the end, as the filling loop extends it. */
  function Filter<T>(s: seq<T>, keep: T -> bool): (r: seq<T>)
    ensures |r| <= |s|
  {
    if |s| == 0 then [] else Filter(s[..|s| - 1], keep) + (if keep(s[|s| - 1]) then [s[|s| - 1]] else [])
  }

  /** The number of elements of `s` that fail `keep`: the count loop's result. */
  function Rejected<T>(s: seq<T>, keep: T -> bool): (r: nat)
    ensures r <= |s|
  {
    if |s| == 0 then 0 else Rejected(s[..|s| - 1], keep) + (if keep(s[|s| - 1]) then 0 else 1)
  }

  /** The kept and the rejected elements together make up the list. */
  lemma {:induction false} FilterLength<T>(s: seq<T>, keep: T -> bool)
    ensures |Filter(s, keep)| == |s| - Rejected(s, keep)
  {
    if |s| > 0 {
      FilterLength(s[..|s| - 1], keep);
    }
  }

  /** With nothing rejected, the filter is the list itself. */
  lemma {:induction false} FilterNoneRejected<T>(s: seq<T>, keep: T -> bool)
    requires Rejected(s, keep) == 0
    ensures Filter(s, keep) == s
  {
    if |s| > 0 {
      FilterNoneRejected(s[..|s| - 1], keep);
      assert s == s[..|s| - 1] + [s[|s| - 1]];
    }
  }

  /** An element is kept exactly when it is in the list and satisfies `keep`. */
  lemma {:induction false} FilterMembers<T>(s: seq<T>, keep: T -> bool, x: T)
    ensures x in Filter(s, keep) <==> x in s && keep(x)
  {
    if |s| > 0 {
      FilterMembers(s[..|s| - 1], keep, x);
      assert s == s[..|s| - 1] + [s[|s| - 1]];
    }
  }

  /** The same, for every element at once. */
  lemma FilterMembersAll<T>(s: seq<T>, keep: T -> bool)
    ensures forall x :: x in Filter(s, keep) <==> x in s && keep(x)
  {
    forall x {
      FilterMembers(s, keep, x);
    }
  }

  /** The filter works element by element in order: filtering a concatenation concatenates the
      filtered parts. */
  lemma {:induction false} FilterAppend<T>(a: seq<T>, b: seq<T>, keep: T -> bool)
    ensures Filter(a + b, keep) == Filter(a, keep) + Filter(b, keep)
  {
    if |b| > 0 {
      var front := b[..|b| - 1];
      FilterAppend(a, front, keep);
      assert (a + b)[..|a + b| - 1] == a + front;
    } else {
      assert a + b == a;
    }
  }

  // ---- The reconciliation loops of the scene graph's `Update` ----

  /** The queued-removal loop: each queued element that no longer `stays` loses one occurrence from
      `kids`; elements that stay are never touched. */
  function DropDeparted<T(==)>(kids: seq<T>, queue: seq<T>, stays: T -> bool): seq<T>
  {
    if |queue| == 0 then kids
    else
      var before := DropDeparted(kids, queue[..|queue| - 1], stays);
      var k := queue[|queue| - 1];
      if !stays(k) then RemoveFirst(before, k) else before
  }

  /** The removals take exactly one copy of each departed queued element out of the list, and add
      nothing. */
  lemma {:induction false} DropDepartedCounts<T>(kids: seq<T>, queue: seq<T>, stays: T -> bool)
    ensures multiset(DropDeparted(kids, queue, stays)) == multiset(kids) - multiset(Filter(queue, Departed(stays)))
    ensures forall x :: x in DropDeparted(kids, queue, stays) ==> x in kids
  {
    if |queue| > 0 {
      var q, k := queue[..|queue| - 1], queue[|queue| - 1];
      var before := DropDeparted(kids, q, stays);
      DropDepartedCounts(kids, q, stays);
      RemoveFirstMultiset(before, k);
      assert Filter(queue, Departed(stays)) == Filter(q, Departed(stays)) + (if Departed(stays)(k) then [k] else []);
    }
  }

  /** The complement of `stays`. */
  function Departed<T>(stays: T -> bool): T -> bool
  {
    k => !stays(k)
  }

  /** The queued-add loop: appends, in queue order, each queued element that `stays` and is not yet
      listed. */
  function AppendArrivals<T(==)>(kids: seq<T>, queue: seq<T>, stays: T -> bool): seq<T>
  {
    if |queue| == 0 then kids
    else
      var before := AppendArrivals(kids, queue[..|queue| - 1], stays);
      var k := queue[|queue| - 1];
      if stays(k) && k !in before then before + [k] else before
  }

  /** The adds keep the list as a prefix, add only queued elements that stay, add every one of
      them, and never repeat or re-add a listed element. */
  lemma {:induction false} AppendArrivalsShape<T>(kids: seq<T>, queue: seq<T>, stays: T -> bool)
    ensures var r := AppendArrivals(kids, queue, stays);
      |kids| <= |r| && r[..|kids|] == kids
      && (forall x :: x in r ==> x in kids || (x in queue && stays(x)))
      && (forall x :: x in queue && stays(x) ==> x in r)
      && (forall i :: |kids| <= i < |r| ==> r[i] !in kids && r[i] !in r[|kids|..i])
  {
    if |queue| > 0 {
      var before := AppendArrivals(kids, queue[..|queue| - 1], stays);
      AppendArrivalsShape(kids, queue[..|queue| - 1], stays);
      var k := queue[|queue| - 1];
      assert queue == queue[..|queue| - 1] + [k];
      if stays(k) && k !in before {
        var r := before + [k];
        assert r[..|kids|] == before[..|kids|];
        assert r[|kids|..|r| - 1] == before[|kids|..];
        assert forall i :: |kids| <= i < |before| ==> r[|kids|..i] == before[|kids|..i];
      }
    }
  }

  /** An element that stays keeps every occurrence through the removals. */
  lemma DropDepartedKeepsStaying<T>(kids: seq<T>, queue: seq<T>, stays: T -> bool, x: T)
    requires stays(x)
    ensures multiset(DropDeparted(kids, queue, stays))[x] == multiset(kids)[x]
  {
    DropDepartedCounts(kids, queue, stays);
    FilterMembers(queue, Departed(stays), x);
  }

  /** A queued element that departed and was listed at most once is gone after the removals. */
  lemma DropDepartedRemovesDeparted<T>(kids: seq<T>, queue: seq<T>, stays: T -> bool, x: T)
    requires x in queue && !stays(x) && multiset(kids)[x] <= 1
    ensures x !in DropDeparted(kids, queue, stays)
  {
    var dropped: seq<T> := Filter(queue, Departed(stays));
    DropDepartedCounts(kids, queue, stays);
    FilterMembers(queue, Departed(stays), x);
    assert multiset(dropped)[x] >= 1;
    assert multiset(DropDeparted(kids, queue, stays))[x] == 0;
  }

  /** The removals depend only on which elements stay. */
  lemma {:induction false} DropDepartedSame<T>(kids: seq<T>, queue: seq<T>, stays: T -> bool, same: T -> bool)
    requires forall k :: stays(k) == same(k)
    ensures DropDeparted(kids, queue, stays) == DropDeparted(kids, queue, same)
  {
    if |queue| > 0 {
      DropDepartedSame(kids, queue[..|queue| - 1], stays, same);
    }
  }

  /** The same for the adds. */
  lemma {:induction false} AppendArrivalsSame<T>(kids: seq<T>, queue: seq<T>, stays: T -> bool, same: T -> bool)
    requires forall k :: stays(k) == same(k)
    ensures AppendArrivals(kids, queue, stays) == AppendArrivals(kids, queue, same)
  {
    if |queue| > 0 {
      AppendArrivalsSame(kids, queue[..|queue| - 1], stays, same);
    }
  }

  /** One more turn of the removal loop. */
  lemma DropDepartedStep<T>(kids: seq<T>, queue: seq<T>, i: nat, stays: T -> bool)
    requires i < |queue|
    ensures DropDeparted(kids, queue[..i + 1], stays)
            == var before := DropDeparted(kids, queue[..i], stays);
               if stays(queue[i]) then before else RemoveFirst(before, queue[i])
  {
    assert queue[..i + 1][..i] == queue[..i];
  }

  /** One more turn of the add loop. */
  lemma AppendArrivalsStep<T>(kids: seq<T>, queue: seq<T>, i: nat, stays: T -> bool)
    requires i < |queue|
    ensures AppendArrivals(kids, queue[..i + 1], stays)
            == var before := AppendArrivals(kids, queue[..i], stays);
               if stays(queue[i]) && queue[i] !in before then before + [queue[i]] else before
  {
    assert queue[..i + 1][..i] == queue[..i];
  }
}
