/** Selecting from and mapping over lists, counted as multisets. */
module Lists {

  function Select<T>(xs: seq<T>, keep: T -> bool): seq<T> {
    if xs == [] then []
    else
      var init, x := Select(xs[..|xs| - 1], keep), xs[|xs| - 1];
      if keep(x) then init + [x] else init
  }

  /** Index of the first element that passes the test, or the length of the list. */
  function FirstIndex<T>(xs: seq<T>, test: T -> bool): (k: nat)
    ensures k <= |xs|
    ensures forall i :: 0 <= i < k ==> !test(xs[i])
    ensures k < |xs| ==> test(xs[k])
  {
    if xs == [] then 0 else if test(xs[0]) then 0 else 1 + FirstIndex(xs[1..], test)
  }

  function Map<S, T>(xs: seq<S>, f: S -> T): seq<T> {
    seq(|xs|, i requires 0 <= i < |xs| => f(xs[i]))
  }

  lemma MapInit<S, T>(xs: seq<S>, f: S -> T)
    requires xs != []
    ensures Map(xs, f) == Map(xs[..|xs| - 1], f) + [f(xs[|xs| - 1])]
  {
  }

  lemma {:induction false} SelectCount<T(!new)>(xs: seq<T>, keep: T -> bool)
    ensures forall x :: multiset(Select(xs, keep))[x] == if keep(x) then multiset(xs)[x] else 0
  {
    if xs != [] {
      var init := xs[..|xs| - 1];
      SelectCount(init, keep);
      assert xs == init + [xs[|xs| - 1]];
    }
  }

  /** A test and its negation split a list. */
  lemma SelectSplits<T(!new)>(xs: seq<T>, keep: T -> bool, drop: T -> bool)
    requires forall x :: drop(x) == !keep(x)
    ensures multiset(xs) == multiset(Select(xs, keep)) + multiset(Select(xs, drop))
  {
    SelectCount(xs, keep);
    SelectCount(xs, drop);
  }

  lemma SelectSnoc<T>(xs: seq<T>, i: nat, keep: T -> bool)
    requires i < |xs|
    ensures Select(xs[..i + 1], keep) == Select(xs[..i], keep) + (if keep(xs[i]) then [xs[i]] else [])
  {
    assert xs[..i + 1][..i] == xs[..i];
  }

  /** `at` are exactly the wanted ones of the first `n` positions, in order. */
  ghost predicate Picks(n: nat, at: seq<nat>, want: int -> bool) {
    && (forall k :: 0 <= k < |at| ==> at[k] < n)
    && (forall k, l :: 0 <= k < l < |at| ==> at[k] < at[l])
    && (forall i :: 0 <= i < n ==> (i in at <==> want(i)))
  }

  lemma PicksSnoc(n: nat, at: seq<nat>, before: int -> bool, want: int -> bool)
    requires Picks(n, at, before) && forall i :: 0 <= i < n ==> before(i) == want(i)
    ensures Picks(n + 1, if want(n) then at + [n] else at, want)
  {
    var all := if want(n) then at + [n] else at;
    forall i | 0 <= i < n + 1
      ensures i in all <==> want(i)
    {
      assert n !in at;
    }
  }

  lemma SelectMonotone<T(!new)>(xs: seq<T>, few: T -> bool, more: T -> bool)
    requires forall x :: few(x) ==> more(x)
    ensures multiset(Select(xs, few)) <= multiset(Select(xs, more))
  {
    SelectCount(xs, few);
    SelectCount(xs, more);
  }

  lemma {:induction false} SelectIn<T>(xs: seq<T>, keep: T -> bool, x: T)
    ensures x in Select(xs, keep) <==> x in xs && keep(x)
  {
    if xs != [] {
      SelectIn(xs[..|xs| - 1], keep, x);
      assert xs == xs[..|xs| - 1] + [xs[|xs| - 1]];
    }
  }
}
