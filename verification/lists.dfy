/**
 * The list idioms the application leans on: `Array.from(new Set(xs))`
 * (distinct values in first-appearance order), `xs.filter(y => y !== x)`
 * and counting occurrences.
 */
module Lists {

  /** How often `x` occurs in `xs`. */
  function Count<T(==,!new)>(xs: seq<T>, x: T): (n: nat)
    ensures n <= |xs|
    ensures n > 0 <==> x in xs
  {
    if xs == [] then 0 else (if xs[0] == x then 1 else 0) + Count(xs[1..], x)
  }

  /** No value occurs twice. */
  predicate NoDup<T(==,!new)>(xs: seq<T>) {
    forall i, j :: 0 <= i < j < |xs| ==> xs[i] != xs[j]
  }

  /** `xs.filter(y => y !== x)`. */
  function Remove<T(==,!new)>(xs: seq<T>, x: T): (r: seq<T>)
    ensures |r| <= |xs|
  {
    if xs == [] then []
    else
      var init := Remove(xs[..|xs| - 1], x);
      if xs[|xs| - 1] == x then init else init + [xs[|xs| - 1]]
  }

  /** The entries of `xs` that do not occur in `ys`, in order. */
  function Without<T(==,!new)>(xs: seq<T>, ys: seq<T>): (r: seq<T>)
    ensures |r| <= |xs|
  {
    if xs == [] then []
    else
      var init := Without(xs[..|xs| - 1], ys);
      if xs[|xs| - 1] in ys then init else init + [xs[|xs| - 1]]
  }

  /**
   * `Array.from(new Set(xs))`: each value once, at the place it first occurs.
   * Built from the back: the last entry is kept only if it is new.
   */
  function Dedupe<T(==,!new)>(xs: seq<T>): (r: seq<T>)
    ensures |r| <= |xs|
  {
    if xs == [] then []
    else
      var init := Dedupe(xs[..|xs| - 1]);
      if xs[|xs| - 1] in init then init else init + [xs[|xs| - 1]]
  }

  /** `x` survives the filter exactly when it is in `xs` and is not the removed value. */
  lemma {:induction false} RemoveMember<T(!new)>(xs: seq<T>, x: T, y: T)
    ensures y in Remove(xs, x) <==> y in xs && y != x
  {
    if xs != [] {
      var init := xs[..|xs| - 1];
      assert xs == init + [xs[|xs| - 1]];
      RemoveMember(init, x, y);
    }
  }

  lemma {:induction false} WithoutMember<T(!new)>(xs: seq<T>, ys: seq<T>, y: T)
    ensures y in Without(xs, ys) <==> y in xs && y !in ys
  {
    if xs != [] {
      var init := xs[..|xs| - 1];
      assert xs == init + [xs[|xs| - 1]];
      WithoutMember(init, ys, y);
    }
  }

  /** Deduplication keeps every value and invents none. */
  lemma {:induction false} DedupeMember<T(!new)>(xs: seq<T>, y: T)
    ensures y in Dedupe(xs) <==> y in xs
  {
    if xs != [] {
      var init := xs[..|xs| - 1];
      assert xs == init + [xs[|xs| - 1]];
      DedupeMember(init, y);
    }
  }

  /** Deduplication leaves no value twice. */
  lemma {:induction false} DedupeNoRepeats<T(!new)>(xs: seq<T>)
    ensures NoDup(Dedupe(xs))
  {
    if xs != [] {
      var init := xs[..|xs| - 1];
      DedupeNoRepeats(init);
    }
  }

  lemma RemoveSnoc<T(!new)>(xs: seq<T>, y: T, x: T)
    ensures Remove(xs + [y], x) == if y == x then Remove(xs, x) else Remove(xs, x) + [y]
  {
    assert (xs + [y])[..|xs + [y]| - 1] == xs;
  }

  lemma DedupeSnoc<T(!new)>(xs: seq<T>, y: T)
    ensures Dedupe(xs + [y]) == if y in Dedupe(xs) then Dedupe(xs) else Dedupe(xs) + [y]
  {
    assert (xs + [y])[..|xs + [y]| - 1] == xs;
  }

  lemma WithoutSnoc<T(!new)>(xs: seq<T>, y: T, ys: seq<T>)
    ensures Without(xs + [y], ys) == if y in ys then Without(xs, ys) else Without(xs, ys) + [y]
  {
    assert (xs + [y])[..|xs + [y]| - 1] == xs;
  }

  /** The filter passes the head through unless it is the removed value. */
  lemma {:induction false} RemoveCons<T(!new)>(a: T, xs: seq<T>, x: T)
    ensures Remove([a] + xs, x) == (if a == x then [] else [a]) + Remove(xs, x)
  {
    if xs == [] {
      assert [a] + xs == [] + [a];
      RemoveSnoc([], a, x);
    } else {
      var init := xs[..|xs| - 1];
      var y := xs[|xs| - 1];
      RemoveCons(a, init, x);
      assert [a] + xs == ([a] + init) + [y];
      assert xs == init + [y];
      RemoveSnoc([a] + init, y, x);
      RemoveSnoc(init, y, x);
    }
  }

  /**
   * Deduplicating a prefix gives a prefix of the deduplicated whole: values
   * keep the order in which they first occur.
   */
  lemma {:induction false} DedupePrefix<T(!new)>(xs: seq<T>, k: nat)
    requires k <= |xs|
    ensures |Dedupe(xs[..k])| <= |Dedupe(xs)|
    ensures Dedupe(xs)[..|Dedupe(xs[..k])|] == Dedupe(xs[..k])
  {
    if k < |xs| {
      var init := xs[..|xs| - 1];
      assert init[..k] == xs[..k];
      DedupePrefix(init, k);
      assert xs == init + [xs[|xs| - 1]];
      DedupeSnoc(init, xs[|xs| - 1]);
    } else {
      assert xs[..k] == xs;
    }
  }

  /**
   * A value seen among the first `k` entries sits, after deduplication, ahead
   * of every value not seen by then.
   */
  lemma DedupeKeepsFirstSeenAhead<T(!new)>(xs: seq<T>, k: nat, y: T, i: nat)
    requires k <= |xs| && y in xs[..k] && i < |Dedupe(xs)|
    ensures Dedupe(xs)[i] !in xs[..k] ==> exists a :: 0 <= a < i && Dedupe(xs)[a] == y
  {
    DedupePrefix(xs, k);
    var dp := Dedupe(xs[..k]);
    DedupeMember(xs[..k], y);
    DedupeMember(xs[..k], Dedupe(xs)[i]);
    var a :| 0 <= a < |dp| && dp[a] == y;
    assert Dedupe(xs)[a] == y;
    if i < |dp| {
      assert Dedupe(xs)[i] == dp[i];
    }
  }

  /** Removing a value that is absent changes nothing. */
  lemma {:induction false} RemoveAbsent<T(!new)>(xs: seq<T>, x: T)
    requires x !in xs
    ensures Remove(xs, x) == xs
  {
    if xs != [] {
      var init := xs[..|xs| - 1];
      RemoveAbsent(init, x);
      assert xs == init + [xs[|xs| - 1]];
      RemoveSnoc(init, xs[|xs| - 1], x);
    }
  }

  /** Deduplicating a list with no repeats returns it unchanged. */
  lemma {:induction false} DedupeNoDup<T(!new)>(xs: seq<T>)
    requires NoDup(xs)
    ensures Dedupe(xs) == xs
  {
    if xs != [] {
      var init := xs[..|xs| - 1];
      var y := xs[|xs| - 1];
      assert NoDup(init);
      DedupeNoDup(init);
      assert y !in init;
      assert xs == init + [y];
      DedupeSnoc(init, y);
    }
  }

  /** Deduplicating twice is deduplicating once. */
  lemma DedupeIdempotent<T(!new)>(xs: seq<T>)
    ensures Dedupe(Dedupe(xs)) == Dedupe(xs)
  {
    DedupeNoRepeats(xs);
    DedupeNoDup(Dedupe(xs));
  }

  /**
   * A value placed in front of a list wins its first place: the distinct
   * values of `[x] + xs` are `x`, then those of `xs` other than `x`.
   */
  lemma {:induction false} DedupeCons<T(!new)>(x: T, xs: seq<T>)
    ensures Dedupe([x] + xs) == [x] + Remove(Dedupe(xs), x)
  {
    if xs == [] {
      assert [x] + xs == [] + [x];
      DedupeSnoc([], x);
    } else {
      var init := xs[..|xs| - 1];
      var y := xs[|xs| - 1];
      DedupeCons(x, init);
      assert [x] + xs == ([x] + init) + [y];
      assert xs == init + [y];
      DedupeSnoc([x] + init, y);
      DedupeSnoc(init, y);
      DedupeMember(init, y);
      DedupeMember([x] + init, y);
      ConsStep(x, y, Dedupe(init), Dedupe([x] + init));
    }
  }

  /** One more entry `y` at the back, for the distinct lists `q` of `xs` and `p` of `[x] + xs`. */
  lemma ConsStep<T(!new)>(x: T, y: T, q: seq<T>, p: seq<T>)
    requires p == [x] + Remove(q, x)
    requires y in p <==> y == x || y in q
    ensures (if y in p then p else p + [y]) == [x] + Remove(if y in q then q else q + [y], x)
  {
    RemoveSnoc(q, y, x);
    if y !in q && y != x {
      RemoveMember(q, x, y);
    }
  }

  /**
   * The distinct values of `a + b` are those of `a`, in order, followed by the
   * values of `b` that `a` does not hold, in their own first-appearance order.
   */
  lemma {:induction false} DedupeAppend<T(!new)>(a: seq<T>, b: seq<T>)
    ensures Dedupe(a + b) == Dedupe(a) + Without(Dedupe(b), a)
  {
    if b == [] {
      assert a + b == a;
    } else {
      var init := b[..|b| - 1];
      var y := b[|b| - 1];
      DedupeAppend(a, init);
      assert a + b == (a + init) + [y];
      assert b == init + [y];
      DedupeSnoc(a + init, y);
      DedupeSnoc(init, y);
      DedupeMember(init, y);
      DedupeMember(a + init, y);
      DedupeMember(a, y);
      AppendStep(a, y, Dedupe(a), Dedupe(init), Dedupe(a + init));
    }
  }

  /** One more entry `y` at the back of `b`, for the distinct lists of `a`, `b` and `a + b`. */
  lemma AppendStep<T(!new)>(a: seq<T>, y: T, da: seq<T>, q: seq<T>, p: seq<T>)
    requires p == da + Without(q, a)
    requires y in p <==> y in a || y in q
    ensures (if y in p then p else p + [y]) == da + Without(if y in q then q else q + [y], a)
  {
    WithoutSnoc(q, y, a);
  }
}
