/** The escalating time budgets of one benchmark run: the doubling sequence
    1, 2, 4, ... seconds, cut off strictly below the optional final cutoff,
    followed by the cutoff itself. */
module Budget {
  import opened RustTypes

  /** Number of doublings the runner generates: exponents 0 to 31
      (2^32 seconds is over a century). */
  const DOUBLINGS: nat := 32

  function Pow2(i: nat): (r: nat)
    ensures r >= 1
  {
    if i == 0 then 1 else 2 * Pow2(i - 1)
  }

  lemma {:induction false} Pow2Increasing(i: nat, j: nat)
    requires i < j
    ensures Pow2(i) < Pow2(j)
  {
    if i + 1 < j {
      Pow2Increasing(i, j - 1);
    }
  }

  lemma {:induction false} Pow2Add(i: nat, j: nat)
    ensures Pow2(i + j) == Pow2(i) * Pow2(j)
  {
    if j > 0 {
      Pow2Add(i, j - 1);
    }
  }

  /** Every generated power fits comfortably in a `usize` and an `i64`. */
  lemma Pow2Fits(i: nat)
    requires i < DOUBLINGS
    ensures Pow2(i) <= 0x8000_0000
  {
    if i < DOUBLINGS - 1 {
      Pow2Increasing(i, DOUBLINGS - 1);
    }
    Pow2Add(2, 2);
    Pow2Add(4, 4);
    Pow2Add(4, 3);
    Pow2Add(8, 7);
    Pow2Add(8, 8);
    Pow2Add(16, 15);
  }

  predicate StrictlyIncreasing(s: seq<int>) {
    forall i, j :: 0 <= i < j < |s| ==> s[i] < s[j]
  }

  /** The `take_while` test: with no cutoff every power is kept, with a
      cutoff only the powers strictly below it. */
  predicate BelowCutoff(x: nat, cutoff: Option<U64>) {
    match cutoff
    case None => true
    case Some(c) => x < c
  }

  /** The powers 2^i, 2^(i+1), ..., 2^31 cut at the first one that is not
      below the cutoff: the longest run of them that all stay below it. */
  function PowersFrom(i: nat, cutoff: Option<U64>): (r: seq<U64>)
    requires i <= DOUBLINGS
    ensures |r| <= DOUBLINGS - i
    ensures forall k :: 0 <= k < |r| ==> r[k] == Pow2(i + k) && BelowCutoff(r[k], cutoff)
    ensures i + |r| < DOUBLINGS ==> !BelowCutoff(Pow2(i + |r|), cutoff)
    decreases DOUBLINGS - i
  {
    if i == DOUBLINGS || !BelowCutoff(Pow2(i), cutoff) then []
    else
      Pow2Fits(i);
      [Pow2(i) as U64] + PowersFrom(i + 1, cutoff)
  }

  /** The budget sequence the loop iterates: the kept powers of two, then
      the cutoff once, when there is one. */
  function Budgets(cutoff: Option<U64>): (r: seq<U64>)
    ensures cutoff.None? ==> |r| <= DOUBLINGS
    ensures cutoff.Some? ==> 1 <= |r| <= DOUBLINGS + 1 && r[|r| - 1] == cutoff.value
    ensures forall k :: 0 <= k < |r| && (cutoff.None? || k < |r| - 1) ==>
      r[k] == Pow2(k) && BelowCutoff(r[k], cutoff)
  {
    PowersFrom(0, cutoff) + match cutoff case None => [] case Some(c) => [c]
  }

  /** With no cutoff the budgets are exactly 2^0, 2^1, ..., 2^31. */
  lemma BudgetsWithoutCutoff()
    ensures |Budgets(None)| == DOUBLINGS
    ensures forall k :: 0 <= k < DOUBLINGS ==> Budgets(None)[k] == Pow2(k)
  {
  }

  /** With cutoff c the budgets are the powers 2^0, 2^1, ... that are below
      c, all of them (the next power is not below c, or there is none
      left), followed by c exactly once. */
  lemma BudgetsWithCutoff(c: U64)
    ensures var r := Budgets(Some(c));
      && |r| >= 1
      && r[|r| - 1] == c
      && (forall k :: 0 <= k < |r| - 1 ==> r[k] == Pow2(k) && r[k] < c)
      && (|r| - 1 == DOUBLINGS || c <= Pow2(|r| - 1))
      && (forall i :: 0 <= i < DOUBLINGS && Pow2(i) < c ==> i < |r| - 1)
  {
    var r := Budgets(Some(c));
    var p := PowersFrom(0, Some(c));
    assert r == p + [c];
    var n := |r| - 1;
    assert n == |p|;
    forall i | 0 <= i < DOUBLINGS && Pow2(i) < c
      ensures i < n
    {
      if n < i {
        Pow2Increasing(n, i);
      }
    }
  }

  /** Whatever the cutoff, the budgets strictly increase, so no budget is
      tried twice. */
  lemma {:induction false} BudgetsStrictlyIncreasing(cutoff: Option<U64>)
    ensures StrictlyIncreasing(Budgets(cutoff))
  {
    var r := Budgets(cutoff);
    var p := PowersFrom(0, cutoff);
    forall i, j | 0 <= i < j < |r|
      ensures r[i] < r[j]
    {
      if j < |p| {
        Pow2Increasing(i, j);
      }
    }
  }

  /** Every budget is at most 2^31 or the cutoff; in particular all of them
      are below 2^63 when the cutoff is. */
  lemma BudgetsBounded(cutoff: Option<U64>)
    ensures forall b :: b in Budgets(cutoff) ==>
      b <= 0x8000_0000 || (cutoff.Some? && b == cutoff.value)
  {
    var p := PowersFrom(0, cutoff);
    forall k | 0 <= k < |p|
      ensures p[k] <= 0x8000_0000
    {
      Pow2Fits(k);
    }
  }

  lemma ExampleNoCutoff()
    ensures Budgets(None)[..4] == [1, 2, 4, 8]
  {
    BudgetsWithoutCutoff();
  }

  lemma ExampleCutoffTen()
    ensures Budgets(Some(10)) == [1, 2, 4, 8, 10]
  {
  }

  lemma ExampleCutoffFour()
    ensures Budgets(Some(4)) == [1, 2, 4]
  {
  }

  lemma ExampleCutoffOne()
    ensures Budgets(Some(1)) == [1]
  {
  }

  /** A cutoff of 0 is accepted: nothing is below it, so 0 is the only budget. */
  lemma ExampleCutoffZero()
    ensures Budgets(Some(0)) == [0]
  {
  }
}
