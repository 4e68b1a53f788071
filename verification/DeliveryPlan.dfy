/** plan_categories: cut the artifacts into delivery units. */
module DeliveryPlan {

  datatype Category = Visual | Audio | Document

  const UNIT_LIMIT := 10

  function Range(low: nat, high: nat): (r: seq<nat>)
    requires low <= high
    ensures |r| == high - low
    ensures forall i :: 0 <= i < |r| ==> r[i] == low + i
  {
    seq(high - low, i requires 0 <= i => low + i)
  }

  function Flatten<T>(units: seq<seq<T>>): seq<T> {
    if units == [] then [] else Flatten(units[..|units| - 1]) + units[|units| - 1]
  }

  /** One legal send: a non-empty run of at most ten artifacts of one category. */
  predicate Sendable(categories: seq<Category>, unit: seq<nat>) {
    && 1 <= |unit| <= UNIT_LIMIT
    && (forall i :: 0 <= i < |unit| ==> unit[i] < |categories|)
    && (forall i :: 0 <= i < |unit| ==> categories[unit[i]] == categories[unit[0]])
  }

  /** The units, end to end, are the artifacts in order, and each can be sent. */
  predicate ValidPlan(categories: seq<Category>, units: seq<seq<nat>>) {
    && Flatten(units) == Range(0, |categories|)
    && forall k :: 0 <= k < |units| ==> Sendable(categories, units[k])
  }

  /** How far the inner loop reaches from `start`. */
  function Reach(categories: seq<Category>, start: nat, end: nat): (stop: nat)
    requires start < end <= |categories|
    ensures end <= stop <= |categories|
    ensures end - start <= UNIT_LIMIT ==> stop - start <= UNIT_LIMIT
    ensures forall i :: end <= i < stop ==> categories[i] == categories[start]
    ensures stop == |categories| || stop - start >= UNIT_LIMIT || categories[stop] != categories[start]
    decreases |categories| - end
  {
    if end < |categories| && end - start < UNIT_LIMIT && categories[end] == categories[start]
    then Reach(categories, start, end + 1)
    else end
  }

  /** The units that cover the first `start` artifacts' successors: the plan from `start` on. */
  function PlanFrom(categories: seq<Category>, start: nat): seq<seq<nat>>
    requires start <= |categories|
    decreases |categories| - start
  {
    if start == |categories| then []
    else
      var end := Reach(categories, start, start + 1);
      [Range(start, end)] + PlanFrom(categories, end)
  }

  function Plan(categories: seq<Category>): seq<seq<nat>> {
    PlanFrom(categories, 0)
  }

  lemma FlattenSnoc<T>(units: seq<seq<T>>, unit: seq<T>)
    ensures Flatten(units + [unit]) == Flatten(units) + unit
  {
    assert (units + [unit])[..|units|] == units;
  }

  lemma {:induction false} FlattenAppend<T>(a: seq<seq<T>>, b: seq<seq<T>>)
    ensures Flatten(a + b) == Flatten(a) + Flatten(b)
  {
    if b == [] {
      assert a + b == a;
    } else {
      hide Flatten;
      var init, last := b[..|b| - 1], b[|b| - 1];
      FlattenAppend(a, init);
      assert b == init + [last] && a + b == (a + init) + [last];
      FlattenSnoc(init, last);
      FlattenSnoc(a + init, last);
    }
  }

  lemma RangeJoin(a: nat, b: nat, c: nat)
    requires a <= b <= c
    ensures Range(a, b) + Range(b, c) == Range(a, c)
  {}

  lemma ReachSendable(categories: seq<Category>, start: nat)
    requires start < |categories|
    ensures Sendable(categories, Range(start, Reach(categories, start, start + 1)))
  {
    var unit := Range(start, Reach(categories, start, start + 1));
    forall i | 0 <= i < |unit|
      ensures categories[unit[i]] == categories[unit[0]]
    {}
  }

  lemma CoverGrows(result: seq<seq<nat>>, start: nat, end: nat)
    requires start <= end && Flatten(result) == Range(0, start)
    ensures Flatten(result + [Range(start, end)]) == Range(0, end)
  {
    FlattenSnoc(result, Range(start, end));
    RangeJoin(0, start, end);
  }

  lemma PlanContinues(categories: seq<Category>, result: seq<seq<nat>>, start: nat)
    requires start < |categories|
    ensures var end := Reach(categories, start, start + 1);
      (result + [Range(start, end)]) + PlanFrom(categories, end) == result + PlanFrom(categories, start)
  {
  }

  lemma {:induction false} PlanCovers(categories: seq<Category>, result: seq<seq<nat>>, start: nat)
    requires start <= |categories| && Flatten(result) == Range(0, start)
    requires forall k :: 0 <= k < |result| ==> Sendable(categories, result[k])
    ensures ValidPlan(categories, result + PlanFrom(categories, start))
    decreases |categories| - start
  {
    if start < |categories| {
      var end := Reach(categories, start, start + 1);
      CoverGrows(result, start, end);
      ReachSendable(categories, start);
      PlanContinues(categories, result, start);
      PlanCovers(categories, result + [Range(start, end)], end);
    } else {
      assert result + PlanFrom(categories, start) == result;
    }
  }

  /** The greedy plan is a legal plan. */
  lemma PlanIsValid(categories: seq<Category>)
    ensures ValidPlan(categories, Plan(categories))
  {
    PlanCovers(categories, [], 0);
    assert [] + Plan(categories) == Plan(categories);
  }

  method PlanCategories(categories: seq<Category>) returns (result: seq<seq<nat>>)
    ensures result == Plan(categories)
    ensures ValidPlan(categories, result)
  {
    result := [];
    var start := 0;
    while start < |categories|
      invariant start <= |categories|
      invariant Flatten(result) == Range(0, start)
      invariant forall k :: 0 <= k < |result| ==> Sendable(categories, result[k])
      invariant result + PlanFrom(categories, start) == Plan(categories)
    {
      var kind := categories[start];
      var end := start + 1;
      while end < |categories| && end - start < 10 && categories[end] == kind
        invariant start < end <= |categories| && end - start <= 10
        invariant forall i :: start <= i < end ==> categories[i] == kind
        invariant Reach(categories, start, end) == Reach(categories, start, start + 1)
      {
        end := end + 1;
      }
      CoverGrows(result, start, end);
      ReachSendable(categories, start);
      PlanContinues(categories, result, start);
      result := result + [Range(start, end)];
      start := end;
    }
  }

  /** Every legal plan says where each unit lies. */
  lemma {:induction false} UnitsAreConsecutive(units: seq<seq<nat>>, n: nat, k: nat)
    requires Flatten(units) == Range(0, n) && k < |units|
    ensures |Flatten(units[..k])| + |units[k]| <= n
    ensures units[k] == Range(|Flatten(units[..k])|, |Flatten(units[..k])| + |units[k]|)
    ensures Flatten(units[..k]) == Range(0, |Flatten(units[..k])|)
    ensures |Flatten(units[..k + 1])| == |Flatten(units[..k])| + |units[k]|
  {
    var before, from := units[..k], units[k + 1..];
    assert units == (before + [units[k]]) + from;
    FlattenAppend(before + [units[k]], from);
    FlattenSnoc(before, units[k]);
    assert units[..k + 1] == before + [units[k]];
    var e := |Flatten(before)|;
    var whole := Flatten(before) + units[k] + Flatten(from);
    assert whole == Range(0, n);
    forall i | 0 <= i < |units[k]|
      ensures units[k][i] == e + i
    {
      assert whole[e + i] == units[k][i];
    }
    forall i | 0 <= i < e
      ensures Flatten(before)[i] == i
    {
      assert whole[i] == Flatten(before)[i];
    }
  }

  lemma {:induction false} ReachCovers(categories: seq<Category>, start: nat, end: nat, high: nat)
    requires start < end <= high <= |categories| && high - start <= UNIT_LIMIT
    requires forall i :: start <= i < high ==> categories[i] == categories[start]
    ensures high <= Reach(categories, start, end)
    decreases high - end
  {
    if end < high {
      ReachCovers(categories, start, end + 1, high);
    }
  }

  /** From inside any unit of a legal plan the greedy step reaches at least the unit's end. */
  lemma ReachPassesUnit(categories: seq<Category>, other: seq<seq<nat>>, start: nat, k: nat)
    requires ValidPlan(categories, other) && k < |other|
    requires |Flatten(other[..k])| <= start < |categories|
    ensures |Flatten(other[..k + 1])| <= Reach(categories, start, start + 1)
  {
    hide Flatten, Reach;
    UnitsAreConsecutive(other, |categories|, k);
    var low := |Flatten(other[..k])|;
    var high := low + |other[k]|;
    if start < high {
      assert Sendable(categories, other[k]);
      forall i | start <= i < high
        ensures categories[i] == categories[start]
      {
        assert other[k][i - low] == i && other[k][start - low] == start;
      }
      ReachCovers(categories, start, start + 1, high);
    }
  }

  /** Greedy stays ahead: after as many units, no legal plan has got further. */
  lemma {:induction false} StaysAhead(categories: seq<Category>, other: seq<seq<nat>>, start: nat, k: nat)
    requires ValidPlan(categories, other) && k <= |other|
    requires |Flatten(other[..k])| <= start <= |categories|
    ensures |PlanFrom(categories, start)| <= |other| - k
    decreases |categories| - start
  {
    hide Flatten, Reach, ValidPlan;
    if start < |categories| {
      NotAtTheEnd(categories, other, k);
      ReachPassesUnit(categories, other, start, k);
      StaysAhead(categories, other, Reach(categories, start, start + 1), k + 1);
    }
  }

  lemma NotAtTheEnd(categories: seq<Category>, other: seq<seq<nat>>, k: nat)
    requires ValidPlan(categories, other) && k <= |other| && |Flatten(other[..k])| < |categories|
    ensures k < |other|
  {
    assert other[..|other|] == other;
  }

  /** The plan is legal, and no legal plan has fewer units. */
  lemma PlanIsMinimal(categories: seq<Category>, other: seq<seq<nat>>)
    requires ValidPlan(categories, other)
    ensures ValidPlan(categories, Plan(categories)) && |Plan(categories)| <= |other|
  {
    PlanIsValid(categories);
    assert other[..0] == [];
    StaysAhead(categories, other, 0, 0);
  }

  /** Units are filled: each but the last ends at ten artifacts or where the category changes. */
  lemma {:induction false} UnitsAreFull(categories: seq<Category>, start: nat, k: nat)
    requires start <= |categories| && k < |PlanFrom(categories, start)| - 1
    ensures var unit, next := PlanFrom(categories, start)[k], PlanFrom(categories, start)[k + 1];
      && |unit| >= 1 && |next| >= 1 && next[0] < |categories| && unit[0] < |categories|
      && (|unit| == 10 || categories[next[0]] != categories[unit[0]])
    decreases |categories| - start
  {
    hide Reach;
    var end := Reach(categories, start, start + 1);
    if k > 0 {
      UnitsAreFull(categories, end, k - 1);
    }
  }
}
