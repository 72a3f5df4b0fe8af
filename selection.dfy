/**
 * The selection part of the global `state` (app.js:3-10) and the handlers that
 * change it: the region and activity pickers (app.js:374-381, 391-398), the
 * selection rule `enforceSelectionRules` (app.js:401-419), the legend toggle
 * `toggleRegionSelection` (app.js:604-618) and the start/end swap of the year
 * sliders (app.js:434-445).
 *
 * Selected region codes and activity names are `Option<string>`, since the
 * options are built from table cells that may be `undefined`.
 */
module Selection {
  import opened Wrappers
  import opened JsNumber

  /** The two values of `state.lastChanged`. */
  datatype Field = RegionsField | ActivitiesField

  // ---------------------------------------------------------------------------
  // The selection rule

  /**
   * `enforceSelectionRules` on `(regions, activities)`: when both lists hold
   * more than one value, the one not named by `last` is cut to its first value.
   */
  function Enforced(regions: seq<Option<string>>, activities: seq<Option<string>>, last: Field): (r: (seq<Option<string>>, seq<Option<string>>))
    ensures !(|r.0| > 1 && |r.1| > 1)
  {
    if |regions| > 1 && |activities| > 1 then
      if last == RegionsField then (regions, activities[..1]) else (regions[..1], activities)
    else (regions, activities)
  }

  /**
   * The rule changes a list only when both are multi-valued, and then only
   * the list not named by `last`, which keeps its first value alone.
   */
  lemma EnforcedCutsTheOtherList(regions: seq<Option<string>>, activities: seq<Option<string>>, last: Field)
    ensures var r := Enforced(regions, activities, last);
            if |regions| > 1 && |activities| > 1 then
              (last == RegionsField ==> r.0 == regions && r.1 == [activities[0]])
              && (last == ActivitiesField ==> r.0 == [regions[0]] && r.1 == activities)
            else r == (regions, activities)
  {
  }

  /** Applying the rule again changes nothing. */
  lemma EnforcedIdempotent(regions: seq<Option<string>>, activities: seq<Option<string>>, last: Field)
    ensures var r := Enforced(regions, activities, last); Enforced(r.0, r.1, last) == r
  {
  }

  // ---------------------------------------------------------------------------
  // Sets of codes and the numeric sort

  /** `Array.from(new Set(s))`: the first occurrence of each value, in order. */
  function Dedup(s: seq<Option<string>>): (r: seq<Option<string>>)
    ensures forall x :: x in r <==> x in s
    ensures Distinct(r)
    decreases |s|
  {
    if s == [] then []
    else
      var init := Dedup(s[..|s| - 1]);
      if s[|s| - 1] in init then init else init + [s[|s| - 1]]
  }

  predicate Distinct(s: seq<Option<string>>) {
    forall i, j :: 0 <= i < j < |s| ==> s[i] != s[j]
  }

  /** `s` without `x`. */
  function Remove(s: seq<Option<string>>, x: Option<string>): (r: seq<Option<string>>)
    ensures forall y :: y in r <==> y in s && y != x
    ensures Distinct(s) ==> Distinct(r)
    ensures x !in s ==> r == s
    ensures Distinct(s) && x in s ==> multiset(r) + multiset{x} == multiset(s)
  {
    if s == [] then []
    else
      assert s == [s[0]] + s[1..];
      if s[0] == x then
        assert Distinct(s) ==> x !in s[1..];
        Remove(s[1..], x)
      else
        assert Distinct(s) ==> s[0] !in s[1..];
        [s[0]] + Remove(s[1..], x)
  }

  /** The sort key `Number(code)`. */
  function Key(code: Option<string>): Num {
    ToNumberOf(code)
  }

  /** The comparator `(a, b) => Number(a) - Number(b)`, read by its sign. */
  function Compare(a: Option<string>, b: Option<string>): int {
    ComparatorSign(Subtract(Key(a), Key(b)))
  }

  /** Insertion of `x` after every value that does not compare greater: the step of a stable sort. */
  function Insert(s: seq<Option<string>>, x: Option<string>): (r: seq<Option<string>>)
    ensures multiset(r) == multiset(s) + multiset{x}
    decreases |s|
  {
    if s == [] then [x]
    else
      assert s == s[..|s| - 1] + [s[|s| - 1]];
      if Compare(s[|s| - 1], x) > 0 then Insert(s[..|s| - 1], x) + [s[|s| - 1]]
      else s + [x]
  }

  /** `s.sort((a, b) => Number(a) - Number(b))`, as a stable insertion sort. */
  function SortCodes(s: seq<Option<string>>): (r: seq<Option<string>>)
    ensures multiset(r) == multiset(s)
    decreases |s|
  {
    if s == [] then [] else
      assert s == s[..|s| - 1] + [s[|s| - 1]];
      Insert(SortCodes(s[..|s| - 1]), s[|s| - 1])
  }

  predicate Numeric(s: seq<Option<string>>) {
    forall i :: 0 <= i < |s| ==> !Key(s[i]).NaN?
  }

  /** Ascending by numeric code. */
  predicate SortedByKey(s: seq<Option<string>>) {
    forall i, j :: 0 <= i < j < |s| ==> NumLe(Key(s[i]), Key(s[j]))
  }

  /** Inserting a value that does not sort before the last one appends it. */
  lemma InsertAfterLast(s: seq<Option<string>>, x: Option<string>)
    requires s != [] && Numeric(s) && !Key(x).NaN? && SortedByKey(s)
    requires NumLe(Key(s[|s| - 1]), Key(x))
    ensures SortedByKey(s + [x])
  {
    var last := s[|s| - 1];
    forall i | 0 <= i < |s| ensures NumLe(Key(s[i]), Key(x)) {
      if i < |s| - 1 { NumLeTransitive(Key(s[i]), Key(last), Key(x)); }
    }
  }

  /** Every value of `Insert(s, x)` is one of `s` or `x`, so none sorts after a bound of both. */
  lemma InsertBounded(s: seq<Option<string>>, x: Option<string>, bound: Num)
    requires forall i :: 0 <= i < |s| ==> NumLe(Key(s[i]), bound)
    requires NumLe(Key(x), bound)
    ensures forall i :: 0 <= i < |Insert(s, x)| ==> NumLe(Key(Insert(s, x)[i]), bound)
  {
    var r := Insert(s, x);
    forall i | 0 <= i < |r| ensures NumLe(Key(r[i]), bound) {
      assert r[i] in multiset(r);
      if r[i] != x {
        assert r[i] in multiset(s);
        var j :| 0 <= j < |s| && s[j] == r[i];
      }
    }
  }

  lemma {:induction false} InsertSorted(s: seq<Option<string>>, x: Option<string>)
    requires Numeric(s) && !Key(x).NaN? && SortedByKey(s)
    ensures SortedByKey(Insert(s, x))
  {
    if s != [] {
      var init := s[..|s| - 1];
      var last := s[|s| - 1];
      ComparatorSignOrder(Key(last), Key(x));
      if Compare(last, x) > 0 {
        InsertSorted(init, x);
        InsertBounded(init, x, Key(last));
        assert Insert(s, x) == Insert(init, x) + [last];
      } else {
        InsertAfterLast(s, x);
      }
    }
  }

  /** When every code reads as a number, the sort puts the codes in ascending numeric order. */
  lemma {:induction false} SortCodesSorted(s: seq<Option<string>>)
    requires Numeric(s)
    ensures SortedByKey(SortCodes(s))
  {
    if s != [] {
      var init := s[..|s| - 1];
      SortCodesSorted(init);
      var sorted := SortCodes(init);
      forall i | 0 <= i < |sorted| ensures !Key(sorted[i]).NaN? {
        assert sorted[i] in multiset(init);
      }
      InsertSorted(sorted, s[|s| - 1]);
    }
  }

  /** The list `toggleRegionSelection` stores: the set of codes with `code` flipped, sorted numerically. */
  function Toggled(regions: seq<Option<string>>, code: Option<string>): seq<Option<string>> {
    var selected := Dedup(regions);
    SortCodes(if code in selected then Remove(selected, code) else selected + [code])
  }

  /** A sequence is distinct exactly when no value occurs in it twice. */
  lemma {:induction false} DistinctCounts(a: seq<Option<string>>)
    ensures Distinct(a) <==> forall x :: multiset(a)[x] <= 1
  {
    if a != [] {
      var init := a[..|a| - 1];
      var last := a[|a| - 1];
      assert a == init + [last];
      DistinctCounts(init);
      if Distinct(a) {
        assert last !in init by {
          forall m | 0 <= m < |init| ensures init[m] != last { assert a[m] == init[m]; }
        }
        assert Distinct(init);
      }
      if forall x :: multiset(a)[x] <= 1 {
        forall i, j | 0 <= i < j < |a| ensures a[i] != a[j] {
          if a[i] == a[j] {
            OccursTwice(a, i, j);
            assert false;
          }
        }
      }
    }
  }

  lemma OccursTwice(a: seq<Option<string>>, i: nat, j: nat)
    requires i < j < |a| && a[i] == a[j]
    ensures multiset(a)[a[i]] >= 2
  {
    assert a == a[..j] + [a[j]] + a[j + 1..];
    assert a[i] in a[..j];
  }

  lemma DistinctOfMultiset(a: seq<Option<string>>, b: seq<Option<string>>)
    requires multiset(a) == multiset(b) && Distinct(a)
    ensures Distinct(b)
  {
    DistinctCounts(a);
    DistinctCounts(b);
  }

  /**
   * The toggle flips the membership of exactly one code, leaves no duplicate,
   * and, when every code reads as a number, stores the codes in ascending
   * numeric order.
   */
  lemma ToggledSelection(regions: seq<Option<string>>, code: Option<string>)
    ensures forall x :: x in Toggled(regions, code) <==> (if x == code then code !in regions else x in regions)
    ensures Distinct(Toggled(regions, code))
    ensures Numeric(Toggled(regions, code)) ==> SortedByKey(Toggled(regions, code))
  {
    var selected := Dedup(regions);
    var flipped := if code in selected then Remove(selected, code) else selected + [code];
    assert Distinct(flipped);
    var r := Toggled(regions, code);
    forall x ensures x in r <==> x in flipped {
      assert x in r <==> x in multiset(r);
      assert x in flipped <==> x in multiset(flipped);
    }
    DistinctOfMultiset(flipped, r);
    if Numeric(r) {
      forall i | 0 <= i < |flipped| ensures !Key(flipped[i]).NaN? {
        assert flipped[i] in multiset(r);
      }
      SortCodesSorted(flipped);
    }
  }

  // ---------------------------------------------------------------------------
  // The slider swap

  /** `state.period` after `updateSliderVisuals` reads the two slider values. */
  function SwappedPeriod(startValue: int, endValue: int): (p: (Option<int>, Option<int>))
    ensures p.0.Some? && p.1.Some?
    ensures p.0.value <= p.1.value
    ensures multiset{p.0.value, p.1.value} == multiset{startValue, endValue}
  {
    if startValue > endValue then (Some(endValue), Some(startValue)) else (Some(startValue), Some(endValue))
  }

  // ---------------------------------------------------------------------------
  // The state

  /** The selection fields of the global `state`. */
  class SelectionState {
    var indicator: Option<string>
    var regions: seq<Option<string>>
    var activities: seq<Option<string>>
    /** `[start, end]`; both `null` until a slider range is set. */
    var period: (Option<int>, Option<int>)
    var unit: string
    var lastChanged: Field

    /** The initial `state` of app.js:3-10. */
    constructor()
      ensures indicator == None && regions == [] && activities == []
      ensures period == (None, None) && unit == "" && lastChanged == RegionsField
    {
      indicator := None;
      regions := [];
      activities := [];
      period := (None, None);
      unit := "";
      lastChanged := RegionsField;
    }

    /** At most one of the two lists holds more than one value. */
    predicate Valid()
      reads this
    {
      !(|regions| > 1 && |activities| > 1)
    }

    /** `enforceSelectionRules` (app.js:401-419). */
    method EnforceSelectionRules()
      modifies this
      ensures (regions, activities) == Enforced(old(regions), old(activities), old(lastChanged))
      ensures Valid()
      ensures indicator == old(indicator) && period == old(period) && unit == old(unit) && lastChanged == old(lastChanged)
    {
      if |regions| > 1 && |activities| > 1 {
        if lastChanged == RegionsField {
          activities := activities[..1];
        } else {
          regions := regions[..1];
        }
      }
    }

    /** The region picker's change handler (app.js:374-381). */
    method SelectRegions(values: seq<Option<string>>)
      modifies this
      ensures lastChanged == RegionsField
      ensures (regions, activities) == Enforced(values, old(activities), RegionsField)
      ensures regions == values
      ensures Valid()
      ensures indicator == old(indicator) && period == old(period) && unit == old(unit)
    {
      regions := values;
      lastChanged := RegionsField;
      EnforceSelectionRules();
    }

    /** The activity picker's change handler (app.js:391-398). */
    method SelectActivities(values: seq<Option<string>>)
      modifies this
      ensures lastChanged == ActivitiesField
      ensures (regions, activities) == Enforced(old(regions), values, ActivitiesField)
      ensures activities == values
      ensures Valid()
      ensures indicator == old(indicator) && period == old(period) && unit == old(unit)
    {
      activities := values;
      lastChanged := ActivitiesField;
      EnforceSelectionRules();
    }

    /** `toggleRegionSelection` (app.js:604-618). */
    method ToggleRegion(code: Option<string>)
      modifies this
      ensures lastChanged == RegionsField
      ensures (regions, activities) == Enforced(Toggled(old(regions), code), old(activities), RegionsField)
      ensures regions == Toggled(old(regions), code)
      ensures Valid()
      ensures indicator == old(indicator) && period == old(period) && unit == old(unit)
    {
      var selected := Dedup(regions);
      if code in selected {
        selected := Remove(selected, code);
      } else {
        selected := selected + [code];
      }
      lastChanged := RegionsField;
      regions := SortCodes(selected);
      EnforceSelectionRules();
    }

    /** The swap in `updateSliderVisuals` (app.js:435-445), given the two slider values. */
    method UpdatePeriod(startValue: int, endValue: int)
      modifies this
      ensures period == SwappedPeriod(startValue, endValue)
      ensures indicator == old(indicator) && regions == old(regions) && activities == old(activities)
      ensures unit == old(unit) && lastChanged == old(lastChanged)
    {
      var start := startValue;
      var end := endValue;
      if start > end {
        start, end := end, start;
      }
      period := (Some(start), Some(end));
    }
  }
}
