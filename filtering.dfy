/**
 * The filter engine: boolean-mask row selection (`frame[mask]`), the three
 * masks the sidebar selections build, the staged filter that rebinds
 * `filtered_data` three times, and the single conjunction it is proved equal
 * to. The sidebar widgets are modelled by their results, a `Criteria` value.
 */
module Filtering {
  import opened Wrappers
  import opened Keys
  import opened Records

  /** The gender choice that disables the gender filter. */
  const AllGenders: string := "All"

  /** The options of the gender select box, the first one being its default. */
  const GenderOptions: seq<string> := [AllGenders, Male, Female]

  /** The sidebar selections: chosen providers and conditions (multiselects),
      the gender choice (select box) and the two ends of the age slider. */
  datatype Criteria = Criteria(
    providers: seq<string>,
    conditions: seq<string>,
    gender: string,
    ageLow: int,
    ageHigh: int)

  /** The four conditions a row must meet to be shown. */
  predicate Matches(c: Criteria, r: Record) {
    && r.insuranceProvider in c.providers
    && r.medicalCondition in c.conditions
    && (c.gender == AllGenders || r.gender == c.gender)
    && c.ageLow <= r.age <= c.ageHigh
  }

  // ---------------------------------------------------------------------
  // Boolean-mask selection

  /** How many rows the mask keeps. */
  function Count(rows: seq<Record>, keep: Record -> bool): (n: nat)
    ensures n <= |rows|
  {
    if rows == [] then 0
    else Count(rows[..|rows| - 1], keep) + (if keep(rows[|rows| - 1]) then 1 else 0)
  }

  /** `frame[mask]`: the rows for which the mask holds, in their original order. */
  function Select(rows: seq<Record>, keep: Record -> bool): (out: seq<Record>)
    ensures |out| == Count(rows, keep)
    ensures forall x :: x in out ==> x in rows && keep(x)
  {
    if rows == [] then []
    else
      var last := rows[|rows| - 1];
      assert rows == rows[..|rows| - 1] + [last];
      Select(rows[..|rows| - 1], keep) + (if keep(last) then [last] else [])
  }

  /** The row positions at which the mask holds, in increasing order. */
  function Positions(rows: seq<Record>, keep: Record -> bool): (ps: seq<nat>)
    ensures forall k :: 0 <= k < |ps| ==> ps[k] < |rows| && keep(rows[ps[k]])
    ensures forall k1, k2 :: 0 <= k1 < k2 < |ps| ==> ps[k1] < ps[k2]
    ensures forall i :: 0 <= i < |rows| && keep(rows[i]) ==> i in ps
  {
    if rows == [] then []
    else
      var n := |rows| - 1;
      var init := Positions(rows[..n], keep);
      assert forall i :: 0 <= i < n ==> rows[..n][i] == rows[i];
      init + (if keep(rows[n]) then [n] else [])
  }

  /** The selection is exactly the rows at the mask's positions, so it keeps
      their order and leaves each row unchanged. */
  lemma {:induction false} SelectAtPositions(rows: seq<Record>, keep: Record -> bool)
    ensures |Select(rows, keep)| == |Positions(rows, keep)|
    ensures forall k :: 0 <= k < |Positions(rows, keep)| ==>
      Select(rows, keep)[k] == rows[Positions(rows, keep)[k]]
  {
    if rows != [] {
      var n := |rows| - 1;
      var init := rows[..n];
      SelectAtPositions(init, keep);
      var out, ps := Select(rows, keep), Positions(rows, keep);
      var out', ps' := Select(init, keep), Positions(init, keep);
      assert out == out' + (if keep(rows[n]) then [rows[n]] else []);
      assert ps == ps' + (if keep(rows[n]) then [n] else []);
      forall k | 0 <= k < |ps|
        ensures out[k] == rows[ps[k]]
      {
        if k < |ps'| {
          assert out[k] == out'[k] == init[ps'[k]];
        }
      }
    }
  }

  /** Every row for which the mask holds is selected. */
  lemma {:induction false} SelectComplete(rows: seq<Record>, keep: Record -> bool, x: Record)
    requires x in rows && keep(x)
    ensures x in Select(rows, keep)
  {
    var n := |rows| - 1;
    if rows[n] != x {
      assert rows == rows[..n] + [rows[n]];
      SelectComplete(rows[..n], keep, x);
    }
  }

  /** A mask that holds on every row selects the whole frame. */
  lemma {:induction false} SelectAll(rows: seq<Record>, keep: Record -> bool)
    requires forall x :: x in rows ==> keep(x)
    ensures Select(rows, keep) == rows
  {
    if rows != [] {
      var n := |rows| - 1;
      assert rows == rows[..n] + [rows[n]];
      SelectAll(rows[..n], keep);
    }
  }

  /** A mask that holds on no row selects nothing. */
  lemma {:induction false} SelectNone(rows: seq<Record>, keep: Record -> bool)
    requires forall x :: x in rows ==> !keep(x)
    ensures Select(rows, keep) == []
  {
    if Select(rows, keep) != [] {
      assert Select(rows, keep)[0] in Select(rows, keep);
    }
  }

  /** Selection distributes over concatenation of frames. */
  lemma {:induction false} SelectAppend(a: seq<Record>, b: seq<Record>, keep: Record -> bool)
    ensures Select(a + b, keep) == Select(a, keep) + Select(b, keep)
  {
    if b != [] {
      var n := |b| - 1;
      assert (a + b)[..|a + b| - 1] == a + b[..n];
      assert (a + b)[|a + b| - 1] == b[n];
      SelectAppend(a, b[..n], keep);
      var t := if keep(b[n]) then [b[n]] else [];
      assert Select(a + b, keep) == Select(a + b[..n], keep) + t;
      assert Select(b, keep) == Select(b[..n], keep) + t;
    } else {
      assert a + b == a;
    }
  }

  /** `mask1 & mask2` on its own rows. */
  function Both(p: Record -> bool, q: Record -> bool): Record -> bool {
    (r: Record) => p(r) && q(r)
  }

  /** Selecting with one mask and then another is selecting with their conjunction. */
  lemma {:induction false} SelectComposes(rows: seq<Record>, p: Record -> bool, q: Record -> bool)
    ensures Select(Select(rows, p), q) == Select(rows, Both(p, q))
  {
    if rows != [] {
      var n := |rows| - 1;
      var last := rows[n];
      SelectComposes(rows[..n], p, q);
      SelectAppend(Select(rows[..n], p), if p(last) then [last] else [], q);
      if p(last) {
        assert Select([last], q) == Select([], q) + (if q(last) then [last] else []);
      }
    }
  }

  /** Masks that agree on every row select the same rows. */
  lemma {:induction false} SelectCongruent(rows: seq<Record>, p: Record -> bool, q: Record -> bool)
    requires forall x :: x in rows ==> p(x) == q(x)
    ensures Select(rows, p) == Select(rows, q)
  {
    if rows != [] {
      var n := |rows| - 1;
      assert rows == rows[..n] + [rows[n]];
      SelectCongruent(rows[..n], p, q);
    }
  }

  // ---------------------------------------------------------------------
  // The dashboard's filter

  /** `isin(insurance_provider_filter) & isin(medical_condition_filter)` */
  function ProviderAndConditionMask(c: Criteria): (keep: Record -> bool)
    ensures forall r :: keep(r) <==> r.insuranceProvider in c.providers && r.medicalCondition in c.conditions
  {
    (r: Record) => r.insuranceProvider in c.providers && r.medicalCondition in c.conditions
  }

  /** `filtered_data['gender'] == gender_filter` */
  function GenderMask(g: string): (keep: Record -> bool)
    ensures forall r :: keep(r) <==> r.gender == g
  {
    (r: Record) => r.gender == g
  }

  /** `(filtered_data['age'] >= age_range[0]) & (filtered_data['age'] <= age_range[1])` */
  function AgeMask(low: int, high: int): (keep: Record -> bool)
    ensures forall r :: keep(r) <==> low <= r.age <= high
  {
    (r: Record) => r.age >= low && r.age <= high
  }

  /** The single conjunction of the four conditions, as one mask. */
  function Conjunction(c: Criteria): Record -> bool {
    (r: Record) => Matches(c, r)
  }

  /** The rows the dashboard shows: those meeting all four conditions, in order. */
  function Filtered(data: seq<Record>, c: Criteria): seq<Record> {
    Select(data, Conjunction(c))
  }

  /** The staged filter: provider/condition mask, then the gender mask unless
      the choice is "All", then the age mask, each stage rebinding the result.
      It computes the single conjunction, and the patient count shown is its
      length. */
  method ApplyFilters(data: seq<Record>, c: Criteria) returns (filtered: seq<Record>)
    ensures filtered == Filtered(data, c)
    ensures |filtered| == Count(data, Conjunction(c)) <= |data|
  {
    filtered := Select(data, ProviderAndConditionMask(c));
    ghost var mask := ProviderAndConditionMask(c);
    if c.gender != AllGenders {
      SelectComposes(data, mask, GenderMask(c.gender));
      filtered := Select(filtered, GenderMask(c.gender));
      mask := Both(mask, GenderMask(c.gender));
    }
    SelectComposes(data, mask, AgeMask(c.ageLow, c.ageHigh));
    filtered := Select(filtered, AgeMask(c.ageLow, c.ageHigh));
    SelectCongruent(data, Both(mask, AgeMask(c.ageLow, c.ageHigh)), Conjunction(c));
  }

  /** Soundness and completeness: a row is shown exactly when it is a row of
      the data that meets all four conditions. */
  lemma FilteredMembers(data: seq<Record>, c: Criteria, x: Record)
    ensures x in Filtered(data, c) <==> x in data && Matches(c, x)
  {
    if x in data && Matches(c, x) {
      SelectComplete(data, Conjunction(c), x);
    }
  }

  /** The shown rows are the data's rows at the increasing positions of the
      matching rows: order is kept and no row is altered. */
  lemma {:induction false} FilteredKeepsOrder(data: seq<Record>, c: Criteria)
    ensures var ps := Positions(data, Conjunction(c));
      && |Filtered(data, c)| == |ps|
      && (forall k :: 0 <= k < |ps| ==> Filtered(data, c)[k] == data[ps[k]])
      && (forall k1, k2 :: 0 <= k1 < k2 < |ps| ==> ps[k1] < ps[k2])
      && (forall i :: 0 <= i < |data| ==> (i in ps <==> Matches(c, data[i])))
  {
    SelectAtPositions(data, Conjunction(c));
  }

  /** Filtering the shown rows again with the same selections changes nothing. */
  lemma FilteredIdempotent(data: seq<Record>, c: Criteria)
    ensures Filtered(Filtered(data, c), c) == Filtered(data, c)
  {
    SelectComposes(data, Conjunction(c), Conjunction(c));
    SelectCongruent(data, Both(Conjunction(c), Conjunction(c)), Conjunction(c));
  }

  /** `isin` of an empty selection holds for no row: deselecting every
      provider or every condition empties the result; it does not disable
      that filter. */
  lemma EmptySelectionShowsNothing(data: seq<Record>, c: Criteria)
    requires c.providers == [] || c.conditions == []
    ensures Filtered(data, c) == []
  {
    SelectNone(data, Conjunction(c));
  }

  /** An age range whose ends are inverted is not rejected; it shows nothing. */
  lemma InvertedAgeRangeShowsNothing(data: seq<Record>, c: Criteria)
    requires c.ageLow > c.ageHigh
    ensures Filtered(data, c) == []
  {
    SelectNone(data, Conjunction(c));
  }

  // ---------------------------------------------------------------------
  // Widget domains and defaults

  /** `Series.unique()`: the distinct values, each once, in order of first appearance. */
  function Unique(vals: seq<string>): (u: seq<string>)
    ensures Distinct(u)
    ensures forall x :: x in u <==> x in vals
  {
    if vals == [] then []
    else
      var n := |vals| - 1;
      var init := Unique(vals[..n]);
      assert vals == vals[..n] + [vals[n]];
      if vals[n] in init then init else init + [vals[n]]
  }

  /** `Series.min()` of a non-empty integer column. */
  function Min(s: seq<int>): (m: int)
    requires s != []
    ensures m in s && forall x :: x in s ==> m <= x
  {
    if |s| == 1 then s[0]
    else
      var n := |s| - 1;
      assert s == s[..n] + [s[n]];
      var m := Min(s[..n]);
      if s[n] < m then s[n] else m
  }

  /** `Series.max()` of a non-empty integer column. */
  function Max(s: seq<int>): (m: int)
    requires s != []
    ensures m in s && forall x :: x in s ==> x <= m
  {
    if |s| == 1 then s[0]
    else
      var n := |s| - 1;
      assert s == s[..n] + [s[n]];
      var m := Max(s[..n]);
      if s[n] > m then s[n] else m
  }

  /** The selections the sidebar starts with: every provider and every
      condition that occurs, "All" genders, and the slider spanning the
      youngest to the oldest age. On an empty frame the age bounds are NaN
      and converting them with `int` raises. */
  function DefaultCriteria(data: seq<Record>): (r: Result<Criteria, DashboardError>)
    ensures r.Err? <==> data == []
    ensures r.Err? ==> r.error == EmptyAgeColumn
    ensures r.Ok? ==> Distinct(r.value.providers) && Distinct(r.value.conditions)
    ensures r.Ok? ==> forall x :: x in r.value.providers <==> x in Values(data, InsuranceProvider)
    ensures r.Ok? ==> forall x :: x in r.value.conditions <==> x in Values(data, MedicalCondition)
    ensures r.Ok? ==> r.value.gender == GenderOptions[0]
    ensures r.Ok? ==> r.value.ageLow in Ages(data) && r.value.ageHigh in Ages(data)
    ensures r.Ok? ==> forall a :: a in Ages(data) ==> r.value.ageLow <= a <= r.value.ageHigh
    ensures r.Ok? ==> r.value.ageLow <= r.value.ageHigh
  {
    if data == [] then Err(EmptyAgeColumn)
    else
      Ok(Criteria(
        Unique(Values(data, InsuranceProvider)),
        Unique(Values(data, MedicalCondition)),
        AllGenders,
        Min(Ages(data)),
        Max(Ages(data))))
  }

  /** With the default selections every row is shown, the rows at the age
      bounds included. */
  lemma DefaultsShowEverything(data: seq<Record>)
    requires data != []
    ensures DefaultCriteria(data).Ok?
    ensures Filtered(data, DefaultCriteria(data).value) == data
  {
    var c := DefaultCriteria(data).value;
    var providers, conditions, ages := Values(data, InsuranceProvider), Values(data, MedicalCondition), Ages(data);
    forall x | x in data
      ensures Matches(c, x)
    {
      var i :| 0 <= i < |data| && data[i] == x;
      assert providers[i] == x.insuranceProvider;
      assert conditions[i] == x.medicalCondition;
      assert ages[i] == x.age;
      assert x.age in ages;
    }
    SelectAll(data, Conjunction(c));
  }
}
