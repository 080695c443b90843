/** Field filters: the per-field predicates and `filter_results`, which keeps
    the candidate records that pass all seven of them, in candidate order. */
module Filters {
  import opened Text
  import opened Records

  /** `needle` matches `hay` at offset `k` letter for letter, ignoring the
      case of ASCII letters. */
  predicate MatchesAtIgnoringCase(hay: string, needle: string, k: nat)
    requires k + |needle| <= |hay|
  {
    forall i :: 0 <= i < |needle| ==> LowerChar(hay[k + i]) == LowerChar(needle[i])
  }

  /** `filter_exact(value, field_value)`: case-insensitive equality, for the
      controlled-vocabulary fields. An empty filter accepts every value. */
  predicate FilterExact(value: string, fieldValue: string): (b: bool)
    ensures value == "" ==> b
    ensures value != "" ==>
      (b <==> |value| == |fieldValue| && MatchesAtIgnoringCase(fieldValue, value, 0))
  {
    EqualIgnoringCase(value, fieldValue);
    value == "" || Lower(value) == Lower(fieldValue)
  }

  /** `filter_contains(text, field_value)`: case-insensitive substring test. */
  predicate FilterContains(text: string, fieldValue: string): (b: bool)
    ensures text == "" ==> b
    ensures text != "" ==>
      (b <==> exists k :: 0 <= k <= |fieldValue| - |text| && MatchesAtIgnoringCase(fieldValue, text, k))
  {
    ContainsIgnoringCase(fieldValue, text);
    text == "" || Contains(Lower(fieldValue), Lower(text))
  }

  /** `filter_list(text, values_list)`: some element of the list holds the
      text, case-insensitively. */
  predicate FilterList(text: string, values: seq<string>): (b: bool)
    ensures b <==> text == "" || exists i :: 0 <= i < |values| && FilterContains(text, values[i])
  {
    text == "" || exists i :: 0 <= i < |values| && Contains(Lower(values[i]), Lower(text))
  }

  /** `filter_field(text, field_value)`: an empty field fails a non-empty
      filter; otherwise case-insensitive substring test. On strings this is
      the same test as `filter_contains`: the extra empty-field branch only
      repeats what containment already answers. */
  predicate FilterField(text: string, fieldValue: string): (b: bool)
    ensures b == FilterContains(text, fieldValue)
  {
    if text == "" then true
    else if fieldValue == "" then false
    else Contains(Lower(fieldValue), Lower(text))
  }

  /** `filter_list_field(text, values_list)`: the text occurs in the list
      joined by single spaces, case-insensitively; that is `filter_contains`
      against the joined list. */
  predicate FilterListField(text: string, values: seq<string>): (b: bool)
    ensures b == FilterContains(text, Join(values))
  {
    text == "" || Contains(Lower(Join(values)), Lower(text))
  }

  /** Equality after lowercasing both sides is a case-insensitive
      letter-for-letter match of equally long strings. */
  lemma EqualIgnoringCase(a: string, b: string)
    ensures Lower(a) == Lower(b) <==> |a| == |b| && MatchesAtIgnoringCase(b, a, 0)
  {
    if |a| == |b| && MatchesAtIgnoringCase(b, a, 0) {
      assert forall i :: 0 <= i < |a| ==> Lower(a)[i] == Lower(b)[i];
    }
    if Lower(a) == Lower(b) {
      forall i | 0 <= i < |a| ensures LowerChar(b[0 + i]) == LowerChar(a[i]) {
        assert Lower(a)[i] == Lower(b)[i];
      }
    }
  }

  /** Substring search after lowercasing both sides is a case-insensitive
      letter-for-letter match at some offset. */
  lemma ContainsIgnoringCase(hay: string, needle: string)
    ensures Contains(Lower(hay), Lower(needle))
        <==> exists k :: 0 <= k <= |hay| - |needle| && MatchesAtIgnoringCase(hay, needle, k)
  {
    forall k | 0 <= k <= |hay| - |needle|
      ensures OccursAt(Lower(hay), Lower(needle), k) <==> MatchesAtIgnoringCase(hay, needle, k)
    {
      if MatchesAtIgnoringCase(hay, needle, k) {
        assert Lower(hay)[k..k + |needle|] == Lower(needle);
      }
      if OccursAt(Lower(hay), Lower(needle), k) {
        forall i | 0 <= i < |needle| ensures LowerChar(hay[k + i]) == LowerChar(needle[i]) {
          assert Lower(hay)[k..k + |needle|][i] == Lower(needle)[i];
        }
      }
    }
  }

  // ----- facts about substrings, lowercasing and joining -----

  lemma LowerSlice(s: string, a: nat, b: nat)
    requires a <= b <= |s|
    ensures Lower(s)[a..b] == Lower(s[a..b])
  {
  }

  /** Containment survives lowercasing both sides. */
  lemma ContainsLower(hay: string, needle: string)
    requires Contains(hay, needle)
    ensures Contains(Lower(hay), Lower(needle))
  {
    var k :| 0 <= k <= |hay| - |needle| && OccursAt(hay, needle, k);
    LowerSlice(hay, k, k + |needle|);
    assert OccursAt(Lower(hay), Lower(needle), k);
  }

  /** Containment is transitive. */
  lemma ContainsTrans(a: string, b: string, c: string)
    requires Contains(a, b) && Contains(b, c)
    ensures Contains(a, c)
  {
    var i :| 0 <= i <= |a| - |b| && OccursAt(a, b, i);
    var j :| 0 <= j <= |b| - |c| && OccursAt(b, c, j);
    var s := a[i + j..i + j + |c|];
    forall m | 0 <= m < |c| ensures s[m] == c[m] {
      assert s[m] == a[i + j + m] == a[i..i + |b|][j + m];
      assert c[m] == b[j..j + |c|][m] == b[j + m];
    }
    assert s == c;
    assert OccursAt(a, c, i + j);
  }

  /** Every element of a list occurs in the list joined by spaces. */
  lemma {:induction false} JoinContainsElement(values: seq<string>, i: nat)
    requires i < |values|
    ensures Contains(Join(values), values[i])
    decreases |values|
  {
    var j := Join(values);
    if |values| == 1 {
      assert OccursAt(j, values[0], 0);
    } else if i == 0 {
      assert j[0..|values[0]|] == values[0];
      assert OccursAt(j, values[0], 0);
    } else {
      var rest := Join(values[1..]);
      JoinContainsElement(values[1..], i - 1);
      var off := |values[0]| + 1;
      assert j[off..] == rest;
      assert OccursAt(j, rest, off) by { assert j[off..off + |rest|] == rest; }
      ContainsTrans(j, rest, values[i]);
    }
  }

  /** A string without a space that occurs in `a + " " + b` occurs in `a` or in `b`. */
  lemma ContainsAcrossSpace(a: string, b: string, x: string)
    requires Contains(a + " " + b, x) && ' ' !in x
    ensures Contains(a, x) || Contains(b, x)
  {
    var s := a + " " + b;
    var k :| 0 <= k <= |s| - |x| && OccursAt(s, x, k);
    assert forall m :: k <= m < k + |x| ==> s[m] != ' ' by {
      forall m | k <= m < k + |x| ensures s[m] != ' ' {
        assert s[m] == x[m - k];
        assert x[m - k] in x;
      }
    }
    assert s[|a|] == ' ';
    if k + |x| <= |a| {
      assert s[k..k + |x|] == a[k..k + |x|];
      assert OccursAt(a, x, k);
    } else {
      assert k > |a|;
      assert s[k..k + |x|] == b[k - |a| - 1..k - |a| - 1 + |x|];
      assert OccursAt(b, x, k - |a| - 1);
    }
  }

  function LowerAll(values: seq<string>): (r: seq<string>)
    ensures |r| == |values|
  {
    seq(|values|, i requires 0 <= i < |values| => Lower(values[i]))
  }

  lemma {:induction false} LowerJoin(values: seq<string>)
    ensures Lower(Join(values)) == Join(LowerAll(values))
    decreases |values|
  {
    if |values| == 0 {
    } else if |values| == 1 {
    } else {
      LowerJoin(values[1..]);
      assert LowerAll(values)[1..] == LowerAll(values[1..]);
      LowerAppend(values[0] + " ", Join(values[1..]));
      LowerAppend(values[0], " ");
    }
  }

  /** A string without a space that occurs in the joined list occurs in one
      of its elements. */
  lemma {:induction false} JoinedWithoutSpace(values: seq<string>, x: string)
    requires Contains(Join(values), x) && ' ' !in x && x != ""
    ensures exists i :: 0 <= i < |values| && Contains(values[i], x)
    decreases |values|
  {
    if |values| == 0 {
      assert false;
    } else if |values| == 1 {
      assert Contains(values[0], x);
    } else {
      ContainsAcrossSpace(values[0], Join(values[1..]), x);
      if !Contains(values[0], x) {
        JoinedWithoutSpace(values[1..], x);
        var i :| 0 <= i < |values[1..]| && Contains(values[1..][i], x);
        assert values[i + 1] == values[1..][i];
      }
    }
  }

  // ----- how the filters relate -----

  /** An empty filter text imposes no constraint, whatever the field holds. */
  lemma EmptyFilterAcceptsAll(fieldValue: string, values: seq<string>)
    ensures FilterExact("", fieldValue) && FilterContains("", fieldValue) && FilterField("", fieldValue)
    ensures FilterList("", values) && FilterListField("", values)
  {
  }

  /** An exact match is also a containment match. */
  lemma ExactImpliesContains(value: string, fieldValue: string)
    requires FilterExact(value, fieldValue)
    ensures FilterContains(value, fieldValue)
  {
    if value != "" {
      assert Lower(fieldValue)[0..|Lower(value)|] == Lower(value);
      assert OccursAt(Lower(fieldValue), Lower(value), 0);
    }
  }

  /** The per-element list test implies the joined-list test. */
  lemma ListImpliesListField(text: string, values: seq<string>)
    ensures FilterList(text, values) ==> FilterListField(text, values)
  {
    if text != "" && FilterList(text, values) {
      var i :| 0 <= i < |values| && Contains(Lower(values[i]), Lower(text));
      JoinContainsElement(values, i);
      ContainsLower(Join(values), values[i]);
      ContainsTrans(Lower(Join(values)), Lower(values[i]), Lower(text));
    }
  }

  /** For a filter text without a space, the two list tests agree. */
  lemma ListFieldWithoutSpaceImpliesList(text: string, values: seq<string>)
    requires FilterListField(text, values) && ' ' !in text
    ensures FilterList(text, values)
  {
    if text != "" {
      var x := Lower(text);
      assert ' ' !in x by {
        forall i | 0 <= i < |x| ensures x[i] != ' ' {
          assert x[i] == LowerChar(text[i]);
          assert text[i] in text;
        }
      }
      LowerJoin(values);
      JoinedWithoutSpace(LowerAll(values), x);
      var i :| 0 <= i < |values| && Contains(LowerAll(values)[i], x);
      assert LowerAll(values)[i] == Lower(values[i]);
    }
  }

  /** The two list tests differ when the text spans the separator: "a b"
      against ["a", "b"] passes the joined test and fails the per-element one. */
  lemma ListTestsDifferAcrossSeparator()
    ensures FilterListField("a b", ["a", "b"])
    ensures !FilterList("a b", ["a", "b"])
  {
    var values := ["a", "b"];
    assert Lower("a b") == "a b";
    assert Join(values) == "a b" by { assert values[1..] == ["b"]; }
    assert OccursAt(Lower(Join(values)), Lower("a b"), 0);
    forall i | 0 <= i < |values| ensures !Contains(Lower(values[i]), Lower("a b")) {
      assert |Lower(values[i])| == 1;
    }
  }

  /** Exact match and containment are different tests: "urban" is contained
      in "suburban area" but is not equal to it. */
  lemma ExactIsNotContainment()
    ensures !FilterExact("urban", "suburban area")
    ensures FilterContains("urban", "suburban area")
  {
    assert |Lower("urban")| != |Lower("suburban area")|;
    assert Lower("suburban area")[3..8] == Lower("urban") by {
      assert Lower("suburban area")[3..8] == "urban";
      assert Lower("urban") == "urban";
    }
    assert OccursAt(Lower("suburban area"), Lower("urban"), 3);
  }

  // ----- filter_results -----

  /** The seven filter values of one request; "" leaves a field unfiltered. */
  datatype FilterSet = FilterSet(
    sceneDesc: string,
    sceneInterp: string,
    spatial: string,
    arch: string,
    buildings: string,
    elements: string,
    persons: string)

  const NoFilters := FilterSet("", "", "", "", "", "", "")

  /** The seven tests of `filter_results` on one record. */
  predicate Passes(r: Record, f: FilterSet): (p: bool)
    ensures f == NoFilters ==> p
    ensures p ==> && FilterField(f.sceneDesc, r.sceneDescription)
                  && FilterField(f.sceneInterp, r.sceneInterpretation)
                  && FilterListField(f.buildings, r.buildingTypes)
                  && FilterListField(f.elements, r.architecturalElements)
                  && FilterListField(f.persons, r.persons)
  {
    ListImpliesListField(f.buildings, r.buildingTypes);
    ListImpliesListField(f.elements, r.architecturalElements);
    ListImpliesListField(f.persons, r.persons);
    && FilterContains(f.sceneDesc, r.sceneDescription)
    && FilterContains(f.sceneInterp, r.sceneInterpretation)
    && FilterExact(f.spatial, r.spatialContext)
    && FilterExact(f.arch, r.architecturalContext)
    && FilterList(f.buildings, r.buildingTypes)
    && FilterList(f.elements, r.architecturalElements)
    && FilterList(f.persons, r.persons)
  }

  /** `f2` is `f1` with zero or more further fields filtered. */
  predicate Refines(f1: FilterSet, f2: FilterSet) {
    && (f1.sceneDesc == "" || f1.sceneDesc == f2.sceneDesc)
    && (f1.sceneInterp == "" || f1.sceneInterp == f2.sceneInterp)
    && (f1.spatial == "" || f1.spatial == f2.spatial)
    && (f1.arch == "" || f1.arch == f2.arch)
    && (f1.buildings == "" || f1.buildings == f2.buildings)
    && (f1.elements == "" || f1.elements == f2.elements)
    && (f1.persons == "" || f1.persons == f2.persons)
  }

  /** The records of `rs` that pass `f`, in the order of `rs`. */
  function Keep(rs: seq<Record>, f: FilterSet): seq<Record>
    decreases |rs|
  {
    if rs == [] then []
    else Keep(rs[..|rs| - 1], f) + (if Passes(rs[|rs| - 1], f) then [rs[|rs| - 1]] else [])
  }

  predicate InRange(data: seq<Record>, indices: seq<nat>) {
    forall k :: 0 <= k < |indices| ==> indices[k] < |data|
  }

  /** `[DATA[idx] for idx in indices]`. */
  function Gather(data: seq<Record>, indices: seq<nat>): (rs: seq<Record>)
    requires InRange(data, indices)
    ensures |rs| == |indices|
  {
    seq(|indices|, k requires 0 <= k < |indices| => data[indices[k]])
  }

  /** `a` is a subsequence of `b`: `b` with some elements left out. */
  predicate IsSubsequence(a: seq<Record>, b: seq<Record>)
    decreases |b|
  {
    || a == []
    || (b != [] && (
         || (a[|a| - 1] == b[|b| - 1] && IsSubsequence(a[..|a| - 1], b[..|b| - 1]))
         || IsSubsequence(a, b[..|b| - 1])))
  }

  /** `filter_results(indices, ...)`: walk the candidates in order, skip a
      record at the first filter it fails, append it otherwise. */
  method FilterResults(data: seq<Record>, indices: seq<nat>, f: FilterSet) returns (final: seq<Record>)
    requires InRange(data, indices)
    ensures final == Keep(Gather(data, indices), f)
  {
    final := [];
    ghost var candidates := Gather(data, indices);
    for k := 0 to |indices|
      invariant final == Keep(candidates[..k], f)
    {
      var rec := data[indices[k]];
      assert candidates[..k + 1][..k] == candidates[..k] && candidates[k] == rec;
      if !FilterContains(f.sceneDesc, rec.sceneDescription) {
        continue;
      }
      if !FilterContains(f.sceneInterp, rec.sceneInterpretation) {
        continue;
      }
      if !FilterExact(f.spatial, rec.spatialContext) {
        continue;
      }
      if !FilterExact(f.arch, rec.architecturalContext) {
        continue;
      }
      if !FilterList(f.buildings, rec.buildingTypes) {
        continue;
      }
      if !FilterList(f.elements, rec.architecturalElements) {
        continue;
      }
      if !FilterList(f.persons, rec.persons) {
        continue;
      }
      final := final + [rec];
    }
    assert candidates[..|indices|] == candidates;
  }

  /** Exactly the records of `rs` that pass every filter are kept. */
  lemma {:induction false} KeepMembers(rs: seq<Record>, f: FilterSet, r: Record)
    ensures r in Keep(rs, f) <==> r in rs && Passes(r, f)
    decreases |rs|
  {
    if rs != [] {
      var init := rs[..|rs| - 1];
      KeepMembers(init, f, r);
      assert rs == init + [rs[|rs| - 1]];
    }
  }

  /** Filtering keeps the order of the candidates: the result is a
      subsequence of the candidate records. */
  lemma {:induction false} KeepIsSubsequence(rs: seq<Record>, f: FilterSet)
    ensures IsSubsequence(Keep(rs, f), rs)
    decreases |rs|
  {
    if rs != [] {
      var init := rs[..|rs| - 1];
      KeepIsSubsequence(init, f);
      var a := Keep(rs, f);
      assert rs[..|rs| - 1] == init;
      if Passes(rs[|rs| - 1], f) {
        assert a == Keep(init, f) + [rs[|rs| - 1]];
        assert a[..|a| - 1] == Keep(init, f);
        assert a[|a| - 1] == rs[|rs| - 1];
      } else {
        assert a == Keep(init, f);
      }
    }
  }

  /** With every filter empty the candidates come back unchanged. */
  lemma {:induction false} KeepNoFilters(rs: seq<Record>)
    ensures Keep(rs, NoFilters) == rs
    decreases |rs|
  {
    if rs != [] {
      KeepNoFilters(rs[..|rs| - 1]);
    }
  }

  /** Filtering by a refinement of `f1` is filtering `f1`'s result again. */
  lemma {:induction false} KeepTwice(rs: seq<Record>, f1: FilterSet, f2: FilterSet)
    requires Refines(f1, f2)
    ensures Keep(Keep(rs, f1), f2) == Keep(rs, f2)
    decreases |rs|
  {
    if rs != [] {
      var init, last := rs[..|rs| - 1], rs[|rs| - 1];
      KeepTwice(init, f1, f2);
      var k1 := Keep(init, f1);
      if Passes(last, f1) {
        assert Keep(rs, f1) == k1 + [last];
        assert (k1 + [last])[..|k1|] == k1;
      } else {
        assert Keep(rs, f1) == k1;
        assert !Passes(last, f2);
        assert Keep(rs, f2) == Keep(init, f2);
      }
    }
  }

  /** Adding a non-empty filter can only shrink the result: the refined result
      is a subsequence of the coarser one. */
  lemma AddingFiltersShrinks(rs: seq<Record>, f1: FilterSet, f2: FilterSet)
    requires Refines(f1, f2)
    ensures IsSubsequence(Keep(rs, f2), Keep(rs, f1))
  {
    KeepTwice(rs, f1, f2);
    KeepIsSubsequence(Keep(rs, f1), f2);
  }
}
