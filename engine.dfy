/** One search request without its HTTP side: keyword resolution followed by
    the field filters, over a corpus and the inverted index built from it. */
module Engine {
  import opened Tokenizer
  import opened Text
  import opened Records
  import opened Index
  import opened Keyword
  import opened Filters

  /** The record holds every token of the query in its search text. */
  predicate MatchesAll(r: Record, tokens: seq<string>) {
    forall k :: 0 <= k < |tokens| ==> tokens[k] in DocTokens(r)
  }

  /** `rs` is the filtered list of the records at the positions of the
      corpus whose records hold every token, each position taken once, in
      some order. */
  ghost predicate FilteredMatches(data: seq<Record>, tokens: seq<string>, f: FilterSet, rs: seq<Record>) {
    exists ps: seq<nat> ::
      && InRange(data, ps)
      && Distinct(ps)
      && (forall p: nat :: p in ps <==> p < |data| && MatchesAll(data[p], tokens))
      && rs == Keep(Gather(data, ps), f)
  }

  /** `search_keyword(query)` then `filter_results(indices, ...)`: the list
      `results_all` that the page is cut from. For a query with tokens it is
      the filtered records at the matching positions, each position taken
      once, in an order the set iteration of `search_keyword` decides. */
  method Search(data: seq<Record>, index: InvertedIndex, query: string, f: FilterSet)
    returns (r: Result<seq<Record>>)
    requires IsIndexOf(index, data)
    ensures IsBlank(query) ==> r == Ok(Keep(data, f))
    ensures !IsBlank(query) && Tokenize(query) == [] ==> r == Err(NoQueryTokens)
    ensures !IsBlank(query) && Tokenize(query) != [] ==>
      && r.Ok?
      && FilteredMatches(data, Tokenize(query), f, r.value)
      && forall rec :: rec in r.value <==>
           Passes(rec, f) && exists p :: 0 <= p < |data| && data[p] == rec && MatchesAll(data[p], Tokenize(query))
  {
    var keyword := SearchKeyword(data, index, query);
    if keyword.Err? {
      return Err(keyword.error);
    }
    var positions := keyword.value;
    if IsBlank(query) {
      GatherAll(data);
      var results := FilterResults(data, positions, f);
      return Ok(results);
    }
    var tokens := Tokenize(query);
    KeywordResult(data, index, tokens, f, positions);
    var results := FilterResults(data, positions, f);
    r := Ok(results);
  }

  /** Gathering every position in order gives back the corpus. */
  lemma GatherAll(data: seq<Record>)
    ensures InRange(data, Range(|data|))
    ensures Gather(data, Range(|data|)) == data
  {
  }

  /** Filtering the records at the positions keyword search lists for a
      query with tokens is the filtered list of the matching records. */
  lemma KeywordResult(data: seq<Record>, index: InvertedIndex, tokens: seq<string>, f: FilterSet, ps: seq<nat>)
    requires IsIndexOf(index, data) && |tokens| > 0
    requires forall p :: p in ps <==> p in Conjunction(index, tokens)
    requires Distinct(ps)
    ensures InRange(data, ps)
    ensures FilteredMatches(data, tokens, f, Keep(Gather(data, ps), f))
    ensures forall rec :: rec in Keep(Gather(data, ps), f) <==>
      Passes(rec, f) && exists p :: 0 <= p < |data| && data[p] == rec && MatchesAll(data[p], tokens)
  {
    KeywordPositions(data, index, tokens, ps);
    KeptAtMatches(data, ps, f, tokens);
  }

  /** Against the corpus's index, the positions keyword search lists are the
      positions of the records that hold every query token. */
  lemma KeywordPositions(data: seq<Record>, index: InvertedIndex, tokens: seq<string>, ps: seq<nat>)
    requires IsIndexOf(index, data) && |tokens| > 0
    requires forall p :: p in ps <==> p in Conjunction(index, tokens)
    ensures InRange(data, ps)
    ensures forall p: nat :: p in ps <==> p < |data| && MatchesAll(data[p], tokens)
  {
    forall p: nat ensures p in ps <==> p < |data| && MatchesAll(data[p], tokens) {
      ConjunctionMatches(index, data, tokens, p);
    }
    forall k | 0 <= k < |ps| ensures ps[k] < |data| {
      assert ps[k] in ps;
    }
  }

  /** Filtering the records at exactly the matching positions keeps exactly
      the matching records that pass the filters. */
  lemma KeptAtMatches(data: seq<Record>, ps: seq<nat>, f: FilterSet, tokens: seq<string>)
    requires InRange(data, ps)
    requires forall p: nat :: p in ps <==> p < |data| && MatchesAll(data[p], tokens)
    ensures forall rec :: rec in Keep(Gather(data, ps), f) <==>
      Passes(rec, f) && exists p :: 0 <= p < |data| && data[p] == rec && MatchesAll(data[p], tokens)
  {
    var candidates := Gather(data, ps);
    forall rec ensures rec in Keep(candidates, f) <==>
      Passes(rec, f) && exists p :: 0 <= p < |data| && data[p] == rec && MatchesAll(data[p], tokens)
    {
      KeepMembers(candidates, f, rec);
      if rec in candidates {
        var k :| 0 <= k < |candidates| && candidates[k] == rec;
        assert ps[k] in ps;
      }
      if exists p :: 0 <= p < |data| && data[p] == rec && MatchesAll(data[p], tokens) {
        var p :| 0 <= p < |data| && data[p] == rec && MatchesAll(data[p], tokens);
        var k :| 0 <= k < |ps| && ps[k] == p;
        assert candidates[k] == rec;
      }
    }
  }

  /** The positions among `ps` whose records pass the filters. */
  function PassingPositions(data: seq<Record>, ps: seq<nat>, f: FilterSet): set<nat>
    requires InRange(data, ps)
  {
    set k | 0 <= k < |ps| && Passes(data[ps[k]], f) :: ps[k]
  }

  /** Filtering the records at distinct positions keeps one record for each
      position whose record passes. */
  lemma {:induction false} KeepGatherCount(data: seq<Record>, ps: seq<nat>, f: FilterSet)
    requires InRange(data, ps) && Distinct(ps)
    ensures |Keep(Gather(data, ps), f)| == |PassingPositions(data, ps, f)|
    decreases |ps|
  {
    if ps != [] {
      var n := |ps|;
      var init, last := ps[..n - 1], ps[n - 1];
      assert forall k :: 0 <= k < n - 1 ==> init[k] == ps[k];
      KeepGatherCount(data, init, f);
      KeepGatherSnoc(data, ps, f);
      PassingPositionsSnoc(data, ps, f);
    }
  }

  /** Filtering the records at `ps` is filtering those at all but the last
      position, then the last record if it passes. */
  lemma KeepGatherSnoc(data: seq<Record>, ps: seq<nat>, f: FilterSet)
    requires InRange(data, ps) && ps != []
    ensures var last := data[ps[|ps| - 1]];
      Keep(Gather(data, ps), f)
        == Keep(Gather(data, ps[..|ps| - 1]), f) + (if Passes(last, f) then [last] else [])
  {
    var g := Gather(data, ps);
    assert g[..|ps| - 1] == Gather(data, ps[..|ps| - 1]);
  }

  /** The passing positions of `ps` are those of all but its last element,
      plus the last one if it passes; with distinct positions it is new. */
  lemma PassingPositionsSnoc(data: seq<Record>, ps: seq<nat>, f: FilterSet)
    requires InRange(data, ps) && Distinct(ps) && ps != []
    ensures var n := |ps|;
      && ps[n - 1] !in PassingPositions(data, ps[..n - 1], f)
      && PassingPositions(data, ps, f)
         == PassingPositions(data, ps[..n - 1], f) + (if Passes(data[ps[n - 1]], f) then {ps[n - 1]} else {})
  {
    var n := |ps|;
    var init, last := ps[..n - 1], ps[n - 1];
    var before, after := PassingPositions(data, init, f), PassingPositions(data, ps, f);
    forall x | x in before ensures x in after && x != last {
      var k :| 0 <= k < n - 1 && Passes(data[init[k]], f) && init[k] == x;
      assert ps[k] == x;
    }
    forall x | x in after ensures x in before || (x == last && Passes(data[last], f)) {
      var k :| 0 <= k < n && Passes(data[ps[k]], f) && ps[k] == x;
      if k < n - 1 {
        assert init[k] == x;
      }
    }
  }

  /** The length of `results_all` for a query with tokens (`total_results`)
      is the number of corpus positions whose records hold every token and
      pass the filters, whatever order the positions were listed in. */
  lemma ResultCount(data: seq<Record>, tokens: seq<string>, f: FilterSet, rs: seq<Record>)
    requires FilteredMatches(data, tokens, f, rs)
    ensures |rs| == |set p: nat | p < |data| && MatchesAll(data[p], tokens) && Passes(data[p], f)|
  {
    var ps :| && InRange(data, ps)
              && Distinct(ps)
              && (forall p: nat :: p in ps <==> p < |data| && MatchesAll(data[p], tokens))
              && rs == Keep(Gather(data, ps), f);
    KeepGatherCount(data, ps, f);
    assert PassingPositions(data, ps, f) == set p: nat | p < |data| && MatchesAll(data[p], tokens) && Passes(data[p], f) by {
      forall p: nat | p < |data| && MatchesAll(data[p], tokens) && Passes(data[p], f)
        ensures p in PassingPositions(data, ps, f)
      {
        var k :| 0 <= k < |ps| && ps[k] == p;
      }
      forall k | 0 <= k < |ps| ensures ps[k] < |data| && MatchesAll(data[ps[k]], tokens) {
        assert ps[k] in ps;
      }
    }
  }
}
