/** Keyword search: a blank query selects every record; otherwise the query
    tokens are combined with boolean AND over their posting sets. */
module Keyword {
  import opened Text
  import opened Tokenizer
  import opened Records
  import opened Index

  /** The one way `search_keyword` fails: a query that is not blank but
      holds no token reaches `tokens[0]` on an empty list (an IndexError). */
  datatype SearchError = NoQueryTokens

  datatype Result<T> = Ok(value: T) | Err(error: SearchError)

  /** `list(range(n))`. */
  function Range(n: nat): (r: seq<nat>)
    ensures |r| == n
  {
    seq(n, i requires 0 <= i < n => i)
  }

  /** The posting sets of `tokens` intersected from left to right, as the loop
      over `tokens[1:]` narrows the first token's set. */
  function Conjunction(index: InvertedIndex, tokens: seq<string>): (r: set<nat>)
    requires |tokens| > 0
    ensures forall k :: 0 <= k < |tokens| ==> r <= Posting(index, tokens[k])
    decreases |tokens|
  {
    if |tokens| == 1 then Posting(index, tokens[0])
    else
      var front := tokens[..|tokens| - 1];
      assert forall k :: 0 <= k < |front| ==> front[k] == tokens[k];
      Conjunction(index, front) * Posting(index, tokens[|tokens| - 1])
  }

  /** Boolean AND: a position survives exactly when it is posted under every
      query token. */
  lemma {:induction false} ConjunctionMembers(index: InvertedIndex, tokens: seq<string>, p: nat)
    requires |tokens| > 0
    ensures p in Conjunction(index, tokens) <==> forall k :: 0 <= k < |tokens| ==> p in Posting(index, tokens[k])
    decreases |tokens|
  {
    if |tokens| > 1 {
      var front := tokens[..|tokens| - 1];
      ConjunctionMembers(index, front, p);
      assert forall k :: 0 <= k < |front| ==> front[k] == tokens[k];
    }
  }

  /** The order of the query tokens and their repetition do not matter: two
      queries with the same set of tokens select the same positions. */
  lemma ConjunctionSetwise(index: InvertedIndex, a: seq<string>, b: seq<string>)
    requires |a| > 0 && |b| > 0
    requires forall t :: t in a <==> t in b
    ensures Conjunction(index, a) == Conjunction(index, b)
  {
    forall p ensures p in Conjunction(index, a) <==> p in Conjunction(index, b) {
      ConjunctionMembers(index, a, p);
      ConjunctionMembers(index, b, p);
      assert (forall k :: 0 <= k < |a| ==> p in Posting(index, a[k]))
        <==> (forall k :: 0 <= k < |b| ==> p in Posting(index, b[k])) by {
        if forall k :: 0 <= k < |a| ==> p in Posting(index, a[k]) {
          forall k | 0 <= k < |b| ensures p in Posting(index, b[k]) {
            assert b[k] in a;
          }
        }
        if forall k :: 0 <= k < |b| ==> p in Posting(index, b[k]) {
          forall k | 0 <= k < |a| ensures p in Posting(index, a[k]) {
            assert a[k] in b;
          }
        }
      }
    }
  }

  /** AND over a concatenated query is the intersection of the two parts. */
  lemma ConjunctionAppend(index: InvertedIndex, a: seq<string>, b: seq<string>)
    requires |a| > 0 && |b| > 0
    ensures Conjunction(index, a + b) == Conjunction(index, a) * Conjunction(index, b)
  {
    forall p ensures p in Conjunction(index, a + b) <==> p in Conjunction(index, a) * Conjunction(index, b) {
      ConjunctionMembers(index, a + b, p);
      ConjunctionMembers(index, a, p);
      ConjunctionMembers(index, b, p);
      assert forall k :: 0 <= k < |a| ==> (a + b)[k] == a[k];
      assert forall k :: 0 <= k < |b| ==> (a + b)[|a| + k] == b[k];
      if p in Conjunction(index, a) * Conjunction(index, b) {
        forall k | 0 <= k < |a + b| ensures p in Posting(index, (a + b)[k]) {
          if k >= |a| {
            assert (a + b)[k] == b[k - |a|];
          }
        }
      }
    }
  }

  /** A token that no record holds empties the result. */
  lemma ConjunctionUnknownToken(index: InvertedIndex, tokens: seq<string>, k: nat)
    requires k < |tokens| && tokens[k] !in index
    ensures Conjunction(index, tokens) == {}
  {
    forall p | p in Conjunction(index, tokens) ensures false {
      ConjunctionMembers(index, tokens, p);
    }
  }

  /** Against the index of the corpus, the result is exactly the positions of
      the records whose search text holds every query token. */
  lemma ConjunctionMatches(index: InvertedIndex, data: seq<Record>, tokens: seq<string>, p: nat)
    requires IsIndexOf(index, data) && |tokens| > 0
    ensures p in Conjunction(index, tokens) <==>
      p < |data| && forall k :: 0 <= k < |tokens| ==> tokens[k] in DocTokens(data[p])
  {
    ConjunctionMembers(index, tokens, p);
    if p in Conjunction(index, tokens) {
      assert p in Posting(index, tokens[0]);
    }
  }

  /** A blank query holds no token: whitespace is never a word character. */
  lemma BlankHasNoTokens(query: string)
    requires IsBlank(query)
    ensures Tokenize(query) == []
  {
    assert forall i :: 0 <= i < |Lower(query)| ==> Lower(query)[i] == query[i];
    RunsWithoutWordChars(Lower(query));
  }

  lemma {:induction false} RunsWithoutWordChars(s: string)
    requires forall i :: 0 <= i < |s| ==> !IsWordChar(s[i])
    ensures Runs(s) == []
    decreases |s|
  {
    if s != [] {
      RunsWithoutWordChars(s[1..]);
    }
  }

  /** No element is listed twice. */
  predicate Distinct(xs: seq<nat>) {
    forall i, j :: 0 <= i < j < |xs| ==> xs[i] != xs[j]
  }

  /** `list(results)`: the elements of a set, each once, in an order the
      language leaves unspecified (here: whichever element is picked). */
  method ListOf(s: set<nat>) returns (xs: seq<nat>)
    ensures forall p :: p in xs <==> p in s
    ensures Distinct(xs)
  {
    xs := [];
    var rest := s;
    while rest != {}
      invariant forall p :: p in s <==> p in xs || p in rest
      invariant forall p :: p in xs ==> p !in rest
      invariant forall i, j :: 0 <= i < j < |xs| ==> xs[i] != xs[j]
      decreases rest
    {
      var p :| p in rest;
      xs := xs + [p];
      rest := rest - {p};
    }
  }

  /** `search_keyword(query)` against the corpus `data` and its index. */
  method SearchKeyword(data: seq<Record>, index: InvertedIndex, query: string)
    returns (r: Result<seq<nat>>)
    ensures IsBlank(query) ==> r == Ok(Range(|data|))
    ensures !IsBlank(query) && Tokenize(query) == [] ==> r == Err(NoQueryTokens)
    ensures !IsBlank(query) && Tokenize(query) != [] ==>
      && r.Ok?
      && (forall p :: p in r.value <==> p in Conjunction(index, Tokenize(query)))
      && Distinct(r.value)
  {
    if IsBlank(query) {
      return Ok(Range(|data|));
    }
    var tokens := Tokenize(query);
    if |tokens| == 0 {
      return Err(NoQueryTokens);
    }
    var results := Posting(index, tokens[0]);
    for k := 1 to |tokens|
      invariant results == Conjunction(index, tokens[..k])
    {
      assert tokens[..k + 1][..k] == tokens[..k];
      results := results * Posting(index, tokens[k]);
    }
    assert tokens[..|tokens|] == tokens;
    var positions := ListOf(results);
    r := Ok(positions);
  }

  /** The blank-query result lists every position once, in ascending order. */
  lemma RangeAscending(n: nat)
    ensures forall p :: p in Range(n) <==> 0 <= p < n
    ensures forall i, j :: 0 <= i < j < n ==> Range(n)[i] < Range(n)[j]
  {
    forall p | 0 <= p < n ensures p in Range(n) {
      assert Range(n)[p] == p;
    }
  }
}
