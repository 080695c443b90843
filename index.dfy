/** The inverted index: token to the set of positions of the records whose
    search text holds that token. */
module Index {
  import opened Records

  type InvertedIndex = map<string, set<nat>>

  /** Token `t` is a token of the record at position `p`. */
  predicate Occurs(data: seq<Record>, p: int, t: string) {
    0 <= p < |data| && t in DocTokens(data[p])
  }

  /** `INDEX.get(t, set())`: the posting set of `t`, empty for an unseen token. */
  function Posting(index: InvertedIndex, t: string): set<nat> {
    if t in index then index[t] else {}
  }

  /** `index` is the inverted index of `data`: a position is posted under a
      token exactly when the token occurs in that record, and no token is
      stored with an empty posting set. */
  ghost predicate IsIndexOf(index: InvertedIndex, data: seq<Record>) {
    && (forall t, p :: p in Posting(index, t) <==> Occurs(data, p, t))
    && (forall t :: t in index ==> index[t] != {})
  }

  /** `build_inverted_index(data)`: for each record in order and each of its
      tokens in order, add the record's position to the token's posting set,
      creating the set on the token's first sight. */
  method BuildInvertedIndex(data: seq<Record>) returns (index: InvertedIndex)
    ensures IsIndexOf(index, data)
  {
    index := map[];
    for i := 0 to |data|
      invariant forall t, p :: p in Posting(index, t) <==> p < i && Occurs(data, p, t)
      invariant forall t :: t in index ==> index[t] != {}
    {
      var tokens := DocTokens(data[i]);
      for j := 0 to |tokens|
        invariant forall t, p :: p in Posting(index, t) <==>
          (p < i && Occurs(data, p, t)) || (p == i && t in tokens[..j])
        invariant forall t :: t in index ==> index[t] != {}
      {
        var token := tokens[j];
        assert tokens[..j + 1] == tokens[..j] + [token];
        ghost var before := index;
        if token in index {
          index := index[token := index[token] + {i}];
        } else {
          index := index[token := {i}];
        }
        assert forall t :: Posting(index, t) == if t == token then Posting(before, t) + {i} else Posting(before, t);
      }
      assert tokens[..|tokens|] == tokens;
    }
  }

  /** Every position the index holds is a position of the corpus. */
  lemma PostingsInRange(index: InvertedIndex, data: seq<Record>, t: string)
    requires IsIndexOf(index, data)
    ensures forall p :: p in Posting(index, t) ==> p < |data|
  {
  }

  /** The keys of the index are exactly the tokens that occur somewhere. */
  lemma IndexKeys(index: InvertedIndex, data: seq<Record>, t: string)
    requires IsIndexOf(index, data)
    ensures t in index <==> exists p :: Occurs(data, p, t)
  {
    if t in index {
      var p :| p in index[t];
      assert p in Posting(index, t);
    }
  }

  /** The inverted index of a corpus is unique: any two maps meeting the
      description are the same map. */
  lemma IndexUnique(a: InvertedIndex, b: InvertedIndex, data: seq<Record>)
    requires IsIndexOf(a, data) && IsIndexOf(b, data)
    ensures a == b
  {
    forall t | t in a ensures t in b && a[t] == b[t] {
      var p :| p in a[t];
      assert p in Posting(a, t);
      assert p in Posting(b, t);
      assert forall q :: q in a[t] <==> q in Posting(b, t) by {
        forall q ensures q in a[t] <==> q in Posting(b, t) {
          assert q in a[t] <==> q in Posting(a, t);
        }
      }
    }
    forall t | t in b ensures t in a {
      var p :| p in b[t];
      assert p in Posting(b, t);
      assert p in Posting(a, t);
    }
  }
}
