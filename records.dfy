/** The record store: one record per scene description, and the lowercased
    search text built from seven of its fields when the corpus is loaded. */
module Records {
  import opened Text
  import opened Tokenizer

  /** The fields of a record the engine reads. A field missing from the
      source record is the empty string or the empty list, as the
      `record.get(field, default)` calls supply. */
  datatype Record = Record(
    sceneDescription: string,
    sceneInterpretation: string,
    spatialContext: string,
    architecturalContext: string,
    buildingTypes: seq<string>,
    architecturalElements: seq<string>,
    persons: seq<string>)

  /** The seven contributions to the search text, in the order they are joined. */
  function SearchParts(r: Record): seq<string> {
    [ r.sceneDescription, r.sceneInterpretation, r.spatialContext, r.architecturalContext,
      Join(r.buildingTypes), Join(r.architecturalElements), Join(r.persons) ]
  }

  /** `record["_search_text"]`: the seven contributions joined by single
      spaces, then lowercased. */
  function SearchText(r: Record): (text: string)
    ensures NoUpper(text)
  {
    Lower(Join(SearchParts(r)))
  }

  /** The tokens the inverted index records for `r`. */
  function DocTokens(r: Record): seq<string> {
    Tokenize(SearchText(r))
  }

  /** The tokens of every field, field after field, list elements one after
      the other: what the search text is meant to make searchable. */
  function FieldTokens(r: Record): seq<string> {
    Tokenize(r.sceneDescription) + Tokenize(r.sceneInterpretation)
    + Tokenize(r.spatialContext) + Tokenize(r.architecturalContext)
    + TokenizeAll(r.buildingTypes) + TokenizeAll(r.architecturalElements) + TokenizeAll(r.persons)
  }

  /** Joining with single spaces and lowercasing neither merges nor splits
      tokens: the search text tokenizes to the tokens of the fields, in order. */
  lemma SearchTextTokens(r: Record)
    ensures DocTokens(r) == FieldTokens(r)
  {
    var parts := SearchParts(r);
    TokenizeLower(Join(parts));
    TokenizeJoin(parts);
    PartsTokens(r);
  }

  lemma PartsTokens(r: Record)
    ensures TokenizeAll(SearchParts(r)) == FieldTokens(r)
  {
    TokenizeJoin(r.buildingTypes);
    TokenizeJoin(r.architecturalElements);
    TokenizeJoin(r.persons);
    var p := SearchParts(r);
    assert p == [p[0]] + [p[1]] + [p[2]] + [p[3]] + [p[4]] + [p[5]] + [p[6]];
    ConcatMapAppend(Tokenize, [p[0]] + [p[1]] + [p[2]] + [p[3]] + [p[4]] + [p[5]], [p[6]]);
    ConcatMapAppend(Tokenize, [p[0]] + [p[1]] + [p[2]] + [p[3]] + [p[4]], [p[5]]);
    ConcatMapAppend(Tokenize, [p[0]] + [p[1]] + [p[2]] + [p[3]], [p[4]]);
    ConcatMapAppend(Tokenize, [p[0]] + [p[1]] + [p[2]], [p[3]]);
    ConcatMapAppend(Tokenize, [p[0]] + [p[1]], [p[2]]);
    ConcatMapAppend(Tokenize, [p[0]], [p[1]]);
    forall k | 0 <= k < 7 ensures ConcatMap(Tokenize, [p[k]]) == Tokenize(p[k]) {
      ConcatMapSingle(Tokenize, p[k]);
    }
  }

  /** Every token of every field is a token of the search text. */
  lemma FieldTokenSearchable(r: Record, t: string)
    requires || t in Tokenize(r.sceneDescription) || t in Tokenize(r.sceneInterpretation)
             || t in Tokenize(r.spatialContext) || t in Tokenize(r.architecturalContext)
             || t in TokenizeAll(r.buildingTypes) || t in TokenizeAll(r.architecturalElements)
             || t in TokenizeAll(r.persons)
    ensures t in DocTokens(r)
  {
    SearchTextTokens(r);
  }
}
