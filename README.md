# Miniature-description search engine, modelled in Dafny

This project models the search core of a small Flask application. The
application serves a corpus of JSON records. Each record describes a
miniature painting: its scene, its interpretation, its spatial and
architectural context, and lists of building types, architectural elements
and persons.

The model covers these parts of the core:

- **Search text** (`Records`): each record gets a search text. It is the seven
  descriptive fields joined by single spaces and lower-cased. Each list field
  is itself joined by spaces first.
- **Tokenizer** (`Text`, `Tokenizer`): `tokenize` lower-cases its input. It then
  returns the maximal runs of `[a-zA-Z0-9_]` characters, left to right.
- **Inverted index** (`Index`): a map from each token to the set of positions
  of the records whose search text holds it.
- **Keyword search** (`Keyword`):
  - A blank query selects every position, in order.
  - Any other query is tokenized, and the posting sets of its tokens are
    intersected (boolean AND).
  - A query that is not blank but has no token (such as `"!!"`) makes
    `search_keyword` raise `IndexError` at `tokens[0]` (app.py:68). The model
    returns an explicit error for it.
- **Field filters** (`Filters`): case-insensitive tests, each switched off when
  its filter text is empty:
  - exact match for the two controlled-vocabulary fields;
  - substring match for the two free-text fields;
  - a match on any single element for the three list fields.
  
  `FilterResults` keeps, in candidate order, the records that pass all seven
  tests.
- **Pagination** (`Pagination`): 48 results per page, the page count, and the
  slice shown on one page.
- **One request** (`Engine`): keyword search followed by filtering, over a
  corpus and its index.

The corpus and its index are parameters, not module globals.

## Model

| member | source | states |
|---|---|---|
| Text.LowerChar | app.py:40 | lower-casing maps each upper-case letter to its lower-case partner 32 code points up, leaves every other character alone, never yields an upper-case letter, and keeps word characters word characters |
| Tokenizer.WordPrefixLen | app.py:40 | the longest run of `[a-zA-Z0-9_]` at the start of a string: every character before it is a word character and the one after it is not |
| Tokenizer.Runs | app.py:40 | the `findall` matches are non-empty runs of word characters, and over text without capitals each is a lower-case token |
| Tokenizer.Tokenize | app.py:39-40 | every token that `tokenize` returns is non-empty and made of `[a-z0-9_]` only |
| Tokenizer.RunsKeepWordChars | app.py:40 | concatenating the tokens gives back exactly the word characters of the (lower-cased) text, in order: none is lost, none is invented |
| Tokenizer.RunsAreNonEmptyPieces | app.py:40 | the tokens are exactly the non-empty pieces of the text when it is split at every non-word character |
| Tokenizer.RunsSeparated | app.py:40 | a non-word character splits the text: the matches of `a + [c] + b` are the matches of `a` followed by those of `b` |
| Tokenizer.TokenizeSpaceJoin | app.py:21-29 | tokenizing `a + " " + b` is tokenizing `a` then tokenizing `b` |
| Tokenizer.TokenizeJoin | app.py:21-29 | tokenizing a space-joined list is the concatenation of tokenizing each part |
| Tokenizer.TokenizeLower | app.py:40 | tokenizing is insensitive to a prior lower-casing |
| Tokenizer.TokenizeToken | app.py:39-40 | a lower-case token tokenizes to itself alone |
| Records.SearchText | app.py:21-29 | the search text holds no upper-case letter |
| Records.SearchTextTokens | app.py:21-29 | the tokens of the search text are the tokens of the seven fields in field order, with each list field contributing the tokens of its elements in order |
| Records.FieldTokenSearchable | app.py:21-29 | any token of any descriptive field or list element is a token of the record's search text, so keyword search can reach it |
| Index.BuildInvertedIndex | app.py:46-52 | the map built satisfies `IsIndexOf`: a position is posted under a token exactly when that token occurs in that record's search text, and no token maps to an empty set |
| Index.PostingsInRange | app.py:48-51 | every posted position is a valid position of the corpus |
| Index.IndexKeys | app.py:46-52 | the keys of the index are exactly the tokens that occur in some record |
| Index.IndexUnique | app.py:46-52 | any two maps meeting the inverted-index description of the same corpus are equal |
| Keyword.SearchKeyword | app.py:63-74 | a blank query gives `0 .. len-1` in order; a non-blank query with no token is an error; otherwise the positions are exactly the intersection of the query tokens' postings, each listed once |
| Keyword.Conjunction | app.py:67-72 | the `&=` narrowing from the first token's posting set never leaves the posting set of any query token |
| Keyword.ConjunctionMembers | app.py:69-72 | a position survives the left-to-right intersection exactly when it is posted under every query token |
| Keyword.ConjunctionMatches | app.py:67-72 | against the index of the corpus, the result is exactly the positions of the records holding every query token |
| Keyword.ConjunctionSetwise | app.py:67-72 | queries with the same token set select the same positions, whatever the order or repetition of their tokens |
| Keyword.ConjunctionAppend | app.py:71-72 | AND over a concatenated query is the intersection of AND over each part |
| Keyword.ConjunctionUnknownToken | app.py:69-72 | a token absent from the index empties the result (`INDEX.get(t, set())`) |
| Keyword.BlankHasNoTokens | app.py:64-67 | a whitespace-only query has no token, so the blank test is taken before tokenizing |
| Keyword.RangeAscending | app.py:65 | the blank-query result lists every position exactly once in ascending order |
| Keyword.ListOf | app.py:74 | `list(results)` lists each member of the set exactly once and nothing else |
| Filters.FilterExact | app.py:78-82 | an empty value accepts; otherwise the value and the field have the same length and agree letter for letter, ignoring the case of ASCII letters |
| Filters.FilterContains | app.py:84-87 | an empty text accepts; otherwise the text matches the field letter for letter, ignoring case, at some offset where it fits |
| Filters.FilterList | app.py:89-93 | an empty text accepts; otherwise some element of the list passes `filter_contains` |
| Filters.FilterField | app.py:96-102 | on string fields it gives the same answer as `filter_contains`: the empty-field branch repeats what containment already says |
| Filters.FilterListField | app.py:105-110 | it is `filter_contains` against the list joined by single spaces |
| Filters.Passes | app.py:126-148 | the seven `continue` guards: every record passes an empty filter set, and a record that passes also passes the unused `filter_field` and `filter_list_field` variants of the free-text and list tests |
| Filters.EmptyFilterAcceptsAll | app.py:78-110 | an empty filter text accepts every field value and every list |
| Filters.ExactImpliesContains | app.py:78-87 | an exact (case-insensitive) match is also a containment match |
| Filters.ExactIsNotContainment | app.py:78-87 | exact match is strictly stronger: "urban" is contained in "suburban area" but does not match it exactly |
| Filters.ListImpliesListField | app.py:89-110 | a per-element list match implies a match on the space-joined list |
| Filters.ListFieldWithoutSpaceImpliesList | app.py:89-110 | for a filter text without a space, the joined-list test and the per-element test agree |
| Filters.ListTestsDifferAcrossSeparator | app.py:89-110 | with a space in the filter text they differ: "a b" matches the joined `["a","b"]` but no single element |
| Filters.FilterResults | app.py:113-152 | the loop returns `Keep` of the candidates gathered from the given positions: the records passing all seven tests, in candidate order |
| Filters.KeepMembers | app.py:122-150 | a record is kept exactly when it is a candidate and passes all seven tests |
| Filters.KeepIsSubsequence | app.py:122-152 | the kept records are a subsequence of the candidates (order preserved, nothing added) |
| Filters.KeepNoFilters | app.py:126-150 | with every filter text empty, every candidate is kept unchanged |
| Filters.KeepTwice | app.py:122-150 | filtering by a filter set and then by a refinement of it (the same texts plus further non-empty ones) equals filtering by the refinement alone |
| Filters.AddingFiltersShrinks | app.py:122-150 | adding filters can only shrink the result: a refinement keeps a subsequence of what the coarser filter set keeps |
| Pagination.TotalPages | app.py:209-210 | there is at least one page, exactly one when there are no results, and otherwise the fewest pages of 48 holding all the results |
| Pagination.PageSlice | app.py:212-215 | page `p` holds the results from `(p-1)*48` on, at most 48 of them and fewer only at the end |
| Pagination.PageBeyondLastIsEmpty | app.py:209-215 | a page past the last one is empty rather than an error |
| Pagination.PagesUpToLastAreFull | app.py:209-215 | every page up to the last is non-empty, and every page before the last holds exactly 48 results |
| Pagination.PagesArePrefix | app.py:212-215 | the first `n` pages together are the first `48*n` results |
| Pagination.PagesCoverResults | app.py:209-215 | pages 1 to `total_pages` together give back every result, in order |
| Engine.Search | app.py:196-207 | for a blank query, the records passing the filters in corpus order; for a query with no token, an error; otherwise the records at a duplicate-free listing of exactly the matching positions, filtered in that order (`FilteredMatches`), so a record is in it exactly when it passes the filters and holds every query token |
| Engine.KeywordResult | app.py:197-207 | filtering the positions keyword search lists for a query with tokens yields a `FilteredMatches` list, whose members are exactly the matching records that pass |
| Engine.ResultCount | app.py:197-209 | `total_results` for a query with tokens is the number of corpus positions whose records hold every token and pass the filters, whatever the listing order |
| Engine.KeepGatherCount | app.py:122-152 | filtering the records at distinct positions keeps one record for each position whose record passes |

## Left out

- The Flask route and the HTTP plumbing are not modelled: form and URL parameters, the POST-to-GET redirect, template rendering and `app.run` (app.py:4, 9, 156-191, 218-238). The filter texts arrive as a `FilterSet` of strings, where a missing parameter is `""`.
- Loading the dataset is not modelled: reading a directory, JSON parsing, file order and the `_filename` field (app.py:12-19, 31-33). The corpus is a sequence of `Record`s, and a missing field is `""` or `[]`.
- The module globals `DATA` and `INDEX` (app.py:56-57) become explicit parameters. `Engine.Search` requires that the index is the one built from the corpus.
- Page parsing is not modelled: `int(page)` (app.py:193) and its failure on text that is not a number.
- Pagination.PageSlice: requires `page >= 1`. Python's slicing with the negative bounds that page 0 or below would give is not modelled.
- Text.LowerChar: lower-cases ASCII letters only. Full Unicode `str.lower()` is not modelled. Python's `lower()` can map a non-ASCII character to ASCII ones: KELVIN SIGN U+212A becomes `k`, and U+0130 becomes `i` followed by U+0307. In the program, `tokenize("\u212a")` is `["k"]` and `tokenize("İstanbul")` is `["i", "stanbul"]`; the model gives `[]` and `["stanbul"]`. Tokens, and with them the index and the keyword results, can therefore differ on such characters, and so can the filter comparisons.
- Records.SearchText: `str()` coercion of non-string field values (a `None` field becoming `"none"`) is not modelled. Every field is a string, or a list of strings.
- Keyword.SearchKeyword: for a query with tokens, the order of the returned positions comes from Python's set iteration, so it is not specified. The contract fixes the members and their distinctness, not their order.
- Engine.Search: for the same reason, for a query with tokens the result is fixed only up to the order of the positions: it is the filtered records at some duplicate-free listing of the matching positions. Its members and its length are fixed. The blank-query case is described exactly.
- The query that is not blank but has no token (e.g. `"!!"`) raises `IndexError` at `tokens[0]` (app.py:68) in the program. The model returns `Err(NoQueryTokens)` there instead of modelling the exception.
- The list-field filters follow the code: `filter_results` calls `filter_list`, which tests each element, not `filter_list_field`, which tests the joined list. The two helpers `filter_field` and `filter_list_field` are never called by the engine. They are modelled and related to the helpers in use.
- `filter_results` keeps the order of the positions it is given. It does not sort them into ascending position order.
