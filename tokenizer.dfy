/** The tokenizer: `re.findall(r"[a-zA-Z0-9_]+", text.lower())`. */
module Tokenizer {
  import opened Text

  /** Length of the longest prefix of `s` made of word characters: how far
      the greedy `+` of the pattern reaches from the start of `s`. */
  function WordPrefixLen(s: string): (n: nat)
    ensures n <= |s|
    ensures forall i :: 0 <= i < n ==> IsWordChar(s[i])
    ensures n < |s| ==> !IsWordChar(s[n])
  {
    if s == [] || !IsWordChar(s[0]) then 0 else 1 + WordPrefixLen(s[1..])
  }

  /** No character of `s` is an upper-case ASCII letter. */
  predicate NoUpper(s: string) {
    forall i :: 0 <= i < |s| ==> !IsUpper(s[i])
  }

  /** A match of the pattern: a non-empty run of word characters. */
  predicate IsRun(t: string) {
    |t| > 0 && forall i :: 0 <= i < |t| ==> IsWordChar(t[i])
  }

  /** A token as the tokenizer hands it out: a non-empty run of lowercase
      letters, digits and underscores. */
  predicate IsToken(t: string) {
    |t| > 0 && forall i :: 0 <= i < |t| ==> IsTokenChar(t[i])
  }

  /** `re.findall(r"[a-zA-Z0-9_]+", s)`: scanning left to right, a character
      outside the class is skipped, and at a character inside it the longest
      run starting there is one match. */
  function Runs(s: string): (runs: seq<string>)
    ensures forall k :: 0 <= k < |runs| ==> IsRun(runs[k])
    ensures NoUpper(s) ==> forall k :: 0 <= k < |runs| ==> IsToken(runs[k])
    decreases |s|
  {
    if s == [] then []
    else if !IsWordChar(s[0]) then Runs(s[1..])
    else
      var n := WordPrefixLen(s);
      [s[..n]] + Runs(s[n..])
  }

  /** `tokenize(text)`: lowercase, then take the maximal runs of `[a-zA-Z0-9_]`. */
  function Tokenize(text: string): (tokens: seq<string>)
    ensures forall k :: 0 <= k < |tokens| ==> IsToken(tokens[k])
  {
    Runs(Lower(text))
  }

  /** `f` applied to each element, the results one after the other. */
  function ConcatMap(f: string -> seq<string>, xs: seq<string>): seq<string>
    decreases |xs|
  {
    if |xs| == 0 then [] else f(xs[0]) + ConcatMap(f, xs[1..])
  }

  /** `ConcatMap` distributes over concatenation. */
  lemma {:induction false} ConcatMapAppend(f: string -> seq<string>, xs: seq<string>, ys: seq<string>)
    ensures ConcatMap(f, xs + ys) == ConcatMap(f, xs) + ConcatMap(f, ys)
    decreases |xs|
  {
    if |xs| == 0 {
      assert xs + ys == ys;
    } else {
      assert (xs + ys)[1..] == xs[1..] + ys;
      ConcatMapAppend(f, xs[1..], ys);
    }
  }

  lemma ConcatMapSingle(f: string -> seq<string>, x: string)
    ensures ConcatMap(f, [x]) == f(x)
  {
    assert [x][1..] == [];
  }

  /** The tokens of each part, one part after the other. */
  function TokenizeAll(parts: seq<string>): seq<string> {
    ConcatMap(Tokenize, parts)
  }

  /** The word characters of `s`, in order. */
  function WordChars(s: string): string
    decreases |s|
  {
    if s == [] then [] else (if IsWordChar(s[0]) then [s[0]] else []) + WordChars(s[1..])
  }

  function Concat(xs: seq<string>): string
    decreases |xs|
  {
    if xs == [] then [] else xs[0] + Concat(xs[1..])
  }

  /** Independent reference: split `s` at every character outside the class
      (like `re.split(r"[^a-zA-Z0-9_]", s)`), keeping the empty pieces. */
  function Pieces(s: string): (pieces: seq<string>)
    ensures |pieces| >= 1
    decreases |s|
  {
    if s == [] then [[]]
    else
      var p := Pieces(s[1..]);
      if IsWordChar(s[0]) then [[s[0]] + p[0]] + p[1..] else [[]] + p
  }

  /** The non-empty elements of `xs`, in order. */
  function NonEmpty(xs: seq<string>): seq<string>
    decreases |xs|
  {
    if xs == [] then [] else (if xs[0] == [] then [] else [xs[0]]) + NonEmpty(xs[1..])
  }

  /** The reach of the greedy match is determined by where the first
      character outside the class stands. */
  lemma WordPrefixLenUnique(s: string, m: nat)
    requires m <= |s|
    requires forall i :: 0 <= i < m ==> IsWordChar(s[i])
    requires m < |s| ==> !IsWordChar(s[m])
    ensures WordPrefixLen(s) == m
  {
  }

  /** A separator character stops every run: the matches of `a + [c] + b`
      are those of `a` followed by those of `b`. */
  lemma {:induction false} RunsSeparated(a: string, c: char, b: string)
    requires !IsWordChar(c)
    ensures Runs(a + [c] + b) == Runs(a) + Runs(b)
    decreases |a|
  {
    var s := a + [c] + b;
    if a == [] {
      assert s == [c] + b && s[1..] == b;
    } else if !IsWordChar(a[0]) {
      assert s[1..] == a[1..] + [c] + b;
      RunsSeparated(a[1..], c, b);
    } else {
      var n := WordPrefixLen(a);
      WordPrefixLenSeparated(a, c, b);
      assert s[..n] == a[..n];
      assert s[n..] == a[n..] + [c] + b;
      RunsSeparated(a[n..], c, b);
    }
  }

  /** A separator after `a` leaves the greedy reach from the start of `a` unchanged. */
  lemma WordPrefixLenSeparated(a: string, c: char, b: string)
    requires !IsWordChar(c)
    ensures WordPrefixLen(a + [c] + b) == WordPrefixLen(a)
  {
    var s := a + [c] + b;
    var n := WordPrefixLen(a);
    assert forall i :: 0 <= i < n ==> s[i] == a[i];
    if n < |a| {
      assert s[n] == a[n];
    } else {
      assert s[n] == c;
    }
    WordPrefixLenUnique(s, n);
  }

  /** Tokenizing `a + " " + b` gives the tokens of `a` followed by those of `b`. */
  lemma TokenizeSpaceJoin(a: string, b: string)
    ensures Tokenize(a + " " + b) == Tokenize(a) + Tokenize(b)
  {
    LowerAppend(a + " ", b);
    LowerAppend(a, " ");
    assert Lower(" ") == [' '];
    RunsSeparated(Lower(a), ' ', Lower(b));
  }

  /** Tokenizing `" ".join(parts)` gives the tokens of every part, in order. */
  lemma {:induction false} TokenizeJoin(parts: seq<string>)
    ensures Tokenize(Join(parts)) == TokenizeAll(parts)
    decreases |parts|
  {
    if |parts| == 0 {
      assert Lower("") == "";
    } else if |parts| == 1 {
      assert parts[1..] == [];
      assert TokenizeAll(parts) == Tokenize(parts[0]) + ConcatMap(Tokenize, []);
    } else {
      TokenizeSpaceJoin(parts[0], Join(parts[1..]));
      TokenizeJoin(parts[1..]);
    }
  }

  /** Lowercasing before tokenizing changes nothing: tokenizing is case-insensitive. */
  lemma TokenizeLower(text: string)
    ensures Tokenize(Lower(text)) == Tokenize(text)
  {
    LowerIdempotent(text);
  }

  lemma {:induction false} WordCharsAppend(a: string, b: string)
    ensures WordChars(a + b) == WordChars(a) + WordChars(b)
    decreases |a|
  {
    if a != [] {
      assert (a + b)[1..] == a[1..] + b;
      WordCharsAppend(a[1..], b);
    } else {
      assert a + b == b;
    }
  }

  lemma {:induction false} WordCharsOfRun(a: string)
    requires forall i :: 0 <= i < |a| ==> IsWordChar(a[i])
    ensures WordChars(a) == a
    decreases |a|
  {
    if a != [] {
      WordCharsOfRun(a[1..]);
    }
  }

  /** No word character is dropped or invented: the matches, put back
      together, are exactly the word characters of `s` in order. */
  lemma {:induction false} RunsKeepWordChars(s: string)
    ensures Concat(Runs(s)) == WordChars(s)
    decreases |s|
  {
    if s == [] {
    } else if !IsWordChar(s[0]) {
      RunsKeepWordChars(s[1..]);
    } else {
      var n := WordPrefixLen(s);
      var r := Runs(s);
      assert r == [s[..n]] + Runs(s[n..]);
      assert r[1..] == Runs(s[n..]);
      RunsKeepWordChars(s[n..]);
      assert s == s[..n] + s[n..];
      WordCharsAppend(s[..n], s[n..]);
      WordCharsOfRun(s[..n]);
    }
  }

  /** The first piece of `s` is the greedy run at its start; the rest are the
      pieces after the separator that ends it. */
  lemma {:induction false} PiecesSplit(s: string)
    ensures var n := WordPrefixLen(s);
      && Pieces(s)[0] == s[..n]
      && Pieces(s)[1..] == if n == |s| then [] else Pieces(s[n + 1..])
    decreases |s|
  {
    if s != [] && IsWordChar(s[0]) {
      var t := s[1..];
      PiecesSplit(t);
      var m := WordPrefixLen(t);
      assert WordPrefixLen(s) == m + 1;
      assert [s[0]] + t[..m] == s[..m + 1];
      if m < |t| {
        assert t[m + 1..] == s[m + 2..];
      }
    }
  }

  /** The matches of the pattern are exactly the non-empty pieces of `s` split
      at the characters outside the class: they are the maximal runs. */
  lemma {:induction false} RunsAreNonEmptyPieces(s: string)
    ensures Runs(s) == NonEmpty(Pieces(s))
    decreases |s|
  {
    if s == [] {
    } else {
      PiecesSplit(s);
      var n := WordPrefixLen(s);
      var p := Pieces(s);
      assert p == [p[0]] + p[1..];
      if !IsWordChar(s[0]) {
        assert p[0] == [];
        assert NonEmpty(p) == NonEmpty(Pieces(s[1..]));
        RunsAreNonEmptyPieces(s[1..]);
      } else if n == |s| {
        assert s[..n] == s && s[n..] == [];
        assert p == [s];
      } else {
        assert NonEmpty(p) == [s[..n]] + NonEmpty(Pieces(s[n + 1..]));
        RunsAreNonEmptyPieces(s[n + 1..]);
        assert s[n..][1..] == s[n + 1..];
        assert Runs(s[n..]) == Runs(s[n + 1..]);
      }
    }
  }

  /** A token tokenizes to itself. */
  lemma TokenizeToken(t: string)
    requires IsToken(t)
    ensures Tokenize(t) == [t]
  {
    assert Lower(t) == t;
    assert IsWordChar(t[0]);
    WordPrefixLenUnique(t, |t|);
    assert t[..|t|] == t && t[|t|..] == [];
    assert Runs(t) == [t] + Runs([]);
  }
}
