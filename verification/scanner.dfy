/**
 * The scanner and the validation pass: `collect_tokens` (src/lexer.rs:160-162)
 * runs the classifier from offset 0 to the end of the input, dropping
 * whitespace (`logos::skip`, src/lexer.rs:34); `into_tokens`
 * (src/lexer.rs:164-172) returns the diagnostic for the first `Error` token,
 * or the whole token list when there is none.
 */
module Scanner {
  import opened Wrappers
  import opened TokenKinds
  import opened Classifier
  import opened ErrorLocator

  // ---------------------------------------------------------------------
  // Lexings: what a correct token list for an input is

  /** `src[a..b]` is whitespace only. */
  predicate AllWhitespace(src: string, a: nat, b: nat)
    requires a <= b <= |src|
  {
    forall k :: a <= k < b ==> IsWhitespaceChar(src[k])
  }

  /**
   * `toks` is a lexing of `src[pos..]`: every token is the longest match at
   * its start and is not whitespace; between tokens, and before the first and
   * after the last, there is whitespace only.
   */
  ghost predicate CoversFrom(src: string, pos: nat, toks: seq<Lexeme>)
    requires pos <= |src|
    decreases |toks|
  {
    if toks == [] then AllWhitespace(src, pos, |src|)
    else
      var sp := toks[0].span;
      && pos <= sp.start < sp.end <= |src|
      && AllWhitespace(src, pos, sp.start)
      && toks[0].token != Whitespace
      && Longest(src, sp.start) == Match(toks[0].token, sp.end - sp.start)
      && CoversFrom(src, sp.end, toks[1..])
  }

  /** Whitespace in front of a lexing can be absorbed into its leading gap. */
  lemma CoversAfterWhitespace(src: string, pos: nat, mid: nat, toks: seq<Lexeme>)
    requires pos <= mid <= |src|
    requires AllWhitespace(src, pos, mid) && CoversFrom(src, mid, toks)
    ensures CoversFrom(src, pos, toks)
  {
  }

  /** A longest match followed by a lexing of what comes after it is a lexing. */
  lemma CoversCons(src: string, l: Lexeme, rest: seq<Lexeme>)
    requires l.span.start < l.span.end <= |src| && l.token != Whitespace
    requires Longest(src, l.span.start) == Match(l.token, l.span.end - l.span.start)
    requires CoversFrom(src, l.span.end, rest)
    ensures CoversFrom(src, l.span.start, [l] + rest)
  {
    var toks := [l] + rest;
    assert toks[0] == l && toks[1..] == rest;
  }

  /** What the match `m` at `pos` adds to the token list: nothing for whitespace, which `logos::skip` drops. */
  function Emit(m: Match, pos: nat): seq<Lexeme> {
    if m.token == Whitespace then [] else [Lexeme(m.token, Span(pos, pos + m.len))]
  }

  /** Prepending the longest match `m` at `pos` (dropped when whitespace) to a lexing of the rest gives a lexing from `pos`. */
  lemma CoversStep(src: string, pos: nat, m: Match, rest: seq<Lexeme>)
    requires pos < |src| && Longest(src, pos) == m && 0 < m.len && pos + m.len <= |src|
    requires m.token == Whitespace ==> AllWhitespace(src, pos, pos + m.len)
    requires CoversFrom(src, pos + m.len, rest)
    ensures CoversFrom(src, pos, Emit(m, pos) + rest)
  {
    if m.token == Whitespace {
      CoversAfterWhitespace(src, pos, pos + m.len, rest);
      assert Emit(m, pos) + rest == rest;
    } else {
      CoversCons(src, Lexeme(m.token, Span(pos, pos + m.len)), rest);
    }
  }

  /** What the scanner needs of the classifier: its outcome is the longest match, and a whitespace match is blank. */
  lemma ClassifyFacts(src: string, pos: nat)
    requires pos < |src|
    ensures Longest(src, pos) == Classify(src, pos)
    ensures var m := Classify(src, pos);
      m.token == Whitespace ==> AllWhitespace(src, pos, pos + m.len)
  {
    var m := Classify(src, pos);
    ClassifyIsTheLongest(src, pos);
    ClassifyMatches(src, pos);
    if m.token == Whitespace {
      var w := src[pos..pos + m.len];
      assert forall k :: pos <= k < pos + m.len ==> src[k] == w[k - pos];
    }
  }

  /** Every input has a lexing: the classifier's matches, taken from the left, form one. */
  lemma {:induction false} LexingExists(src: string, pos: nat)
    requires pos <= |src|
    ensures exists toks :: CoversFrom(src, pos, toks)
    decreases |src| - pos
  {
    if pos == |src| {
      assert CoversFrom(src, pos, []);
    } else {
      var m := Classify(src, pos);
      LexingExists(src, pos + m.len);
      var rest :| CoversFrom(src, pos + m.len, rest);
      ClassifyFacts(src, pos);
      CoversStep(src, pos, m, rest);
    }
  }

  /** There is only one lexing of an input: the lexing rule determines the token list completely. */
  lemma {:induction false} LexingIsUnique(src: string, pos: nat, a: seq<Lexeme>, b: seq<Lexeme>)
    requires pos <= |src|
    requires CoversFrom(src, pos, a) && CoversFrom(src, pos, b)
    ensures a == b
    decreases |a|
  {
    BothEmptyOrNeither(src, pos, a, b);
    if a != [] {
      HeadsAgree(src, pos, a, b);
      LexingIsUnique(src, a[0].span.end, a[1..], b[1..]);
      assert a == [a[0]] + a[1..];
      assert b == [b[0]] + b[1..];
    }
  }

  /** If one lexing from `pos` is empty, the rest of the input is blank, so every lexing from `pos` is empty. */
  lemma BothEmptyOrNeither(src: string, pos: nat, a: seq<Lexeme>, b: seq<Lexeme>)
    requires pos <= |src|
    requires CoversFrom(src, pos, a) && CoversFrom(src, pos, b)
    ensures a == [] <==> b == []
  {
    if a != [] && b == [] {
      var i := a[0].span.start;
      assert IsWhitespaceChar(src[i]);
      ClassifyIsTheLongest(src, i);
    } else if a == [] && b != [] {
      var i := b[0].span.start;
      assert IsWhitespaceChar(src[i]);
      ClassifyIsTheLongest(src, i);
    }
  }

  /** Two lexings from `pos` start with the same token and go on from the same offset. */
  lemma HeadsAgree(src: string, pos: nat, a: seq<Lexeme>, b: seq<Lexeme>)
    requires pos <= |src| && a != [] && b != []
    requires CoversFrom(src, pos, a) && CoversFrom(src, pos, b)
    ensures a[0] == b[0]
    ensures a[0].span.end <= |src|
    ensures CoversFrom(src, a[0].span.end, a[1..]) && CoversFrom(src, a[0].span.end, b[1..])
  {
    var p := a[0].span.start;
    var q := b[0].span.start;
    if p < q {
      assert IsWhitespaceChar(src[p]);
      ClassifyIsTheLongest(src, p);
    } else if q < p {
      assert IsWhitespaceChar(src[q]);
      ClassifyIsTheLongest(src, q);
    }
  }

  /** The lexing of `src`: it exists by `LexingExists` and is unique by `LexingIsUnique`. */
  ghost function Lexing(src: string): (toks: seq<Lexeme>)
    ensures CoversFrom(src, 0, toks)
  {
    LexingExists(src, 0);
    var toks :| CoversFrom(src, 0, toks);
    toks
  }

  /**
   * What a lexing says token by token: spans are non-empty, inside the
   * input, in strictly increasing order without overlap, and no token is
   * whitespace.
   */
  lemma {:induction false} CoversSpans(src: string, pos: nat, toks: seq<Lexeme>)
    requires pos <= |src|
    requires CoversFrom(src, pos, toks)
    ensures forall k :: 0 <= k < |toks| ==>
      pos <= toks[k].span.start < toks[k].span.end <= |src| && toks[k].token != Whitespace
    ensures forall j, k :: 0 <= j < k < |toks| ==> toks[j].span.end <= toks[k].span.start
    decreases |toks|
  {
    if toks != [] {
      var rest := toks[1..];
      CoversSpans(src, toks[0].span.end, rest);
      assert forall k :: 0 < k < |toks| ==> toks[k] == rest[k - 1];
    }
  }

  // ---------------------------------------------------------------------
  // Scanning from the left

  /**
   * `toks` is what a left-to-right scan has kept by offset `pos`: read from
   * the back, every token is the longest match at its start and not
   * whitespace, and the gaps between them, before the first and after the
   * last up to `pos`, are whitespace only.
   */
  ghost predicate PrefixCovers(src: string, toks: seq<Lexeme>, pos: nat)
    requires pos <= |src|
    decreases |toks|
  {
    if toks == [] then AllWhitespace(src, 0, pos)
    else
      var l := toks[|toks| - 1];
      && l.span.start < l.span.end <= pos
      && AllWhitespace(src, l.span.end, pos)
      && l.token != Whitespace
      && Longest(src, l.span.start) == Match(l.token, l.span.end - l.span.start)
      && PrefixCovers(src, toks[..|toks| - 1], l.span.start)
  }

  /** The loop step of `CollectTokens`: taking the classifier's match at `pos` keeps `PrefixCovers`. */
  lemma ScanStep(src: string, toks: seq<Lexeme>, pos: nat)
    requires pos < |src| && PrefixCovers(src, toks, pos)
    ensures PrefixCovers(src, toks + Emit(Classify(src, pos), pos), pos + Classify(src, pos).len)
  {
    var m := Classify(src, pos);
    ClassifyFacts(src, pos);
    if m.token == Whitespace {
      PrefixGapGrows(src, toks, pos, pos + m.len);
      assert toks + Emit(m, pos) == toks;
    } else {
      PrefixSnoc(src, toks, Lexeme(m.token, Span(pos, pos + m.len)));
    }
  }

  /** Whitespace after a scanned prefix joins its trailing gap. */
  lemma PrefixGapGrows(src: string, toks: seq<Lexeme>, pos: nat, mid: nat)
    requires pos <= mid <= |src|
    requires PrefixCovers(src, toks, pos) && AllWhitespace(src, pos, mid)
    ensures PrefixCovers(src, toks, mid)
  {
  }

  /** A token that is the longest match where a scanned prefix ends extends it. */
  lemma PrefixSnoc(src: string, toks: seq<Lexeme>, l: Lexeme)
    requires l.span.start < l.span.end <= |src| && l.token != Whitespace
    requires PrefixCovers(src, toks, l.span.start)
    requires Longest(src, l.span.start) == Match(l.token, l.span.end - l.span.start)
    ensures PrefixCovers(src, toks + [l], l.span.end)
  {
    var after := toks + [l];
    assert after[|after| - 1] == l && after[..|after| - 1] == toks;
  }

  /** A scanned prefix up to `p` followed by a lexing from `p` is a lexing of the whole input. */
  lemma {:induction false} PrefixThenRest(src: string, toks: seq<Lexeme>, p: nat, rest: seq<Lexeme>, whole: seq<Lexeme>)
    requires p <= |src|
    requires PrefixCovers(src, toks, p) && CoversFrom(src, p, rest)
    requires whole == toks + rest
    ensures CoversFrom(src, 0, whole)
    decreases |toks|
  {
    if toks == [] {
      assert whole == rest;
      CoversAfterWhitespace(src, 0, p, rest);
    } else {
      var l := toks[|toks| - 1];
      var init := toks[..|toks| - 1];
      PrefixPeel(src, toks, p, rest);
      PrefixInit(src, toks, p);
      assert toks == init + [l];
      AppendAssociates(init, [l], rest);
      PrefixThenRest(src, init, l.span.start, [l] + rest, whole);
    }
  }

  /**
   * Concatenation regroups. Kept as a separate lemma: asserted inline, the
   * same fact is checked against the whole context of `PrefixThenRest`.
   */
  lemma AppendAssociates<T>(a: seq<T>, b: seq<T>, c: seq<T>)
    ensures (a + b) + c == a + (b + c)
  {
  }

  /** The last token of a scanned prefix, put in front of a lexing of what follows it, is a lexing from its start. */
  lemma PrefixPeel(src: string, toks: seq<Lexeme>, p: nat, rest: seq<Lexeme>)
    requires p <= |src| && toks != []
    requires PrefixCovers(src, toks, p) && CoversFrom(src, p, rest)
    ensures var l := toks[|toks| - 1];
      l.span.start <= |src| && CoversFrom(src, l.span.start, [l] + rest)
  {
    var l := toks[|toks| - 1];
    CoversAfterWhitespace(src, l.span.end, p, rest);
    CoversCons(src, l, rest);
  }

  /** Dropping the last token of a scanned prefix leaves a scanned prefix up to that token's start. */
  lemma PrefixInit(src: string, toks: seq<Lexeme>, p: nat)
    requires p <= |src| && toks != []
    requires PrefixCovers(src, toks, p)
    ensures var l := toks[|toks| - 1];
      l.span.start <= |src| && PrefixCovers(src, toks[..|toks| - 1], l.span.start)
  {
  }

  // ---------------------------------------------------------------------
  // The scanner and the validation pass

  /** `collect_tokens`: run the classifier over the whole input, keeping every token but whitespace. */
  method CollectTokens(src: string) returns (toks: seq<Lexeme>)
    ensures CoversFrom(src, 0, toks)
    ensures toks == Lexing(src)
  {
    toks := [];
    var pos := 0;
    while pos < |src|
      invariant pos <= |src|
      invariant PrefixCovers(src, toks, pos)
      decreases |src| - pos
    {
      var m := Classify(src, pos);
      ScanStep(src, toks, pos);
      toks := toks + Emit(m, pos);
      pos := pos + m.len;
    }
    assert toks + [] == toks;
    PrefixThenRest(src, toks, pos, [], toks);
    LexingIsUnique(src, 0, toks, Lexing(src));
  }

  /**
   * `into_tokens`: the first `Error` token, from the left, decides the
   * diagnostic; without one the token list is returned unchanged.
   */
  method IntoTokens(src: string) returns (r: Result<seq<Lexeme>, LexerError>)
    ensures r.Ok? <==> forall k :: 0 <= k < |Lexing(src)| ==> Lexing(src)[k].token != Error
    ensures r.Ok? ==> r.value == Lexing(src)
    ensures r.Err? ==>
      exists k :: 0 <= k < |Lexing(src)| && IsFirstError(src, Lexing(src), k)
               && r.error == LexerError.Err(src, Lexing(src)[k].span)
  {
    var toks := CollectTokens(src);
    CoversSpans(src, 0, toks);
    for k := 0 to |toks|
      invariant forall j :: 0 <= j < k ==> toks[j].token != Error
    {
      if toks[k].token == Error {
        assert IsFirstError(src, toks, k);
        return Err(LexerError.Err(src, toks[k].span));
      }
    }
    return Ok(toks);
  }

  /** Token `k` is an `Error` with a span inside the input, and no token before it is one. */
  predicate IsFirstError(src: string, toks: seq<Lexeme>, k: nat)
    requires k < |toks|
  {
    && toks[k].token == Error
    && toks[k].span.start <= toks[k].span.end <= |src|
    && forall j :: 0 <= j < k ==> toks[j].token != Error
  }

  // ---------------------------------------------------------------------
  // Examples

  /** An unterminated string lexes as an `Error` at the quote, then the rest of the line lexes on. */
  lemma UnterminatedStringLexing()
    ensures Lexing("\"xyz") == [Lexeme(Error, Span(0, 1)), Lexeme(Id, Span(1, 4))]
  {
    UnterminatedStringCovers("\"xyz");
    LexingIsUnique("\"xyz", 0, [Lexeme(Error, Span(0, 1)), Lexeme(Id, Span(1, 4))], Lexing("\"xyz"));
  }

  /** The two tokens of `UnterminatedStringLexing` form a lexing of `"xyz`. */
  lemma UnterminatedStringCovers(src: string)
    requires src == "\"xyz"
    ensures CoversFrom(src, 0, [Lexeme(Error, Span(0, 1)), Lexeme(Id, Span(1, 4))])
  {
    var id := Lexeme(Id, Span(1, 4));
    NameAfterQuoteCovers(src);
    LongestIsClassify(src, 0, Match(Error, 1));
    CoversCons(src, Lexeme(Error, Span(0, 1)), [id]);
  }

  /** After the stray quote, `xyz` is a lexing on its own. */
  lemma NameAfterQuoteCovers(src: string)
    requires src == "\"xyz"
    ensures CoversFrom(src, 1, [Lexeme(Id, Span(1, 4))])
  {
    LongestIsClassify(src, 1, Match(Id, 3));
    CoversCons(src, Lexeme(Id, Span(1, 4)), []);
  }
}
