/**
 * The per-position token classifier: what the `logos` derive on `Token`
 * (src/lexer.rs:27-158) does at one cursor position, written as an explicit
 * matcher returning a kind and a length.
 *
 * The rule it implements is the usual one for such lexers: among all kinds
 * whose pattern matches a non-empty prefix of the remaining input, the longest
 * match wins; on a tie, a fixed-text kind (`#[token]`) beats a regex kind
 * (`#[regex]`); when no pattern matches, an `Error` of one character is
 * produced. `IsLongestMatch` states that rule over the pattern predicates of
 * `TokenKinds`, and `ClassifyIsLongestMatch` proves `Classify` follows it.
 */
module Classifier {
  import opened Wrappers
  import opened TokenKinds

  /** The outcome at one position: a kind and how many characters it covers. */
  datatype Match = Match(token: Token, len: nat)

  // ---------------------------------------------------------------------
  // Scanning helpers

  /** The character classes the scanning helpers run over. */
  datatype CharClass = Blank | WordChar | DigitChar | LineChar

  predicate InClass(k: CharClass, c: char) {
    match k
    case Blank => IsWhitespaceChar(c)
    case WordChar => IsIdChar(c)
    case DigitChar => IsDigit(c)
    case LineChar => IsNotLineBreak(c)
  }

  /** The end of the longest run of characters satisfying `p` from `j` on. */
  function RunEnd(src: string, j: nat, p: CharClass): (e: nat)
    requires j <= |src|
    ensures j <= e <= |src|
    ensures forall k :: j <= k < e ==> InClass(p, src[k])
    ensures e == |src| || !InClass(p, src[e])
    decreases |src| - j
  {
    if j < |src| && InClass(p, src[j]) then RunEnd(src, j + 1, p) else j
  }

  /** The offset of the next CR or LF at or after `j`, or the end of input. */
  function LineEnd(src: string, j: nat): nat
    requires j <= |src|
  {
    RunEnd(src, j, LineChar)
  }

  /** The last `"` in `src[lo..hi]`, searching backwards like a greedy `*`. */
  function LastQuote(src: string, lo: nat, hi: nat): (q: Option<nat>)
    requires lo <= hi <= |src|
    ensures q.Some? ==> lo <= q.value < hi && src[q.value] == '"'
    ensures q.Some? ==> forall k :: q.value < k < hi ==> src[k] != '"'
    ensures q.None? ==> forall k :: lo <= k < hi ==> src[k] != '"'
    decreases hi
  {
    if hi <= lo then None
    else if src[hi - 1] == '"' then Some(hi - 1)
    else LastQuote(src, lo, hi - 1)
  }

  /**
   * Where the string opened at `i` closes: the last `"` before the next CR/LF
   * or the end of input, because the body class `[^\n\r]` admits `"`.
   */
  function ClosingQuote(src: string, i: nat): Option<nat>
    requires i < |src|
  {
    LastQuote(src, i + 1, LineEnd(src, i + 1))
  }

  /** `-?[0-9]` can start at `i`. */
  predicate StartsNumber(src: string, i: nat)
    requires i < |src|
  {
    IsDigit(src[i]) || (src[i] == '-' && i + 1 < |src| && IsDigit(src[i + 1]))
  }

  /** The end of the number starting at `i`: the fraction is taken only when a digit follows the `.`. */
  function NumberEnd(src: string, i: nat): (e: nat)
    requires i < |src| && StartsNumber(src, i)
    ensures i < e <= |src|
    ensures src[i] == '-' ==> i + 1 < e
  {
    var d := RunEnd(src, if src[i] == '-' then i + 1 else i, DigitChar);
    if d + 1 < |src| && src[d] == '.' && IsDigit(src[d + 1]) then RunEnd(src, d + 1, DigitChar) else d
  }

  // ---------------------------------------------------------------------
  // The classifier

  /**
   * Classify the input at offset `i`. The branches are tried by the first
   * character, which decides which patterns can match at all:
   * whitespace run; word (keyword if the whole word is one, else `Id`);
   * number; string; two-character symbol; one-character symbol; else `Error`.
   * Every outcome covers at least one character, so a scanner makes progress.
   */
  function Classify(src: string, i: nat): (m: Match)
    requires i < |src|
    ensures 0 < m.len <= |src| - i
  {
    var c := src[i];
    if IsWhitespaceChar(c) then
      Match(Whitespace, RunEnd(src, i, Blank) - i)
    else if IsIdStart(c) then
      var n := RunEnd(src, i, WordChar) - i;
      Match(match Lookup(src[i..i + n]) case Some(k) => k case None => Id, n)
    else if StartsNumber(src, i) then
      Match(Number, NumberEnd(src, i) - i)
    else if c == '"' then
      match ClosingQuote(src, i)
      case Some(q) => Match(String, q + 1 - i)
      case None => Match(Error, 1)
    else if i + 1 < |src| && Lookup(src[i..i + 2]).Some? then
      Match(Lookup(src[i..i + 2]).value, 2)
    else if Lookup(src[i..i + 1]).Some? then
      Match(Lookup(src[i..i + 1]).value, 1)
    else
      Match(Error, 1)
  }

  // ---------------------------------------------------------------------
  // The matching rule, stated over the patterns

  /** Kind `t` matches the `n` characters at offset `i`. */
  predicate MatchesAt(t: Token, src: string, i: nat, n: nat)
    requires i + n <= |src|
  {
    Matches(t, src[i..i + n])
  }

  /**
   * `m` is the outcome the longest-match rule prescribes at `i`: it matches
   * its own pattern (or, for `Error`, nothing matches at all and one
   * character is consumed); no pattern matches anything longer; and the only
   * other kind matching the same text is `Id`, beaten by a keyword.
   */
  ghost predicate IsLongestMatch(src: string, i: nat, m: Match)
    requires i < |src|
  {
    && 0 < m.len <= |src| - i
    && (m.token != Error ==> MatchesAt(m.token, src, i, m.len))
    && (m.token == Error ==>
          m.len == 1 && forall t, n :: 0 < n <= |src| - i ==> !MatchesAt(t, src, i, n))
    && (forall t, n :: m.len < n <= |src| - i ==> !MatchesAt(t, src, i, n))
    && (forall t :: t != m.token && MatchesAt(t, src, i, m.len) ==> IsKeyword(m.token) && t == Id)
  }

  /** The rule leaves no choice: at most one outcome satisfies it. */
  lemma LongestMatchIsUnique(src: string, i: nat, m1: Match, m2: Match)
    requires i < |src|
    requires IsLongestMatch(src, i, m1) && IsLongestMatch(src, i, m2)
    ensures m1 == m2
  {
    if m1.token != Error && m2.token != Error {
      assert MatchesAt(m1.token, src, i, m1.len);
      assert MatchesAt(m2.token, src, i, m2.len);
    }
  }

  /** Every kind is a regex kind, a keyword or a symbol. */
  lemma KindCases(t: Token)
    ensures IsPatternKind(t) || IsKeyword(t) || IsSymbol(t)
  {
  }

  /** What a match tells about the matched text, in particular its first characters. */
  lemma MatchStart(t: Token, w: string)
    ensures Matches(t, w) ==> |w| > 0 && !t.Error?
    ensures Matches(t, w) && t.Whitespace? ==> IsWhitespaceText(w)
    ensures Matches(t, w) && (t.Id? || IsKeyword(t)) ==> IsIdText(w)
    ensures Matches(t, w) && t.Number? ==>
      IsDigit(w[0]) || (w[0] == '-' && |w| > 1 && IsDigit(w[1]))
    ensures Matches(t, w) && t.String? ==> IsStringText(w)
    ensures Matches(t, w) && IsSymbol(t) ==>
      && 1 <= |w| <= 2
      && !IsWhitespaceChar(w[0]) && !IsIdStart(w[0]) && !IsDigit(w[0]) && w[0] != '"'
      && (|w| == 2 ==> w[1] == '=')
      && Lookup(w) == Some(t)
    ensures Matches(t, w) && IsKeyword(t) ==> Lookup(w) == Some(t)
  {
    if Matches(t, w) && t.Number? {
      NumberTextStart(w);
    } else if Matches(t, w) && IsSymbol(t) {
      SymbolMatchStart(t, w);
    } else if Matches(t, w) && IsKeyword(t) {
      KeywordMatchStart(t, w);
    }
  }

  /** A symbol's text has the shape `SymbolTextShape` gives, and `Lookup` finds the symbol from it. */
  lemma SymbolMatchStart(t: Token, w: string)
    requires IsSymbol(t) && Matches(t, w)
    ensures && 1 <= |w| <= 2
      && !IsWhitespaceChar(w[0]) && !IsIdStart(w[0]) && !IsDigit(w[0]) && w[0] != '"'
      && (|w| == 2 ==> w[1] == '=')
      && Lookup(w) == Some(t)
  {
    LookupComplete(t);
    SymbolTextShape(t);
  }

  /** A keyword's text is a word, and `Lookup` finds the keyword from it. */
  lemma KeywordMatchStart(t: Token, w: string)
    requires IsKeyword(t) && Matches(t, w)
    ensures IsIdText(w) && Lookup(w) == Some(t)
  {
    LookupComplete(t);
    KeywordTextIsWord(t);
  }

  /** A fixed-text kind found by `Lookup` matches that text. */
  lemma LookupMatches(w: string)
    ensures Lookup(w).Some? ==> Matches(Lookup(w).value, w)
  {
  }

  /**
   * In an unsigned number, the first non-digit is the `.`, and only digits
   * follow it.
   */
  lemma UnsignedNumberShape(b: string, d: nat)
    requires d <= |b|
    requires forall k :: 0 <= k < d ==> IsDigit(b[k])
    requires d == |b| || !IsDigit(b[d])
    ensures IsUnsignedNumberText(b) ==> 0 < d
    ensures IsUnsignedNumberText(b) && d < |b| ==>
      b[d] == '.' && d + 1 < |b| && forall k :: d < k < |b| ==> IsDigit(b[k])
  {
    if IsUnsignedNumberText(b) {
      if IsDigits(b) {
        assert IsDigit(b[0]);
      } else {
        var k :| 0 < k < |b| && b[k] == '.' && IsDigits(b[..k]) && IsDigits(b[k + 1..]);
        assert b[..k][0] == b[0];
        assert d == k;
        forall j | d < j < |b|
          ensures IsDigit(b[j])
        {
          assert b[k + 1..][j - k - 1] == b[j];
        }
      }
    }
  }

  /** The text `NumberEnd` delimits is a number. */
  lemma NumberEndMatches(src: string, i: nat)
    requires i < |src| && StartsNumber(src, i)
    ensures IsNumberText(src[i..NumberEnd(src, i)])
  {
    var e := NumberEnd(src, i);
    var s := if src[i] == '-' then i + 1 else i;
    var d := RunEnd(src, s, DigitChar);
    DigitRun(src, s);
    if e != d {
      DigitRun(src, d + 1);
      FractionText(src, s, d, e);
    }
    SignText(src, i, e);
  }

  /** Digits, a `.` and digits again form an unsigned number. */
  lemma FractionText(src: string, s: nat, d: nat, e: nat)
    requires s < d && d + 1 < e <= |src|
    requires IsDigits(src[s..d]) && src[d] == '.' && IsDigits(src[d + 1..e])
    ensures IsUnsignedNumberText(src[s..e])
  {
    var b := src[s..e];
    var k := d - s;
    assert b[..k] == src[s..d];
    assert b[k + 1..] == src[d + 1..e];
    assert b[k] == '.';
  }

  /** An unsigned number, with or without a leading `-`, is a number. */
  lemma SignText(src: string, i: nat, e: nat)
    requires i < e <= |src|
    ensures src[i] == '-' && IsUnsignedNumberText(src[i + 1..e]) ==> IsNumberText(src[i..e])
    ensures src[i] != '-' && IsUnsignedNumberText(src[i..e]) ==> IsNumberText(src[i..e])
  {
    var w := src[i..e];
    assert w[0] == src[i];
    if src[i] == '-' {
      assert w[1..] == src[i + 1..e];
    }
  }

  /** The run of digits from `j`, when it is not empty, is a digit string. */
  lemma DigitRun(src: string, j: nat)
    requires j <= |src|
    ensures var d := RunEnd(src, j, DigitChar);
      j < d ==> IsDigits(src[j..d])
  {
    var d := RunEnd(src, j, DigitChar);
    assert forall k :: 0 <= k < d - j ==> src[j..d][k] == src[j + k];
  }

  /** No text longer than the one `NumberEnd` delimits is a number. */
  lemma NumberIsMaximal(src: string, i: nat, n: nat)
    requires i < |src| && StartsNumber(src, i)
    requires NumberEnd(src, i) - i < n <= |src| - i
    ensures !IsNumberText(src[i..i + n])
  {
    var w := src[i..i + n];
    var s := if src[i] == '-' then i + 1 else i;
    var d := RunEnd(src, s, DigitChar);
    var b := src[s..i + n];
    assert forall k :: 0 <= k < |b| ==> b[k] == src[s + k];
    assert b == if |w| > 0 && w[0] == '-' then w[1..] else w;
    assert d <= NumberEnd(src, i) < i + n;
    UnsignedNumberShape(b, d - s);
    assert b[d - s] == src[d];
    if d + 1 < i + n {
      assert b[d - s + 1] == src[d + 1];
      if src[d] == '.' && IsDigit(src[d + 1]) {
        var f := RunEnd(src, d + 1, DigitChar);
        assert NumberEnd(src, i) == f;
        assert b[f - s] == src[f];
        assert !IsDigit(b[f - s]);
      }
    }
  }

  /** A string match starting at `i` never reaches past the closing quote `ClosingQuote` finds. */
  lemma StringIsBounded(src: string, i: nat, n: nat)
    requires i < |src| && src[i] == '"'
    requires 0 < n <= |src| - i
    ensures IsStringText(src[i..i + n]) ==>
      ClosingQuote(src, i).Some? && i + n <= ClosingQuote(src, i).value + 1
  {
    var w := src[i..i + n];
    if IsStringText(w) {
      var p := i + n - 1;
      var e := LineEnd(src, i + 1);
      assert src[p] == w[n - 1];
      forall k | i < k < p
        ensures IsNotLineBreak(src[k])
      {
        assert src[k] == w[k - i];
      }
      if e <= p {
        assert false;
      }
    }
  }

  /** Whatever `Classify` returns matches its own pattern, unless it is `Error`. */
  lemma ClassifyMatches(src: string, i: nat)
    requires i < |src|
    ensures var m := Classify(src, i);
      m.token != Error ==> Matches(m.token, src[i..i + m.len])
  {
    var c := src[i];
    if IsWhitespaceChar(c) {
      BlankRunMatches(src, i);
    } else if IsIdStart(c) {
      WordRunMatches(src, i);
      var w := src[i..RunEnd(src, i, WordChar)];
      if Lookup(w).Some? {
        LookupMatches(w);
      }
    } else if StartsNumber(src, i) {
      NumberEndMatches(src, i);
    } else if c == '"' {
      if ClosingQuote(src, i).Some? {
        QuotedMatches(src, i);
      }
    } else if i + 1 < |src| && Lookup(src[i..i + 2]).Some? {
      LookupMatches(src[i..i + 2]);
    } else if Lookup(src[i..i + 1]).Some? {
      LookupMatches(src[i..i + 1]);
    }
  }

  /** The run of whitespace from a whitespace character is whitespace text. */
  lemma BlankRunMatches(src: string, i: nat)
    requires i < |src| && IsWhitespaceChar(src[i])
    ensures IsWhitespaceText(src[i..RunEnd(src, i, Blank)])
  {
    var w := src[i..RunEnd(src, i, Blank)];
    assert forall k :: 0 <= k < |w| ==> w[k] == src[i + k];
  }

  /** The run of word characters from an identifier start is identifier text. */
  lemma WordRunMatches(src: string, i: nat)
    requires i < |src| && IsIdStart(src[i])
    ensures IsIdText(src[i..RunEnd(src, i, WordChar)])
  {
    var w := src[i..RunEnd(src, i, WordChar)];
    assert forall k :: 0 <= k < |w| ==> w[k] == src[i + k];
  }

  /** From an opening quote to the quote `ClosingQuote` finds is string text. */
  lemma QuotedMatches(src: string, i: nat)
    requires i < |src| && src[i] == '"' && ClosingQuote(src, i).Some?
    ensures IsStringText(src[i..ClosingQuote(src, i).value + 1])
  {
    var w := src[i..ClosingQuote(src, i).value + 1];
    assert forall k :: 0 <= k < |w| ==> w[k] == src[i + k];
  }

  /** No pattern matches a text longer than the one `Classify` chose. */
  lemma ClassifyIsLongest(src: string, i: nat, t: Token, n: nat)
    requires i < |src|
    requires Classify(src, i).len < n <= |src| - i
    ensures !Matches(t, src[i..i + n])
  {
    var w := src[i..i + n];
    var c := src[i];
    MatchStart(t, w);
    KindCases(t);
    assert w[0] == c;
    assert w[1] == src[i + 1];
    if IsWhitespaceChar(c) {
      var e := RunEnd(src, i, Blank);
      assert w[e - i] == src[e];
    } else if IsIdStart(c) {
      var e := RunEnd(src, i, WordChar);
      assert w[e - i] == src[e];
    } else if StartsNumber(src, i) {
      NumberIsMaximal(src, i, n);
    } else if c == '"' {
      StringIsBounded(src, i, n);
    }
  }

  /** When `Classify` reports `Error`, no pattern matches any prefix at `i`. */
  lemma ClassifyErrorMeansNoMatch(src: string, i: nat, t: Token, n: nat)
    requires i < |src|
    requires 0 < n <= |src| - i
    ensures Classify(src, i).token == Error ==> !Matches(t, src[i..i + n])
  {
    var w := src[i..i + n];
    MatchStart(t, w);
    KindCases(t);
    assert w[0] == src[i];
    assert n > 1 ==> w[1] == src[i + 1];
    if src[i] == '"' {
      StringIsBounded(src, i, n);
    }
  }

  /** At a word, the only kind besides the chosen one that matches the whole word is `Id`, beaten by a keyword. */
  lemma WordTieBreak(src: string, i: nat, t: Token)
    requires i < |src| && IsIdStart(src[i])
    ensures var m := Classify(src, i);
      t != m.token && Matches(t, src[i..i + m.len]) ==> IsKeyword(m.token) && t == Id
  {
    var m := Classify(src, i);
    var w := src[i..i + m.len];
    MatchStart(t, w);
    KindCases(t);
    ClassifyMatches(src, i);
    MatchStart(m.token, w);
    KindCases(m.token);
  }

  /** Away from a word, no other kind matches exactly the text `Classify` chose. */
  lemma NoTieOutsideWords(src: string, i: nat, t: Token)
    requires i < |src| && !IsIdStart(src[i])
    ensures var m := Classify(src, i);
      m.token != Error && t != m.token ==> !Matches(t, src[i..i + m.len])
  {
    var m := Classify(src, i);
    var w := src[i..i + m.len];
    MatchStart(t, w);
    KindCases(t);
    assert w[0] == src[i];
    assert m.len > 1 ==> w[1] == src[i + 1];
  }

  /** The only tie `Classify` breaks is a keyword against `Id`, and the keyword wins. */
  lemma ClassifyTieBreak(src: string, i: nat, t: Token)
    requires i < |src|
    ensures var m := Classify(src, i);
      t != m.token && Matches(t, src[i..i + m.len]) ==> IsKeyword(m.token) && t == Id
  {
    ClassifyErrorMeansNoMatch(src, i, t, Classify(src, i).len);
    if IsIdStart(src[i]) {
      WordTieBreak(src, i, t);
    } else {
      NoTieOutsideWords(src, i, t);
    }
  }

  /**
   * The classifier implements the longest-match rule: whatever `Classify`
   * returns is the one outcome `IsLongestMatch` allows.
   */
  lemma ClassifyIsLongestMatch(src: string, i: nat)
    requires i < |src|
    ensures IsLongestMatch(src, i, Classify(src, i))
  {
    var m := Classify(src, i);
    ClassifyMatches(src, i);
    forall t, n | m.len < n <= |src| - i
      ensures !MatchesAt(t, src, i, n)
    {
      ClassifyIsLongest(src, i, t, n);
    }
    if m.token == Error {
      forall t, n | 0 < n <= |src| - i
        ensures !MatchesAt(t, src, i, n)
      {
        ClassifyErrorMeansNoMatch(src, i, t, n);
      }
    }
    forall t | t != m.token && MatchesAt(t, src, i, m.len)
      ensures IsKeyword(m.token) && t == Id
    {
      ClassifyTieBreak(src, i, t);
    }
  }

  /**
   * The longest match at `i`: the outcome `IsLongestMatch` allows. There is
   * one, by `ClassifyIsLongestMatch`, and only one, by `LongestMatchIsUnique`.
   */
  ghost function Longest(src: string, i: nat): Match
    requires i < |src|
  {
    ClassifyIsLongestMatch(src, i);
    var m :| IsLongestMatch(src, i, m);
    m
  }

  /** The classifier's outcome is the longest match, and at a whitespace character that is `Whitespace`. */
  lemma ClassifyIsTheLongest(src: string, i: nat)
    requires i < |src|
    ensures Classify(src, i) == Longest(src, i)
    ensures IsWhitespaceChar(src[i]) ==> Longest(src, i).token == Whitespace
  {
    ClassifyIsLongestMatch(src, i);
    LongestMatchIsUnique(src, i, Classify(src, i), Longest(src, i));
  }

  // ---------------------------------------------------------------------
  // The priority rules at particular inputs

  /** What the classifier returns is the longest match; used to read the rule off concrete inputs. */
  lemma LongestIsClassify(src: string, i: nat, m: Match)
    requires i < |src| && Classify(src, i) == m
    ensures Longest(src, i) == m
  {
    ClassifyIsTheLongest(src, i);
  }

  /** `!=`, `==`, `>=` and `<=` are one token each, never their one-character prefix and another token. */
  lemma TwoCharOperatorWins(src: string, i: nat)
    requires i + 1 < |src| && src[i + 1] == '='
    requires src[i] == '!' || src[i] == '=' || src[i] == '>' || src[i] == '<'
    ensures Classify(src, i).len == 2
    ensures Classify(src, i).token ==
      match src[i]
      case '!' => BangEqual
      case '=' => EqualEqual
      case '>' => GreaterEqual
      case _ => LessEqual
  {
    assert src[i..i + 2] == [src[i], '='];
  }

  /** A keyword that is a whole word lexes as that keyword. */
  lemma KeywordWins(src: string, i: nat, t: Token)
    requires IsKeyword(t)
    requires i + |FixedText(t)| <= |src| && src[i..i + |FixedText(t)|] == FixedText(t)
    requires i + |FixedText(t)| == |src| || !IsIdChar(src[i + |FixedText(t)|])
    ensures Classify(src, i) == Match(t, |FixedText(t)|)
  {
    var n := |FixedText(t)|;
    KeywordMatchStart(t, src[i..i + n]);
    ClassifyWord(src, i, n);
  }

  /** On a whole word the classifier takes the word, as the keyword it spells if there is one, else as `Id`. */
  lemma ClassifyWord(src: string, i: nat, n: nat)
    requires i + n <= |src|
    requires IsIdText(src[i..i + n]) && (i + n == |src| || !IsIdChar(src[i + n]))
    ensures Classify(src, i) == Match(match Lookup(src[i..i + n]) case Some(k) => k case None => Id, n)
  {
    WordRun(src, i, n);
    ClassifyAtWordStart(src, i);
  }

  /** At an identifier start the classifier takes the run of word characters. */
  lemma ClassifyAtWordStart(src: string, i: nat)
    requires i < |src| && IsIdStart(src[i])
    ensures var e := RunEnd(src, i, WordChar);
      Classify(src, i) == Match(match Lookup(src[i..e]) case Some(k) => k case None => Id, e - i)
  {
  }

  /** A whole word at `i` is exactly the run of word characters from `i`, and it starts with an identifier start. */
  lemma WordRun(src: string, i: nat, n: nat)
    requires i + n <= |src|
    requires IsIdText(src[i..i + n]) && (i + n == |src| || !IsIdChar(src[i + n]))
    ensures IsIdStart(src[i]) && RunEnd(src, i, WordChar) == i + n
  {
    var w := src[i..i + n];
    assert src[i] == w[0];
    forall k | i <= k < i + n
      ensures IsIdChar(src[k])
    {
      assert src[k] == w[k - i];
    }
  }

  /** A whole word that is not spelled exactly like a keyword lexes as one `Id`, even when a keyword is a prefix of it. */
  lemma OtherWordIsId(src: string, i: nat, n: nat)
    requires i + n <= |src|
    requires IsIdText(src[i..i + n]) && (i + n == |src| || !IsIdChar(src[i + n]))
    requires forall t :: IsKeyword(t) ==> FixedText(t) != src[i..i + n]
    ensures Classify(src, i) == Match(Id, n)
  {
    var w := src[i..i + n];
    ClassifyWord(src, i, n);
    LookupMatches(w);
    if Lookup(w).Some? {
      MatchStart(Lookup(w).value, w);
      KindCases(Lookup(w).value);
      assert false;
    }
  }

  /** Under the longest-match rule `classify` is one identifier, not the keyword `class` and a rest. */
  lemma LongerWordExample()
    ensures Longest("classify", 0) == Match(Id, 8)
  {
    LongestIsClassify("classify", 0, Match(Id, 8));
  }

  /** Keywords are case-sensitive: `Class` is an identifier. */
  lemma CapitalisedKeywordExample()
    ensures Longest("Class", 0) == Match(Id, 5)
  {
    LongestIsClassify("Class", 0, Match(Id, 5));
  }

  /** `class` ties between the keyword and `Id`, and the keyword wins. */
  lemma KeywordExample()
    ensures Longest("class", 0) == Match(Class, 5)
  {
    LongestIsClassify("class", 0, Match(Class, 5));
  }

  // ---------------------------------------------------------------------
  // Literals

  /** `-` followed by anything but a digit is `Minus`. */
  lemma MinusWithoutDigit(src: string, i: nat)
    requires i < |src| && src[i] == '-'
    requires !(i + 1 < |src| && IsDigit(src[i + 1]))
    ensures Classify(src, i) == Match(Minus, 1)
  {
    assert src[i..i + 1] == "-";
  }

  /**
   * A `"` with no closing `"` before the next CR, LF or the end of input is
   * not a string: it is a one-character `Error` at the quote.
   */
  lemma UnterminatedString(src: string, i: nat)
    requires i < |src| && src[i] == '"'
    requires forall k :: i < k < LineEnd(src, i + 1) ==> src[k] != '"'
    ensures Classify(src, i) == Match(Error, 1)
  {
  }

  /** `-12.5` is one number, sign included. */
  lemma NegativeNumberExample()
    ensures Longest("-12.5", 0) == Match(Number, 5)
  {
    LongestIsClassify("-12.5", 0, Match(Number, 5));
  }

  /** `"xyz` has no closing quote: a one-character `Error` at the quote. */
  lemma UnterminatedStringExample()
    ensures Longest("\"xyz", 0) == Match(Error, 1)
  {
    LongestIsClassify("\"xyz", 0, Match(Error, 1));
  }

  /** `"a" + "b"` is one string: the body class admits `"`, so the match runs to the last quote. */
  lemma GreedyStringExample()
    ensures Longest("\"a\" + \"b\"", 0) == Match(String, 9)
  {
    LongestIsClassify("\"a\" + \"b\"", 0, Match(String, 9));
  }

  // ---------------------------------------------------------------------
  // The identifier pattern as the source writes it

  /**
   * The patterns with `Id` as src/lexer.rs:39 writes it, `[_a-zA-Z][_a-zA-Z0-9]`:
   * without a repetition it matches exactly two characters.
   */
  predicate MatchesAsWritten(t: Token, w: string) {
    if t.Id? then |w| == 2 && IsIdStart(w[0]) && IsIdChar(w[1]) else Matches(t, w)
  }

  /**
   * As written, no pattern matches a one-letter name, so `x` is an `Error`;
   * and the longest match at the start of `classify` is the keyword `class`,
   * leaving `if` and an unmatched `y` behind.
   */
  lemma AsWrittenRejectsOneLetterName()
    ensures forall t :: !MatchesAsWritten(t, "x")
    ensures MatchesAsWritten(Class, "classify"[..5])
    ensures forall t, n :: 5 < n <= 8 ==> !MatchesAsWritten(t, "classify"[..n])
  {
    forall t
      ensures !MatchesAsWritten(t, "x")
    {
      MatchStart(t, "x");
      KindCases(t);
    }
    forall t, n | 5 < n <= 8
      ensures !MatchesAsWritten(t, "classify"[..n])
    {
      var w := "classify"[..n];
      MatchStart(t, w);
      KindCases(t);
    }
  }

  /** With the unbounded pattern, the same inputs are whole identifiers. */
  lemma CorrectedIdExamples()
    ensures Longest("x", 0) == Match(Id, 1)
    ensures Longest("classify", 0) == Match(Id, 8)
  {
    LongestIsClassify("x", 0, Match(Id, 1));
    LongerWordExample();
  }
}
