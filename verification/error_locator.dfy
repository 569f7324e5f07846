/**
 * The error locator, `LexerError::err` (src/lexer.rs:12-25): from the source
 * and the span of an unknown token it computes a line index and a pair of
 * columns and formats the diagnostic. The source is modelled as a sequence
 * of ASCII characters, so character and byte offsets coincide.
 */
module ErrorLocator {
  import opened Wrappers
  import opened TokenKinds

  /** `LexerError::UnknownToken`, carrying the formatted diagnostic. */
  datatype LexerError = UnknownToken(message: string)
  {
    /** `LexerError::err`: the diagnostic for the token at `span`. Slicing out of range is a panic in the source, hence the precondition. */
    static function Err(src: string, span: Span): (e: LexerError)
      requires span.start <= span.end <= |src|
      ensures |e.message| > |MessagePrefix| + (span.end - span.start)
      ensures e.message[..|MessagePrefix|] == MessagePrefix
      ensures e.message[|e.message| - (span.end - span.start)..] == src[span.start..span.end]
    {
      UnknownToken(Message(src, span))
    }
  }

  const MessagePrefix := "error: unknown token on line "

  // ---------------------------------------------------------------------
  // Lines and columns

  /** The number of `'\n'` in `s` (`chars().filter(..).count()`). */
  function CountNewlines(s: string): (n: nat)
    ensures n <= |s|
  {
    if s == [] then 0
    else CountNewlines(s[..|s| - 1]) + (if s[|s| - 1] == '\n' then 1 else 0)
  }

  /** `rfind('\n')`: the offset of the last `'\n'` in `s`, if any. */
  function LastNewline(s: string): (r: Option<nat>)
    ensures r.Some? ==> r.value < |s| && s[r.value] == '\n'
    ensures r.Some? ==> forall k :: r.value < k < |s| ==> s[k] != '\n'
    ensures r.None? ==> forall k :: 0 <= k < |s| ==> s[k] != '\n'
  {
    if s == [] then None
    else if s[|s| - 1] == '\n' then Some(|s| - 1)
    else LastNewline(s[..|s| - 1])
  }

  /** The 0-based line of offset `start`: the newlines before it. */
  function LineIndex(src: string, start: nat): nat
    requires start <= |src|
  {
    CountNewlines(src[..start])
  }

  /**
   * `last_line`: the offset of the last `'\n'` strictly before `start`, or 0.
   * It is the newline itself, not the first character after it.
   */
  function LastLine(src: string, start: nat): (b: nat)
    requires start <= |src|
    ensures b <= start
    ensures b == 0 || (b < start && src[b] == '\n')
  {
    match LastNewline(src[..start])
    case Some(q) => q
    case None => 0
  }

  /** The reported column pair: both ends of the span, relative to `LastLine`. */
  function Columns(src: string, span: Span): (nat, nat)
    requires span.start <= span.end <= |src|
  {
    var base := LastLine(src, span.start);
    (span.start - base, span.end - base)
  }

  /** The line index is the multiplicity of `'\n'` among the characters before `start`. */
  lemma {:induction false} CountNewlinesIsMultiplicity(s: string)
    ensures CountNewlines(s) == multiset(s)['\n']
  {
    if s != [] {
      var init, last := s[..|s| - 1], s[|s| - 1];
      assert s == init + [last];
      assert multiset(s) == multiset(init) + multiset{last};
      CountNewlinesIsMultiplicity(init);
    }
  }

  /** No newline is counted exactly when `rfind` finds none. */
  lemma {:induction false} NoNewlineCounted(s: string)
    ensures CountNewlines(s) == 0 <==> LastNewline(s).None?
  {
    if s != [] {
      NoNewlineCounted(s[..|s| - 1]);
    }
  }

  /** The columns are as far apart as the span is long. */
  lemma ColumnsWidth(src: string, span: Span)
    requires span.start <= span.end <= |src|
    ensures Columns(src, span).1 - Columns(src, span).0 == span.end - span.start
  {
  }

  /** On line 0 the columns are the raw offsets. */
  lemma FirstLineColumns(src: string, span: Span)
    requires span.start <= span.end <= |src|
    requires LineIndex(src, span.start) == 0
    ensures Columns(src, span) == (span.start, span.end)
  {
    NoNewlineCounted(src[..span.start]);
  }

  /**
   * On a later line the start column is the distance from the newline that
   * ends the previous line, so it is at least 1.
   */
  lemma LaterLineColumns(src: string, span: Span)
    requires span.start <= span.end <= |src|
    requires LineIndex(src, span.start) > 0
    ensures Columns(src, span).0 >= 1
    ensures src[span.start - Columns(src, span).0] == '\n'
    ensures forall k :: span.start - Columns(src, span).0 < k < span.start ==> src[k] != '\n'
  {
    NoNewlineCounted(src[..span.start]);
    var q := LastNewline(src[..span.start]).value;
    assert src[..span.start][q] == src[q];
    forall k | q < k < span.start
      ensures src[k] != '\n'
    {
      assert src[..span.start][k] == src[k];
    }
  }

  /**
   * The first character of a line is column 0 on line 0 but column 1 on
   * every later line, because the base is the newline's own offset.
   */
  lemma LineStartColumn(src: string, span: Span)
    requires span.start <= span.end <= |src|
    requires span.start == 0 || src[span.start - 1] == '\n'
    ensures Columns(src, span).0 == if span.start == 0 then 0 else 1
  {
    if span.start > 0 {
      var s := src[..span.start];
      assert s[|s| - 1] == '\n';
    }
  }

  // ---------------------------------------------------------------------
  // Decimal formatting (`{}` on `usize`)

  function DigitChar(d: nat): (c: char)
    requires d < 10
    ensures IsDigit(c) && DigitValue(c) == d
  {
    (d + '0' as int) as char
  }

  function DigitValue(c: char): nat
    requires IsDigit(c)
  {
    c as int - '0' as int
  }

  /** The decimal spelling of `n`: digits only, no leading zero. */
  function Decimal(n: nat): (s: string)
    ensures |s| > 0 && forall k :: 0 <= k < |s| ==> IsDigit(s[k])
    ensures s[0] == '0' ==> n == 0 && s == "0"
    decreases n
  {
    if n < 10 then [DigitChar(n)] else Decimal(n / 10) + [DigitChar(n % 10)]
  }

  /** Reads a decimal numeral back. */
  function ParseDecimal(s: string): nat
    requires forall k :: 0 <= k < |s| ==> IsDigit(s[k])
  {
    if s == [] then 0 else ParseDecimal(s[..|s| - 1]) * 10 + DigitValue(s[|s| - 1])
  }

  /** Formatting loses nothing: the numeral reads back as the number. */
  lemma {:induction false} DecimalRoundTrip(n: nat)
    ensures ParseDecimal(Decimal(n)) == n
  {
    if n >= 10 {
      var s := Decimal(n);
      assert s[..|s| - 1] == Decimal(n / 10);
      DecimalRoundTrip(n / 10);
    }
  }

  // ---------------------------------------------------------------------
  // The diagnostic

  /** `"error: unknown token on line {line}, chars {start}..{end}:\n{text}"`. */
  function Message(src: string, span: Span): string
    requires span.start <= span.end <= |src|
  {
    var cols := Columns(src, span);
    MessagePrefix + Decimal(LineIndex(src, span.start))
      + ", chars " + Decimal(cols.0) + ".." + Decimal(cols.1)
      + ":\n" + src[span.start..span.end]
  }

  /** An unknown token on the second line, right after the newline, is reported at chars 1..2. */
  lemma SecondLineExample()
    ensures LexerError.Err("var x = 1\n@", Span(10, 11))
         == UnknownToken("error: unknown token on line 1, chars 1..2:\n@")
  {
    var src := "var x = 1\n@";
    SecondLineLocation(src);
    calc {
      Message(src, Span(10, 11));
      MessagePrefix + Decimal(1) + ", chars " + Decimal(1) + ".." + Decimal(2) + ":\n" + src[10..11];
      { assert src[10..11] == "@"; }
      "error: unknown token on line 1, chars 1..2:\n@";
    }
  }

  /** Where `SecondLineExample` puts its token: line 1, columns 1 and 2. */
  lemma SecondLineLocation(src: string)
    requires src == "var x = 1\n@"
    ensures LineIndex(src, 10) == 1 && Columns(src, Span(10, 11)) == (1, 2)
  {
    var before := src[..10];
    assert before == "var x = 1" + "\n";
    CountNewlinesIsMultiplicity(before);
    assert multiset(before)['\n'] == 1;
    assert LastNewline(before) == Some(9);
  }
}
