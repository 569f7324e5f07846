/**
 * The closed set of token kinds of the lexer (the `Token` enum of
 * src/lexer.rs) and, for each kind, the pattern it matches, written as a
 * predicate on the matched text. These predicates are the reference the
 * classifier is proved against: they say WHICH texts a kind accepts, not how
 * a cursor finds them.
 */
module TokenKinds {
  import opened Wrappers

  /**
   * Token kinds in declaration order. `Number` carries an f64 in the source;
   * the parsed value is not modelled (its text is recoverable from the span).
   */
  datatype Token =
    // Meta
    | Error | Whitespace
    // Literals
    | Id | Number | String
    // Keywords
    | And | Class | Else | False | Fun | For | If | Nil | Or
    | Print | Return | Super | This | True | Var | While
    // Symbols
    | LeftParen | RightParen | LeftBrace | RightBrace | Comma | Dot
    | Minus | Plus | Semicolon | Slash | Star
    // Comparison symbols
    | Bang | BangEqual | Equal | EqualEqual
    | Greater | GreaterEqual | Less | LessEqual

  /** A half-open range `[start, end)` of offsets into the source. */
  datatype Span = Span(start: nat, end: nat)

  /** One element of the lexer's output: `(Token, Range<usize>)`. */
  datatype Lexeme = Lexeme(token: Token, span: Span)

  // ---------------------------------------------------------------------
  // Character classes

  /** `[ \r\t\n\f]` */
  predicate IsWhitespaceChar(c: char) {
    c == ' ' || c == '\r' || c == '\t' || c == '\n' || c == '\U{000C}'
  }

  /** `[_a-zA-Z]` */
  predicate IsIdStart(c: char) {
    c == '_' || ('a' <= c <= 'z') || ('A' <= c <= 'Z')
  }

  /** `[0-9]` */
  predicate IsDigit(c: char) {
    '0' <= c <= '9'
  }

  /** `[_a-zA-Z0-9]` */
  predicate IsIdChar(c: char) {
    IsIdStart(c) || IsDigit(c)
  }

  /** `[^\n\r]`, the body class of the string pattern. */
  predicate IsNotLineBreak(c: char) {
    c != '\n' && c != '\r'
  }

  // ---------------------------------------------------------------------
  // Kinds bound to a fixed text (`#[token("...")]`)

  predicate IsKeyword(t: Token) {
    t.And? || t.Class? || t.Else? || t.False? || t.Fun? || t.For? || t.If? || t.Nil? ||
    t.Or? || t.Print? || t.Return? || t.Super? || t.This? || t.True? || t.Var? || t.While?
  }

  predicate IsSymbol(t: Token) {
    t.LeftParen? || t.RightParen? || t.LeftBrace? || t.RightBrace? || t.Comma? || t.Dot? ||
    t.Minus? || t.Plus? || t.Semicolon? || t.Slash? || t.Star? ||
    t.Bang? || t.BangEqual? || t.Equal? || t.EqualEqual? ||
    t.Greater? || t.GreaterEqual? || t.Less? || t.LessEqual?
  }

  /** The kinds matched by a regex rather than a fixed text. */
  predicate IsPatternKind(t: Token) {
    t.Error? || t.Whitespace? || t.Id? || t.Number? || t.String?
  }

  /** The text of a keyword or symbol. Note `[`/`]` are the braces and `'` is the semicolon. */
  function FixedText(t: Token): string
    requires !IsPatternKind(t)
  {
    match t
    case And => "and"
    case Class => "class"
    case Else => "else"
    case False => "false"
    case Fun => "fun"
    case For => "for"
    case If => "if"
    case Nil => "nil"
    case Or => "or"
    case Print => "print"
    case Return => "return"
    case Super => "super"
    case This => "this"
    case True => "true"
    case Var => "var"
    case While => "while"
    case LeftParen => "("
    case RightParen => ")"
    case LeftBrace => "["
    case RightBrace => "]"
    case Comma => ","
    case Dot => "."
    case Minus => "-"
    case Plus => "+"
    case Semicolon => "'"
    case Slash => "/"
    case Star => "*"
    case Bang => "!"
    case BangEqual => "!="
    case Equal => "="
    case EqualEqual => "=="
    case Greater => ">"
    case GreaterEqual => ">="
    case Less => "<"
    case LessEqual => "<="
  }

  /**
   * The `#[token]` table read backwards: which fixed-text kind, if any, is
   * spelled `w`. It dispatches on the first character, as a matcher would.
   */
  function Lookup(w: string): (r: Option<Token>)
    ensures r.Some? ==> !IsPatternKind(r.value) && FixedText(r.value) == w
  {
    if |w| == 0 then None
    else if |w| == 1 then LookupOne(w[0])
    else if |w| == 2 && w[1] == '=' then
      match w[0]
      case '!' => Some(BangEqual)
      case '=' => Some(EqualEqual)
      case '>' => Some(GreaterEqual)
      case '<' => Some(LessEqual)
      case _ => LookupKeyword(w)
    else LookupKeyword(w)
  }

  /** The one-character symbols. */
  function LookupOne(c: char): (r: Option<Token>)
    ensures r.Some? ==> IsSymbol(r.value) && FixedText(r.value) == [c]
  {
    match c
    case '(' => Some(LeftParen)
    case ')' => Some(RightParen)
    case '[' => Some(LeftBrace)
    case ']' => Some(RightBrace)
    case ',' => Some(Comma)
    case '.' => Some(Dot)
    case '-' => Some(Minus)
    case '+' => Some(Plus)
    case '\'' => Some(Semicolon)
    case '/' => Some(Slash)
    case '*' => Some(Star)
    case '!' => Some(Bang)
    case '=' => Some(Equal)
    case '>' => Some(Greater)
    case '<' => Some(Less)
    case _ => None
  }

  /** The keywords, by first letter. */
  function LookupKeyword(w: string): (r: Option<Token>)
    requires |w| > 0
    ensures r.Some? ==> IsKeyword(r.value) && FixedText(r.value) == w
  {
    match w[0]
    case 'a' => if w == "and" then Some(And) else None
    case 'c' => if w == "class" then Some(Class) else None
    case 'e' => if w == "else" then Some(Else) else None
    case 'f' =>
      if w == "false" then Some(False)
      else if w == "fun" then Some(Fun)
      else if w == "for" then Some(For)
      else None
    case 'i' => if w == "if" then Some(If) else None
    case 'n' => if w == "nil" then Some(Nil) else None
    case 'o' => if w == "or" then Some(Or) else None
    case 'p' => if w == "print" then Some(Print) else None
    case 'r' => if w == "return" then Some(Return) else None
    case 's' => if w == "super" then Some(Super) else None
    case 't' =>
      if w == "this" then Some(This)
      else if w == "true" then Some(True)
      else None
    case 'v' => if w == "var" then Some(Var) else None
    case 'w' => if w == "while" then Some(While) else None
    case _ => None
  }

  /** Every fixed-text kind is found again from its text, so no two share a text. */
  lemma LookupComplete(t: Token)
    requires !IsPatternKind(t)
    ensures Lookup(FixedText(t)) == Some(t)
  {
  }

  lemma FixedTextInjective(t: Token, u: Token)
    requires !IsPatternKind(t) && !IsPatternKind(u)
    requires FixedText(t) == FixedText(u)
    ensures t == u
  {
    LookupComplete(t);
    LookupComplete(u);
  }

  /** Keywords are words: they are spelled with identifier characters only. */
  lemma KeywordTextIsWord(t: Token)
    requires IsKeyword(t)
    ensures IsIdText(FixedText(t))
  {
  }

  /**
   * Symbols are one or two characters; the first cannot start any other kind,
   * and the only two-character symbols end in `=`.
   */
  lemma SymbolTextShape(t: Token)
    requires IsSymbol(t)
    ensures var w := FixedText(t);
      && 1 <= |w| <= 2
      && !IsWhitespaceChar(w[0]) && !IsIdStart(w[0]) && !IsDigit(w[0]) && w[0] != '"'
      && (|w| == 2 ==> w[1] == '=')
  {
  }

  // ---------------------------------------------------------------------
  // Patterns of the regex kinds

  /** `[ \r\t\n\f]+` */
  predicate IsWhitespaceText(w: string) {
    |w| > 0 && forall k :: 0 <= k < |w| ==> IsWhitespaceChar(w[k])
  }

  /**
   * `[_a-zA-Z][_a-zA-Z0-9]*`. The source writes the pattern without the `*`
   * (src/lexer.rs:39), which matches exactly two characters; this model uses
   * the unbounded pattern, and `Classifier.MatchesAsWritten` keeps the
   * pattern as written.
   */
  predicate IsIdText(w: string) {
    |w| > 0 && IsIdStart(w[0]) && forall k :: 0 < k < |w| ==> IsIdChar(w[k])
  }

  /** `[0-9]+` */
  predicate IsDigits(w: string) {
    |w| > 0 && forall k :: 0 <= k < |w| ==> IsDigit(w[k])
  }

  /** `[0-9]+(\.[0-9]+)?` */
  predicate IsUnsignedNumberText(w: string) {
    || IsDigits(w)
    || exists k :: 0 < k < |w| && w[k] == '.' && IsDigits(w[..k]) && IsDigits(w[k + 1..])
  }

  /** `-?[0-9]+(\.[0-9]+)?` */
  predicate IsNumberText(w: string) {
    if |w| > 0 && w[0] == '-' then IsUnsignedNumberText(w[1..]) else IsUnsignedNumberText(w)
  }

  /** `"[^\n\r]*"`: note the body class does not exclude `"`. */
  predicate IsStringText(w: string) {
    && |w| >= 2 && w[0] == '"' && w[|w| - 1] == '"'
    && forall k :: 0 < k < |w| - 1 ==> IsNotLineBreak(w[k])
  }

  /** Whether kind `t` matches exactly the text `w`. `Error` matches nothing. */
  predicate Matches(t: Token, w: string) {
    if t.Error? then false
    else if t.Whitespace? then IsWhitespaceText(w)
    else if t.Id? then IsIdText(w)
    else if t.Number? then IsNumberText(w)
    else if t.String? then IsStringText(w)
    else w == FixedText(t)
  }

  /** A number starts with a digit, or with `-` and a digit. */
  lemma NumberTextStart(w: string)
    requires IsNumberText(w)
    ensures |w| > 0
    ensures IsDigit(w[0]) || (w[0] == '-' && |w| > 1 && IsDigit(w[1]))
  {
    var b := if |w| > 0 && w[0] == '-' then w[1..] else w;
    assert IsUnsignedNumberText(b);
    if !IsDigits(b) {
      var k :| 0 < k < |b| && b[k] == '.' && IsDigits(b[..k]) && IsDigits(b[k + 1..]);
      assert b[..k][0] == b[0];
    }
  }
}
