/** The bytes on the wire, in a client's own terms: which of them end a word, which stand for a token, which make a
    name or a number, and how long each may get (sections 4 and 9 of RFC 9051). */
module ReceiverWire {
  import opened Wrappers
  import opened Receiver

  /** A character of ASCII, as the byte that is sent. */
  function Ascii(c: char): Byte
    requires c < '\U{000080}'
  {
    c as int
  }

  /** Tab, line feed, form feed, carriage return, space. */
  predicate White(ch: Byte) { (9 <= ch <= 13 && ch != 11) || ch == 32 }

  predicate Digit(ch: Byte) { Ascii('0') <= ch <= Ascii('9') }

  predicate Letter(ch: Byte) { Ascii('a') <= ch <= Ascii('z') || Ascii('A') <= ch <= Ascii('Z') }

  function Capital(ch: Byte): Byte {
    if Ascii('a') <= ch <= Ascii('z') then Ascii('A') + (ch - Ascii('a')) else ch
  }

  /** The tokens that are one byte on the wire; all but the parentheses only for commands that tokenize brackets. */
  predicate IsSign(token: Token, brackets: bool) {
    token.ParenthesisOpen? || token.ParenthesisClose? ||
    (brackets && (token.BracketOpen? || token.BracketClose? || token.Lt? || token.Gt? || token.Dot?))
  }

  function Sign(token: Token): Byte
    requires IsSign(token, true)
  {
    match token
    case ParenthesisOpen => Ascii('(')
    case ParenthesisClose => Ascii(')')
    case BracketOpen => Ascii('[')
    case BracketClose => Ascii(']')
    case Lt => Ascii('<')
    case Gt => Ascii('>')
    case Dot => Ascii('.')
  }

  const SIGNS: seq<Token> := [ParenthesisOpen, ParenthesisClose, BracketOpen, BracketClose, Lt, Gt, Dot]

  /** A byte that belongs to a word wherever it stands. */
  predicate WordByte(ch: Byte, brackets: bool) {
    !White(ch) && ch != Ascii('"') && ch != Ascii('{') && ch != Ascii('(') && ch != Ascii(')') &&
    (brackets ==> ch != Ascii('[') && ch != Ascii(']') && ch != Ascii('<') && ch != Ascii('>') && ch != Ascii('.'))
  }

  // ------------------------------------------------- what the receiver makes of them

  lemma WhiteRead(ch: Byte)
    ensures IsWhitespace(ch) <==> White(ch)
  {
  }

  lemma SignRead(token: Token, brackets: bool)
    requires IsSign(token, brackets)
    ensures Delimiter(Sign(token), brackets) == Some(token)
    ensures !White(Sign(token)) && Sign(token) != Ascii('"') && Sign(token) != Ascii('{')
  {
  }

  lemma WordByteRead(ch: Byte, brackets: bool)
    requires WordByte(ch, brackets)
    ensures Delimiter(ch, brackets) == None
  {
  }

  lemma StartByte(cfg: Config, s: Fields, ch: Byte)
    requires s.state.Start?
    ensures Step(cfg, s, ch) == if White(ch) then (s, None) else (s.(buf := s.buf + [ch], state := Tag), None)
  {
  }

  /** A tag has 128 bytes at most, and ends at a space; tabs and carriage returns are not part of it. */
  lemma TagByte(cfg: Config, s: Fields, ch: Byte)
    requires s.state.Tag?
    ensures ch != 32 && ch != 9 && ch != 13 && ch != 10 ==>
      Step(cfg, s, ch) == if |s.buf| < 128 then (s.(buf := s.buf + [ch]), None) else Fail(cfg, s)
    ensures ch == 9 || ch == 13 ==> Step(cfg, s, ch) == (s, None)
    ensures ch == 10 ==> Step(cfg, s, ch) == Fail(cfg, s)
  {
  }

  /** A command has 15 letters and digits at most, which become capitals; any other byte that is not white is an error. */
  lemma CommandByte(cfg: Config, s: Fields, ch: Byte)
    requires s.state.Command? && !White(ch)
    ensures Step(cfg, s, ch) ==
      if (Letter(ch) || Digit(ch)) && |s.buf| < 15 then (s.(buf := s.buf + [Capital(ch)]), None) else Fail(cfg, s)
  {
  }

  /** Inside a word every byte is data, up to 4096 of them, but for white space and signs. */
  lemma ByteInWord(cfg: Config, s: Fields, ch: Byte)
    requires s.state.Argument? && s.buf != [] && !White(s.state.lastCh) && !White(ch)
    requires forall t :: t in SIGNS && IsSign(t, cfg.parser.tokenizeBrackets(s.request.command)) ==> ch != Sign(t)
    requires ch == Ascii('{') ==> !(s.state.lastCh == Ascii('~') && |s.buf| == 1)
    ensures Step(cfg, s, ch) ==
      if |s.buf| < 4096 then (s.(buf := s.buf + [ch], state := State.Argument(ch)), None) else Fail(cfg, s)
  {
    var brackets := cfg.parser.tokenizeBrackets(s.request.command);
    assert SIGNS[0] in SIGNS && SIGNS[1] in SIGNS && SIGNS[2] in SIGNS && SIGNS[3] in SIGNS;
    assert SIGNS[4] in SIGNS && SIGNS[5] in SIGNS && SIGNS[6] in SIGNS;
    NoSign(ch, brackets);
  }

  lemma NoSign(ch: Byte, brackets: bool)
    requires ch != Ascii('(') && ch != Ascii(')')
    requires brackets ==> ch != Ascii('[') && ch != Ascii(']') && ch != Ascii('<') && ch != Ascii('>') && ch != Ascii('.')
    ensures Delimiter(ch, brackets) == None
  {
  }

  /** In quotes every byte is data, up to 4096 of them, but for the quote, the backslash and the line feed. */
  lemma ByteInQuotes(cfg: Config, s: Fields, ch: Byte)
    requires s.state == ArgumentQuoted(false) && ch != Ascii('"') && ch != Ascii('\\') && ch != 10
    ensures Step(cfg, s, ch) == if |s.buf| < 4096 then (s.(buf := s.buf + [ch]), None) else Fail(cfg, s)
  {
  }

  /** A number has 15 digits at most, none of them behind a plus. */
  lemma ByteInNumber(cfg: Config, s: Fields, ch: Byte)
    requires s.state.Literal? && ch != Ascii('}') && ch != Ascii('+')
    ensures Step(cfg, s, ch) ==
      if Digit(ch) && !s.state.nonSync && |s.buf| < 15 then (s.(buf := s.buf + [ch]), None) else Fail(cfg, s)
  {
  }

  /** The announced size has to be a number of 32 bits that the request has room for. */
  lemma NumberEnds(cfg: Config, s: Fields, n: nat)
    requires s.state.Literal? && s.buf != [] && AllDigits(s.buf) && DecimalValue(s.buf) == n
    ensures Step(cfg, s, Ascii('}')) ==
      if n < 4294967296 && s.size + n <= cfg.maxRequestSize then (s.(buf := [], state := LiteralSeek(n, s.state.nonSync)), None)
      else Fail(cfg, s)
  {
  }

  /** Behind the number there may be white space up to the end of the line, and nothing else. */
  lemma ByteBehindNumber(cfg: Config, s: Fields, ch: Byte)
    requires s.state.LiteralSeek? && ch != 10
    ensures Step(cfg, s, ch) == if White(ch) then (s, None) else Fail(cfg, s)
  {
  }
}
