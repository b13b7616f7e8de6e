/** What a client writes, the receiver reads back: requests in the formats of section 4.3 of
    RFC 9051 (atoms, quoted strings, non-synchronizing literals, parentheses), pipelined. */
module ReceiverRoundTrip {
  import opened Sequences
  import opened Wrappers
  import opened Receiver
  import opened ReceiverProofs
  import opened ReceiverWire

  // ------------------------------------------------------- the client side

  datatype Item =
    | Atom(bytes: seq<Byte>)
    | Quoted(bytes: seq<Byte>)
    | Lit(bytes: seq<Byte>, binary: bool)
    | Mark(token: Token)

  /** An item, with or without a space in front of it. */
  datatype Piece = Piece(gap: bool, item: Item)

  datatype ClientRequest = ClientRequest(tag: seq<Byte>, uid: bool, name: seq<Byte>, command: Verb, pieces: seq<Piece>)

  function Decimal(n: nat): (r: seq<Byte>)
    ensures r != []
  {
    if n < 10 then [Ascii('0') + n] else Decimal(n / 10) + [Ascii('0') + n % 10]
  }

  function Escape(bytes: seq<Byte>): seq<Byte> {
    if bytes == [] then []
    else
      (if bytes[0] == Ascii('"') || bytes[0] == Ascii('\\') then [Ascii('\\'), bytes[0]] else [bytes[0]])
      + Escape(bytes[1..])
  }

  /** The end of a line. */
  const CRLF: seq<Byte> := [13, 10]

  function LiteralOpening(binary: bool): seq<Byte> {
    (if binary then [Ascii('~')] else []) + [Ascii('{')]
  }

  function LiteralSize(n: nat): seq<Byte> {
    Decimal(n) + [Ascii('+'), Ascii('}'), 13]
  }

  function EncodeItem(item: Item): seq<Byte> {
    match item
    case Atom(bytes) => bytes
    case Quoted(bytes) => [Ascii('"')] + Escape(bytes) + [Ascii('"')]
    case Lit(bytes, binary) => LiteralOpening(binary) + LiteralSize(|bytes|) + ([10] + bytes)
    case Mark(token) => if IsSign(token, true) then [Sign(token)] else []
  }

  function EncodePiece(piece: Piece): seq<Byte> {
    (if piece.gap then [Ascii(' ')] else []) + EncodeItem(piece.item)
  }

  function EncodePieces(pieces: seq<Piece>): seq<Byte> {
    if pieces == [] then [] else EncodePiece(pieces[0]) + EncodePieces(pieces[1..])
  }

  function EncodeRequest(cfg: Config, r: ClientRequest): seq<Byte> {
    (if cfg.startState == Start then r.tag + [Ascii(' ')] else [])
    + ((if r.uid then [Ascii('U'), Ascii('I'), Ascii('D'), Ascii(' ')] else [])
    + (r.name + ((if r.pieces == [] then [] else [Ascii(' ')] + EncodePieces(r.pieces)) + CRLF)))
  }

  function EncodeAll(cfg: Config, rs: seq<ClientRequest>): seq<Byte> {
    if rs == [] then [] else EncodeRequest(cfg, rs[0]) + EncodeAll(cfg, rs[1..])
  }

  // ------------------------------------------------- what the client means

  function TokenOf(item: Item): Token {
    match item
    case Atom(bytes) => Token.Argument(bytes)
    case Quoted(bytes) => if bytes == [] then Nil else Token.Argument(bytes)
    case Lit(bytes, _) => if bytes == [] then Nil else Token.Argument(bytes)
    case Mark(token) => token
  }

  function TokensOf(pieces: seq<Piece>): seq<Token> {
    if pieces == [] then [] else [TokenOf(pieces[0].item)] + TokensOf(pieces[1..])
  }

  function Weight(item: Item): nat {
    match item
    case Atom(bytes) => |bytes|
    case Quoted(bytes) => |bytes|
    case Lit(bytes, _) => if bytes == [] then 1 else |bytes|
    case Mark(_) => 1
  }

  function TotalWeight(pieces: seq<Piece>): nat {
    if pieces == [] then 0 else Weight(pieces[0].item) + TotalWeight(pieces[1..])
  }

  predicate ItemOk(item: Item, brackets: bool) {
    match item
    case Atom(bytes) => 0 < |bytes| <= 4096 && forall i :: 0 <= i < |bytes| ==> WordByte(bytes[i], brackets)
    case Quoted(bytes) => |bytes| <= 4096 && 10 !in bytes
    case Lit(bytes, _) => |bytes| < 4294967296
    case Mark(token) => IsSign(token, brackets)
  }

  /** Where the client stands on the line: behind white space, inside a word, or right behind a delimiter that
      followed a word.  A quote or a brace is only special behind white space, so the client must leave a gap there. */
  datatype Place = Gap | Word | Glued

  function Arrive(at: Place, piece: Piece): Place { if piece.gap then Gap else at }

  predicate Fits(at: Place, item: Item) {
    match item
    case Atom(_) => at != Word
    case Quoted(_) => at == Gap
    case Lit(_, binary) => if binary then at != Word else at == Gap
    case Mark(_) => true
  }

  function Leave(at: Place, item: Item): Place {
    match item
    case Atom(_) => Word
    case Quoted(_) => Gap
    case Lit(_, _) => Gap
    case Mark(_) => if at == Gap then Gap else Glued
  }

  predicate LaidOut(at: Place, pieces: seq<Piece>, brackets: bool)
    decreases |pieces|
  {
    pieces == [] ||
    var here := Arrive(at, pieces[0]);
    && ItemOk(pieces[0].item, brackets) && Fits(here, pieces[0].item)
    && LaidOut(Leave(here, pieces[0].item), pieces[1..], brackets)
  }

  function Upper(name: seq<Byte>): (r: seq<Byte>)
    ensures |r| == |name|
  {
    if name == [] then [] else [Capital(name[0])] + Upper(name[1..])
  }

  predicate TagOk(cfg: Config, tag: seq<Byte>) {
    && 0 < |tag| <= 128 && cfg.parser.isUtf8(tag)
    && !White(tag[0])
    && forall i :: 0 <= i < |tag| ==> tag[i] != 32 && tag[i] != 9 && tag[i] != 13 && tag[i] != 10
  }

  predicate NameOk(name: seq<Byte>) {
    && 0 < |name| <= 15 && Upper(name) != [Ascii('U'), Ascii('I'), Ascii('D')]
    && forall i :: 0 <= i < |name| ==> Letter(name[i]) || Digit(name[i])
  }

  predicate RequestOk(cfg: Config, r: ClientRequest) {
    && (if cfg.startState == Start then TagOk(cfg, r.tag) else r.tag == [])
    && NameOk(r.name) && cfg.parser.parse(Upper(r.name), r.uid) == Some(r.command)
    && LaidOut(Gap, r.pieces, cfg.parser.tokenizeBrackets(r.command))
    && TotalWeight(r.pieces) <= cfg.maxRequestSize
  }

  function Meant(rs: seq<ClientRequest>): seq<Event> {
    if rs == [] then []
    else [Completed(Request(rs[0].tag, rs[0].command, TokensOf(rs[0].pieces)))] + Meant(rs[1..])
  }

  // --------------------------------------------------- feeding, step by step

  lemma FeedOne(cfg: Config, s: Fields, ch: Byte)
    ensures Feed(cfg, s, [ch]) == (Step(cfg, s, ch).0, if Step(cfg, s, ch).1.Some? then [Step(cfg, s, ch).1.value] else [])
  {
    var (s', e) := Step(cfg, s, ch);
    assert [ch][1..] == [] && Feed(cfg, s', []) == (s', []);
    assert e.Some? ==> [e.value] + [] == [e.value];
  }

  lemma FeedThen(cfg: Config, s: Fields, a: seq<Byte>, s': Fields, b: seq<Byte>)
    requires Feed(cfg, s, a) == (s', [])
    ensures Feed(cfg, s, a + b) == Feed(cfg, s', b)
  {
    hide Feed;
    FeedConcat(cfg, s, a, b);
    assert [] + Feed(cfg, s', b).1 == Feed(cfg, s', b).1;
  }

  // -------------------------------------------------------------- arguments

  function PlaceOf(s: Fields): Place
    requires s.state.Argument?
  {
    if s.buf != [] then Word else if IsWhitespace(s.state.lastCh) then Gap else Glued
  }

  ghost predicate InArguments(cfg: Config, s: Fields, brackets: bool) {
    && s.state.Argument? && (s.buf != [] ==> !IsWhitespace(s.state.lastCh))
    && |s.buf| <= ARG_MAX_LEN
    && s.size + |s.buf| <= cfg.maxRequestSize
    && brackets == cfg.parser.tokenizeBrackets(s.request.command)
  }

  /** The tokens so far, with the word that is still in the buffer. */
  function Tokens(s: Fields): seq<Token> {
    s.request.tokens + if s.buf == [] then [] else [Token.Argument(s.buf)]
  }

  /** The receiver after a byte that ends the word in its buffer. */
  function Flushed(s: Fields, state: State): Fields {
    Fields([], s.request.(tokens := Tokens(s)), state, s.size + |s.buf|)
  }

  lemma Flush(cfg: Config, s: Fields)
    requires s.size + |s.buf| <= cfg.maxRequestSize
    ensures PushArgument(cfg, s, false) == (Flushed(s, s.state), None)
  {
    assert s.request.tokens + [] == s.request.tokens;
  }

  lemma GapFed(cfg: Config, s: Fields, brackets: bool, ch: Byte)
    requires InArguments(cfg, s, brackets) && IsWhitespace(ch) && ch != LF
    ensures Feed(cfg, s, [ch]) == (Flushed(s, State.Argument(ch)), [])
  {
    hide Feed;
    Flush(cfg, s);
    FeedOne(cfg, s, ch);
  }

  lemma MarkFed(cfg: Config, s: Fields, brackets: bool, token: Token)
    requires InArguments(cfg, s, brackets) && IsSign(token, brackets) && s.size + |s.buf| + 1 <= cfg.maxRequestSize
    ensures var f := Flushed(s, s.state);
      Feed(cfg, s, [Sign(token)]) == (AddToken(f, token).(size := f.size + 1), [])
  {
    hide Feed, Tokens, Delimiter, Sign;
    Flush(cfg, s);
    SignRead(token, brackets);
    WhiteRead(Sign(token));
    FeedOne(cfg, s, Sign(token));
  }

  lemma {:induction false} AtomFed(cfg: Config, s: Fields, brackets: bool, bytes: seq<Byte>)
    requires s.state.Argument? && brackets == cfg.parser.tokenizeBrackets(s.request.command)
    requires bytes != [] && |s.buf| + |bytes| <= 4096
    requires forall i :: 0 <= i < |bytes| ==> WordByte(bytes[i], brackets)
    ensures Feed(cfg, s, bytes) == (s.(buf := s.buf + bytes, state := State.Argument(bytes[|bytes| - 1])), [])
    decreases |bytes|
  {
    assert WordByte(bytes[0], brackets);
    WordByteRead(bytes[0], brackets);
    hide Delimiter;
    var s' := Step(cfg, s, bytes[0]).0;
    assert s' == s.(buf := s.buf + [bytes[0]], state := State.Argument(bytes[0]));
    if |bytes| == 1 {
      assert bytes == [bytes[0]];
      FeedOne(cfg, s, bytes[0]);
    } else {
      AtomFed(cfg, s', brackets, bytes[1..]);
      assert s.buf + [bytes[0]] + bytes[1..] == s.buf + bytes;
    }
  }

  lemma EscapeFed(cfg: Config, s: Fields, ch: Byte)
    requires s.state == ArgumentQuoted(false) && |s.buf| < ARG_MAX_LEN && (ch == DQUOTE || ch == BACKSLASH)
    ensures Feed(cfg, s, [BACKSLASH, ch]) == (s.(buf := s.buf + [ch]), [])
  {
    hide Feed;
    var s' := s.(state := ArgumentQuoted(true));
    FeedOne(cfg, s, BACKSLASH);
    FeedOne(cfg, s', ch);
    FeedThen(cfg, s, [BACKSLASH], s', [ch]);
    assert [BACKSLASH] + [ch] == [BACKSLASH, ch];
  }

  lemma {:induction false} EscapedFed(cfg: Config, s: Fields, bytes: seq<Byte>)
    requires s.state == ArgumentQuoted(false) && |s.buf| + |bytes| <= ARG_MAX_LEN && LF !in bytes
    ensures Feed(cfg, s, Escape(bytes)) == (s.(buf := s.buf + bytes), [])
    decreases |bytes|
  {
    hide Feed;
    if bytes == [] {
      FeedNone(cfg, s);
      assert s.buf + bytes == s.buf;
    } else {
      var ch := bytes[0];
      var s' := s.(buf := s.buf + [ch]);
      if ch == DQUOTE || ch == BACKSLASH {
        EscapeFed(cfg, s, ch);
        FeedThen(cfg, s, [BACKSLASH, ch], s', Escape(bytes[1..]));
      } else {
        FeedOne(cfg, s, ch);
        FeedThen(cfg, s, [ch], s', Escape(bytes[1..]));
      }
      EscapedFed(cfg, s', bytes[1..]);
      assert s.buf + [ch] + bytes[1..] == s.buf + bytes;
    }
  }

  lemma QuotedFed(cfg: Config, s: Fields, brackets: bool, bytes: seq<Byte>)
    requires InArguments(cfg, s, brackets) && PlaceOf(s) == Gap && ItemOk(Quoted(bytes), brackets)
    requires s.size + |bytes| <= cfg.maxRequestSize
    ensures Feed(cfg, s, EncodeItem(Quoted(bytes))) ==
      (AddToken(s, TokenOf(Quoted(bytes))).(state := State.Argument(SP), size := s.size + |bytes|), [])
  {
    hide Feed;
    var q, q' := s.(state := ArgumentQuoted(false)), s.(state := ArgumentQuoted(false), buf := bytes);
    QuoteOpened(cfg, s);
    FeedThen(cfg, s, [DQUOTE], q, Escape(bytes));
    EscapedFed(cfg, q, bytes);
    assert [] + bytes == bytes;
    FeedThen(cfg, s, [DQUOTE] + Escape(bytes), q', [DQUOTE]);
    QuoteClosed(cfg, q', bytes);
  }

  lemma QuoteOpened(cfg: Config, s: Fields)
    requires s.state.Argument? && s.buf == [] && IsWhitespace(s.state.lastCh)
    ensures Feed(cfg, s, [DQUOTE]) == (s.(state := ArgumentQuoted(false)), [])
  {
    hide Feed;
    FeedOne(cfg, s, DQUOTE);
  }

  lemma QuoteClosed(cfg: Config, q: Fields, bytes: seq<Byte>)
    requires q.state == ArgumentQuoted(false) && q.buf == bytes && q.size + |bytes| <= cfg.maxRequestSize
    ensures Feed(cfg, q, [DQUOTE]) ==
      (AddToken(q, TokenOf(Quoted(bytes))).(buf := [], state := State.Argument(SP), size := q.size + |bytes|), [])
  {
    hide Feed;
    FeedOne(cfg, q, DQUOTE);
  }

  // ---------------------------------------------------------------- literals

  lemma {:induction false} DecimalDigits(n: nat)
    ensures AllDigits(Decimal(n)) && DecimalValue(Decimal(n)) == n
  {
    if n < 10 {
      assert Decimal(n)[..0] == [];
    } else {
      DecimalDigits(n / 10);
      var init := Decimal(n / 10);
      assert Decimal(n)[..|Decimal(n)| - 1] == init;
      assert Decimal(n) == init + [48 + n % 10];
    }
  }

  function Pow10(k: nat): nat { if k == 0 then 1 else 10 * Pow10(k - 1) }

  lemma {:induction false} DecimalLength(n: nat, k: nat)
    requires k >= 1 && n < Pow10(k)
    ensures |Decimal(n)| <= k
  {
    if n >= 10 {
      assert k > 1;
      DecimalLength(n / 10, k - 1);
    }
  }

  lemma {:induction false} DigitsFed(cfg: Config, s: Fields, digits: seq<Byte>)
    requires s.state == State.Literal(false) && AllDigits(digits) && |s.buf| + |digits| <= SIZE_MAX_DIGITS
    ensures Feed(cfg, s, digits) == (s.(buf := s.buf + digits), [])
    decreases |digits|
  {
    if digits == [] {
      assert s.buf + digits == s.buf;
    } else {
      assert IsDigit(digits[0]);
      DigitsFed(cfg, s.(buf := s.buf + [digits[0]]), digits[1..]);
      assert s.buf + [digits[0]] + digits[1..] == s.buf + digits;
    }
  }

  lemma DecimalFits(n: nat)
    requires n < U32_LIMIT
    ensures |Decimal(n)| <= SIZE_MAX_DIGITS && ParseU32(Decimal(n)) == Some(n)
  {
    assert Pow10(5) == 100000;
    assert Pow10(10) == 10_000_000_000;
    DecimalLength(n, 10);
    DecimalDigits(n);
  }

  /** `+}` and CR behind the digits of an announced size. */
  lemma SizeFed(cfg: Config, s: Fields, n: nat)
    requires s.state == State.Literal(false) && s.buf != [] && ParseU32(s.buf) == Some(n) && s.size + n <= cfg.maxRequestSize
    ensures Feed(cfg, s, [PLUS, RBRACE, CR]) == (s.(buf := [], state := LiteralSeek(n, true)), [])
  {
    var s', s'' := s.(state := State.Literal(true)), s.(buf := [], state := LiteralSeek(n, true));
    assert Step(cfg, s, PLUS) == (s', None);
    assert Step(cfg, s', RBRACE) == (s'', None);
    assert Step(cfg, s'', CR) == (s'', None);
    assert [PLUS, RBRACE, CR][1..] == [RBRACE, CR] && [RBRACE, CR][1..] == [CR];
    FeedOne(cfg, s'', CR);
    assert Feed(cfg, s', [RBRACE, CR]) == Feed(cfg, s'', [CR]);
  }

  /** From the opening brace to the end of the header's line. */
  lemma HeaderFed(cfg: Config, s: Fields, n: nat)
    requires s.state == State.Literal(false) && s.buf == [] && n < U32_LIMIT && s.size + n <= cfg.maxRequestSize
    ensures Feed(cfg, s, LiteralSize(n)) == (s.(state := LiteralSeek(n, true)), [])
  {
    hide Feed;
    DecimalFits(n);
    DecimalDigits(n);
    DigitsFed(cfg, s, Decimal(n));
    assert s.buf + Decimal(n) == Decimal(n);
    FeedThen(cfg, s, Decimal(n), s.(buf := Decimal(n)), [PLUS, RBRACE, CR]);
    SizeFed(cfg, s.(buf := Decimal(n)), n);
  }

  lemma BodyOpened(cfg: Config, s: Fields, n: nat)
    requires s.state == LiteralSeek(n, true) && n > 0
    ensures Feed(cfg, s, [LF]) == (s.(state := State.LiteralData(n)), [])
  {
    hide Feed;
    FeedOne(cfg, s, LF);
  }

  lemma BodyBytesFed(cfg: Config, s: Fields, bytes: seq<Byte>)
    requires s.state == LiteralSeek(|bytes|, true) && s.buf == [] && bytes != []
    requires s.size + |bytes| <= cfg.maxRequestSize
    ensures Feed(cfg, s, [LF] + bytes) ==
      (AddToken(s, Token.Argument(bytes)).(state := State.Argument(SP), size := s.size + |bytes|), [])
  {
    hide Feed, Step;
    var s' := s.(state := State.LiteralData(|bytes|));
    BodyOpened(cfg, s, |bytes|);
    FeedThen(cfg, s, [LF], s', bytes);
    LiteralWhole(cfg, s', bytes);
  }

  lemma EmptyBodyFed(cfg: Config, s: Fields)
    requires s.state == LiteralSeek(0, true) && s.buf == [] && s.size + 1 <= cfg.maxRequestSize
    ensures Feed(cfg, s, [LF]) == (AddToken(s, Nil).(state := State.Argument(SP), size := s.size + 1), [])
  {
    hide Feed;
    FeedOne(cfg, s, LF);
  }

  lemma BodyFed(cfg: Config, s: Fields, bytes: seq<Byte>)
    requires s.state == LiteralSeek(|bytes|, true) && s.buf == []
    requires s.size + Weight(Lit(bytes, false)) <= cfg.maxRequestSize
    ensures Feed(cfg, s, [LF] + bytes) ==
      (AddToken(s, TokenOf(Lit(bytes, false))).(state := State.Argument(SP), size := s.size + Weight(Lit(bytes, false))), [])
  {
    hide Feed, Step;
    if bytes == [] {
      EmptyBodyFed(cfg, s);
      assert [LF] + bytes == [LF];
    } else {
      BodyBytesFed(cfg, s, bytes);
    }
  }

  /** What precedes the digits of a literal: `{` behind white space, or `~{`, whose tilde is taken back out of the buffer. */
  lemma BraceFed(cfg: Config, s: Fields, brackets: bool, binary: bool)
    requires InArguments(cfg, s, brackets) && s.buf == [] && (binary || PlaceOf(s) == Gap)
    ensures Feed(cfg, s, LiteralOpening(binary)) == (s.(state := State.Literal(false)), [])
  {
    hide Feed;
    if binary {
      var t := s.(buf := [TILDE], state := State.Argument(TILDE));
      assert s.buf + [TILDE] == [TILDE];
      FeedOne(cfg, s, TILDE);
      FeedOne(cfg, t, LBRACE);
      FeedThen(cfg, s, [TILDE], t, [LBRACE]);
    } else {
      assert [] + [LBRACE] == [LBRACE];
      FeedOne(cfg, s, LBRACE);
    }
  }

  lemma LitFed(cfg: Config, s: Fields, brackets: bool, bytes: seq<Byte>, binary: bool)
    requires InArguments(cfg, s, brackets) && s.buf == [] && (binary || PlaceOf(s) == Gap)
    requires |bytes| < U32_LIMIT && s.size + Weight(Lit(bytes, binary)) <= cfg.maxRequestSize
    ensures Feed(cfg, s, EncodeItem(Lit(bytes, binary))) ==
      (AddToken(s, TokenOf(Lit(bytes, binary))).(state := State.Argument(SP), size := s.size + Weight(Lit(bytes, binary))), [])
  {
    hide Feed;
    var brace, header := LiteralOpening(binary), LiteralSize(|bytes|);
    var s1, s2 := s.(state := State.Literal(false)), s.(state := LiteralSeek(|bytes|, true));
    BraceFed(cfg, s, brackets, binary);
    HeaderFed(cfg, s1, |bytes|);
    BodyFed(cfg, s2, bytes);
    FeedThen(cfg, s, brace, s1, header);
    FeedThen(cfg, s, brace + header, s2, [LF] + bytes);
  }

  // ------------------------------------------------------------ whole lines

  /** One item in its place adds its token, its weight, and nothing else. */
  ghost predicate Advanced(cfg: Config, s: Fields, s': Fields, brackets: bool, tokens: seq<Token>, weight: nat) {
    && InArguments(cfg, s', brackets)
    && s'.request.tag == s.request.tag && s'.request.command == s.request.command
    && Tokens(s') == Tokens(s) + tokens
    && s'.size + |s'.buf| == s.size + |s.buf| + weight
  }

  lemma AtomItemFed(cfg: Config, s: Fields, brackets: bool, bytes: seq<Byte>)
    requires InArguments(cfg, s, brackets) && ItemOk(Atom(bytes), brackets) && PlaceOf(s) != Word
    requires s.size + |bytes| <= cfg.maxRequestSize
    ensures var (s', es) := Feed(cfg, s, bytes);
      es == [] && Advanced(cfg, s, s', brackets, [Token.Argument(bytes)], |bytes|) && PlaceOf(s') == Word
  {
    hide Feed, Step;
    AtomFed(cfg, s, brackets, bytes);
    assert s.buf + bytes == bytes;
    assert WordByte(bytes[|bytes| - 1], brackets);
  }

  lemma ItemFed(cfg: Config, s: Fields, brackets: bool, item: Item)
    requires InArguments(cfg, s, brackets) && ItemOk(item, brackets) && Fits(PlaceOf(s), item)
    requires s.size + |s.buf| + Weight(item) <= cfg.maxRequestSize
    ensures var (s', es) := Feed(cfg, s, EncodeItem(item));
      es == [] && Advanced(cfg, s, s', brackets, [TokenOf(item)], Weight(item)) && PlaceOf(s') == Leave(PlaceOf(s), item)
  {
    hide Feed, Step;
    match item
    case Atom(bytes) =>
      AtomItemFed(cfg, s, brackets, bytes);
    case Quoted(bytes) =>
      QuotedFed(cfg, s, brackets, bytes);
    case Lit(bytes, binary) =>
      LitFed(cfg, s, brackets, bytes, binary);
    case Mark(token) =>
      MarkFed(cfg, s, brackets, token);
  }

  lemma PieceFed(cfg: Config, s: Fields, brackets: bool, piece: Piece)
    requires InArguments(cfg, s, brackets) && ItemOk(piece.item, brackets) && Fits(Arrive(PlaceOf(s), piece), piece.item)
    requires s.size + |s.buf| + Weight(piece.item) <= cfg.maxRequestSize
    ensures var (s', es) := Feed(cfg, s, EncodePiece(piece));
      && es == [] && Advanced(cfg, s, s', brackets, [TokenOf(piece.item)], Weight(piece.item))
      && PlaceOf(s') == Leave(Arrive(PlaceOf(s), piece), piece.item)
  {
    hide Feed;
    if piece.gap {
      var s' := Flushed(s, State.Argument(SP));
      GapFed(cfg, s, brackets, SP);
      FeedThen(cfg, s, [SP], s', EncodeItem(piece.item));
      ItemFed(cfg, s', brackets, piece.item);
    } else {
      assert [] + EncodeItem(piece.item) == EncodeItem(piece.item);
      ItemFed(cfg, s, brackets, piece.item);
    }
  }

  lemma {:induction false} PiecesFed(cfg: Config, s: Fields, brackets: bool, pieces: seq<Piece>)
    requires InArguments(cfg, s, brackets) && LaidOut(PlaceOf(s), pieces, brackets)
    requires s.size + |s.buf| + TotalWeight(pieces) <= cfg.maxRequestSize
    ensures var (s', es) := Feed(cfg, s, EncodePieces(pieces));
      es == [] && Advanced(cfg, s, s', brackets, TokensOf(pieces), TotalWeight(pieces))
    decreases |pieces|
  {
    hide Feed, Step, Tokens;
    if pieces == [] {
      FeedNone(cfg, s);
      assert Tokens(s) + [] == Tokens(s);
    } else {
      PieceFed(cfg, s, brackets, pieces[0]);
      var s' := Feed(cfg, s, EncodePiece(pieces[0])).0;
      PiecesFed(cfg, s', brackets, pieces[1..]);
      FeedThen(cfg, s, EncodePiece(pieces[0]), s', EncodePieces(pieces[1..]));
      Associate(Tokens(s), [TokenOf(pieces[0].item)], TokensOf(pieces[1..]));
    }
  }

  lemma LineEndFed(cfg: Config, s: Fields, brackets: bool)
    requires InArguments(cfg, s, brackets)
    ensures Feed(cfg, s, [CR, LF]) == (Fresh(cfg), [Completed(s.request.(tokens := Tokens(s)))])
  {
    hide Feed;
    var s' := Flushed(s, State.Argument(CR));
    GapFed(cfg, s, brackets, CR);
    FeedThen(cfg, s, [CR], s', [LF]);
    Flush(cfg, s');
    FeedOne(cfg, s', LF);
    assert [CR] + [LF] == [CR, LF];
  }

  // ------------------------------------------------------- tags and commands

  lemma {:induction false} TagBytesFed(cfg: Config, s: Fields, tag: seq<Byte>)
    requires s.state.Tag? && |s.buf| + |tag| <= TAG_MAX_LEN
    requires forall i :: 0 <= i < |tag| ==> tag[i] != SP && tag[i] != TAB && tag[i] != CR && tag[i] != LF
    ensures Feed(cfg, s, tag) == (s.(buf := s.buf + tag), [])
    decreases |tag|
  {
    if tag == [] {
      assert s.buf + tag == s.buf;
    } else {
      TagBytesFed(cfg, s.(buf := s.buf + [tag[0]]), tag[1..]);
      assert s.buf + [tag[0]] + tag[1..] == s.buf + tag;
    }
  }

  function InCommand(cfg: Config, tag: seq<Byte>, isUid: bool): Fields {
    Fields([], Request(tag, cfg.parser.default, []), Command(isUid), 0)
  }

  lemma TagFed(cfg: Config, tag: seq<Byte>)
    requires cfg.startState == Start && TagOk(cfg, tag)
    ensures Feed(cfg, Fresh(cfg), tag + [SP]) == (InCommand(cfg, tag, false), [])
  {
    hide Feed;
    var s := Fresh(cfg);
    var s1 := s.(buf := [tag[0]], state := Tag);
    assert s.buf + [tag[0]] == [tag[0]];
    FeedOne(cfg, s, tag[0]);
    FeedThen(cfg, s, [tag[0]], s1, tag[1..]);
    TagBytesFed(cfg, s1, tag[1..]);
    assert [tag[0]] + tag[1..] == tag;
    FeedThen(cfg, s, tag, s1.(buf := tag), [SP]);
    FeedOne(cfg, s1.(buf := tag), SP);
  }

  lemma {:induction false} NameFed(cfg: Config, s: Fields, name: seq<Byte>)
    requires s.state.Command? && |s.buf| + |name| <= COMMAND_MAX_LEN
    requires forall i :: 0 <= i < |name| ==> Letter(name[i]) || Digit(name[i])
    ensures Feed(cfg, s, name) == (s.(buf := s.buf + Upper(name)), [])
    decreases |name|
  {
    hide Feed;
    if name == [] {
      FeedNone(cfg, s);
      assert s.buf + Upper(name) == s.buf;
    } else {
      NameFed(cfg, s.(buf := s.buf + [Capital(name[0])]), name[1..]);
      FeedOne(cfg, s, name[0]);
      assert [name[0]] + name[1..] == name;
      FeedThen(cfg, s, [name[0]], s.(buf := s.buf + [Capital(name[0])]), name[1..]);
      assert s.buf + [Capital(name[0])] + Upper(name[1..]) == s.buf + Upper(name);
    }
  }

  lemma UidIsUpper()
    ensures Upper(UID) == UID && forall i :: 0 <= i < |UID| ==> IsAlphanumeric(UID[i])
  {
    assert UID[1..] == [73, 68] && UID[1..][1..] == [68] && UID[1..][1..][1..] == [];
  }

  lemma UidEnded(cfg: Config, s: Fields)
    requires s.state.Command? && s.buf == UID
    ensures Feed(cfg, s, [SP]) == (s.(buf := [], state := Command(true)), [])
  {
    hide Feed;
    FeedOne(cfg, s, SP);
  }

  lemma UidFed(cfg: Config, tag: seq<Byte>)
    ensures Feed(cfg, InCommand(cfg, tag, false), UID + [SP]) == (InCommand(cfg, tag, true), [])
  {
    hide Feed, Step, Upper;
    var s := InCommand(cfg, tag, false);
    UidIsUpper();
    NameFed(cfg, s, UID);
    assert s.buf + UID == UID;
    FeedThen(cfg, s, UID, s.(buf := UID), [SP]);
    UidEnded(cfg, s.(buf := UID));
  }

  /** A command name and the white space behind it. */
  lemma CommandFed(cfg: Config, tag: seq<Byte>, r: ClientRequest, ch: Byte)
    requires NameOk(r.name) && cfg.parser.parse(Upper(r.name), r.uid) == Some(r.command)
    requires IsWhitespace(ch) && ch != LF
    ensures Feed(cfg, InCommand(cfg, tag, r.uid), r.name + [ch]) ==
      (Fields([], Request(tag, r.command, []), State.Argument(SP), 0), [])
  {
    hide Feed;
    var s := InCommand(cfg, tag, r.uid);
    NameFed(cfg, s, r.name);
    assert s.buf + Upper(r.name) == Upper(r.name);
    FeedThen(cfg, s, r.name, s.(buf := Upper(r.name)), [ch]);
    FeedOne(cfg, s.(buf := Upper(r.name)), ch);
  }

  lemma ArgumentsFed(cfg: Config, a: Fields, brackets: bool, pieces: seq<Piece>)
    requires InArguments(cfg, a, brackets) && a.buf == [] && a.request.tokens == [] && PlaceOf(a) == Gap
    requires LaidOut(Gap, pieces, brackets) && a.size + TotalWeight(pieces) <= cfg.maxRequestSize
    ensures Feed(cfg, a, EncodePieces(pieces) + [CR, LF]) ==
      (Fresh(cfg), [Completed(a.request.(tokens := TokensOf(pieces)))])
  {
    hide Feed;
    PiecesFed(cfg, a, brackets, pieces);
    var s' := Feed(cfg, a, EncodePieces(pieces)).0;
    FeedThen(cfg, a, EncodePieces(pieces), s', [CR, LF]);
    LineEndFed(cfg, s', brackets);
    assert Tokens(a) + TokensOf(pieces) == TokensOf(pieces);
  }

  function Parsed(r: ClientRequest): Fields {
    Fields([], Request(r.tag, r.command, []), State.Argument(SP), 0)
  }

  lemma BareTailFed(cfg: Config, r: ClientRequest)
    requires NameOk(r.name) && cfg.parser.parse(Upper(r.name), r.uid) == Some(r.command)
    ensures Feed(cfg, InCommand(cfg, r.tag, r.uid), r.name + [CR, LF]) ==
      (Fresh(cfg), [Completed(Request(r.tag, r.command, []))])
  {
    hide Feed;
    var s, a := InCommand(cfg, r.tag, r.uid), Parsed(r);
    CommandFed(cfg, r.tag, r, CR);
    FeedThen(cfg, s, r.name + [CR], a, [LF]);
    FeedOne(cfg, a, LF);
    assert r.name + [CR] + [LF] == r.name + [CR, LF];
  }

  lemma ArgumentTailFed(cfg: Config, r: ClientRequest)
    requires NameOk(r.name) && cfg.parser.parse(Upper(r.name), r.uid) == Some(r.command)
    requires LaidOut(Gap, r.pieces, cfg.parser.tokenizeBrackets(r.command)) && TotalWeight(r.pieces) <= cfg.maxRequestSize
    ensures Feed(cfg, InCommand(cfg, r.tag, r.uid), r.name + [SP] + (EncodePieces(r.pieces) + [CR, LF])) ==
      (Fresh(cfg), [Completed(Request(r.tag, r.command, TokensOf(r.pieces)))])
  {
    hide Feed;
    CommandFed(cfg, r.tag, r, SP);
    ArgumentsFed(cfg, Parsed(r), cfg.parser.tokenizeBrackets(r.command), r.pieces);
    FeedThen(cfg, InCommand(cfg, r.tag, r.uid), r.name + [SP], Parsed(r), EncodePieces(r.pieces) + [CR, LF]);
  }

  /** The rest of the line, behind the command. */
  lemma TailFed(cfg: Config, r: ClientRequest)
    requires RequestOk(cfg, r)
    ensures var tail := (if r.pieces == [] then [] else [SP] + EncodePieces(r.pieces)) + [CR, LF];
      Feed(cfg, InCommand(cfg, r.tag, r.uid), r.name + tail) ==
        (Fresh(cfg), [Completed(Request(r.tag, r.command, TokensOf(r.pieces)))])
  {
    hide Feed;
    if r.pieces == [] {
      BareTailFed(cfg, r);
      assert [] + [CR, LF] == [CR, LF];
    } else {
      ArgumentTailFed(cfg, r);
      Regroup(r.name, [SP], EncodePieces(r.pieces), [CR, LF]);
    }
  }

  lemma RequestFed(cfg: Config, r: ClientRequest)
    requires Startable(cfg) && RequestOk(cfg, r)
    ensures Feed(cfg, Fresh(cfg), EncodeRequest(cfg, r)) ==
      (Fresh(cfg), [Completed(Request(r.tag, r.command, TokensOf(r.pieces)))])
  {
    hide Feed;
    var tail := r.name + ((if r.pieces == [] then [] else [SP] + EncodePieces(r.pieces)) + [CR, LF]);
    var uid := if r.uid then UID + [SP] else [];
    assert UID + [SP] == [Ascii('U'), Ascii('I'), Ascii('D'), Ascii(' ')];
    TailFed(cfg, r);
    if r.uid {
      UidFed(cfg, r.tag);
      FeedThen(cfg, InCommand(cfg, r.tag, false), uid, InCommand(cfg, r.tag, true), tail);
    } else {
      assert uid + tail == tail;
    }
    if cfg.startState == Start {
      TagFed(cfg, r.tag);
      FeedThen(cfg, Fresh(cfg), r.tag + [SP], InCommand(cfg, r.tag, false), uid + tail);
    } else {
      assert [] + (uid + tail) == uid + tail;
    }
  }

  /** Any list of pipelined requests within the limits comes back as exactly those tags, commands and token lists,
      and leaves the receiver as good as new. */
  lemma {:induction false} PipelineRoundTrip(cfg: Config, rs: seq<ClientRequest>)
    requires Startable(cfg) && forall i :: 0 <= i < |rs| ==> RequestOk(cfg, rs[i])
    ensures Drive(cfg, Fresh(cfg), EncodeAll(cfg, rs)) == (Fresh(cfg), Meant(rs))
    decreases |rs|
  {
    if rs == [] {
    } else {
      RequestFed(cfg, rs[0]);
      DriveIsFeed(cfg, Fresh(cfg), EncodeRequest(cfg, rs[0]));
      PipelineRoundTrip(cfg, rs[1..]);
      TwoChunks(cfg, Fresh(cfg), EncodeRequest(cfg, rs[0]), EncodeAll(cfg, rs[1..]));
    }
  }

  // ------------------------------------------------- the literal that fails

  /** A line that has reached the limit of one byte when its empty literal comes. */
  function FullLine(tag: seq<Byte>, name: seq<Byte>): seq<Byte> {
    (tag + [Ascii(' ')]) + ((name + [Ascii(' ')]) + ([Ascii('(')] + ([Ascii(' ')] + ([Ascii('{'), Ascii('0'), Ascii('}')] + CRLF))))
  }

  /** It is read up to the literal's header, whose end is an error. */
  lemma FullLineFails(cfg: Config, r: ClientRequest)
    requires cfg.startState == Start && cfg.maxRequestSize == 1 && !r.uid && TagOk(cfg, r.tag)
    requires NameOk(r.name) && cfg.parser.parse(Upper(r.name), false) == Some(r.command)
    ensures Feed(cfg, Fresh(cfg), FullLine(r.tag, r.name)) == (Fresh(cfg), [Failed(Some(r.tag))])
  {
    var s1, s2 := InCommand(cfg, r.tag, false), Parsed(r);
    var brackets := cfg.parser.tokenizeBrackets(r.command);
    var s3 := AddToken(s2, ParenthesisOpen).(size := 1);
    var open, empty := [LPAREN], [LBRACE, 48, RBRACE] + [CR, LF];
    FullInvariant(cfg, s2, s3);
    hide Feed, Step, Fresh;
    TagFed(cfg, r.tag);
    CommandFed(cfg, r.tag, r, SP);
    MarkFed(cfg, s2, brackets, ParenthesisOpen);
    GapFed(cfg, s3, brackets, SP);
    EmptyLiteralRefused(cfg, s3);
    FeedThen(cfg, s3, [SP], s3, empty);
    FeedThen(cfg, s2, open, s3, [SP] + empty);
    FeedThen(cfg, s1, r.name + [SP], s2, open + ([SP] + empty));
    FeedThen(cfg, Fresh(cfg), r.tag + [SP], s1, r.name + [SP] + (open + ([SP] + empty)));
  }

  lemma FullInvariant(cfg: Config, s2: Fields, s3: Fields)
    requires cfg.maxRequestSize == 1 && s2.buf == [] && s2.state == State.Argument(SP) && s2.size == 0
    requires s2.request.tokens == [] && s3 == AddToken(s2, ParenthesisOpen).(size := 1)
    ensures Inv(cfg, s3) && Flushed(s2, s2.state) == s2 && Flushed(s3, State.Argument(SP)) == s3
  {
    AddTokenCounts([], ParenthesisOpen);
    assert ArgumentBytes([]) == 0 && Delimiters([]) == 0 && Nils([]) == 0;
    assert s2.request.tokens + [] == s2.request.tokens && s3.request.tokens + [] == s3.request.tokens;
  }
}
