/** What holds of a receiver over every run: the driver loop does not depend on how the
    byte stream is cut, and the size accounting is exact. */
module ReceiverProofs {
  import opened Sequences
  import opened Wrappers
  import opened Receiver

  // ------------------------------------------------- chunking independence

  type Run = (Fields, seq<Event>)

  /** The driver: `parse` is called again after every event, until it needs more data. */
  function Drive(cfg: Config, s: Fields, bytes: seq<Byte>): Run
    decreases |bytes|
  {
    var (s', e, rest) := ParseCall(cfg, s, bytes);
    if e.None? then (s', [])
    else
      var (s'', es) := Drive(cfg, s', rest);
      (s'', [e.value] + es)
  }

  function DriveChunks(cfg: Config, s: Fields, chunks: seq<seq<Byte>>): Run
    decreases |chunks|
  {
    if chunks == [] then (s, [])
    else
      var (s', es) := Drive(cfg, s, chunks[0]);
      var (s'', es') := DriveChunks(cfg, s', chunks[1..]);
      (s'', es + es')
  }

  /** The run byte by byte, with no calls in it. */
  function Feed(cfg: Config, s: Fields, bytes: seq<Byte>): Run
    decreases |bytes|
  {
    if bytes == [] then (s, [])
    else
      var (s', e) := Step(cfg, s, bytes[0]);
      var (s'', es) := Feed(cfg, s', bytes[1..]);
      (s'', if e.Some? then [e.value] + es else es)
  }

  lemma {:induction false} DriveIsFeed(cfg: Config, s: Fields, bytes: seq<Byte>)
    ensures Drive(cfg, s, bytes) == Feed(cfg, s, bytes)
    decreases |bytes|
  {
    if bytes == [] {
    } else {
      var (s', e) := Step(cfg, s, bytes[0]);
      DriveIsFeed(cfg, s', bytes[1..]);
      if e.None? {
        assert Drive(cfg, s, bytes) == Drive(cfg, s', bytes[1..]);
      }
    }
  }

  lemma {:induction false} FeedConcat(cfg: Config, s: Fields, a: seq<Byte>, b: seq<Byte>)
    ensures Feed(cfg, s, a + b).0 == Feed(cfg, Feed(cfg, s, a).0, b).0
    ensures Feed(cfg, s, a + b).1 == Feed(cfg, s, a).1 + Feed(cfg, Feed(cfg, s, a).0, b).1
    decreases |a|
  {
    hide Step, Feed;
    if a == [] {
      FeedNone(cfg, s);
      assert a + b == b;
      assert [] + Feed(cfg, s, b).1 == Feed(cfg, s, b).1;
    } else {
      var (s', e) := Step(cfg, s, a[0]);
      assert (a + b)[1..] == a[1..] + b && (a + b)[0] == a[0];
      FeedFirst(cfg, s, a);
      FeedFirst(cfg, s, a + b);
      FeedConcat(cfg, s', a[1..], b);
      Led(if e.Some? then [e.value] else [], Feed(cfg, s', a[1..]).1, Feed(cfg, Feed(cfg, s', a[1..]).0, b).1);
    }
  }

  lemma Led<T>(a: seq<T>, b: seq<T>, c: seq<T>)
    ensures a + (b + c) == a + b + c && [] + b == b && [] + (b + c) == b + c
  {
  }

  lemma FeedNone(cfg: Config, s: Fields)
    ensures Feed(cfg, s, []) == (s, [])
  {
  }

  lemma FeedFirst(cfg: Config, s: Fields, bytes: seq<Byte>)
    requires bytes != []
    ensures var (s', e) := Step(cfg, s, bytes[0]);
      var (s'', es) := Feed(cfg, s', bytes[1..]);
      Feed(cfg, s, bytes) == (s'', if e.Some? then [e.value] + es else es)
  {
    hide Step;
  }

  /** However a stream is cut, the driver gives the same requests, prompts and errors in the same order and
      ends in the same state as when it is handed the stream whole. */
  lemma {:induction false} ChunkingIndependence(cfg: Config, s: Fields, chunks: seq<seq<Byte>>)
    ensures DriveChunks(cfg, s, chunks) == Drive(cfg, s, Flatten(chunks))
    decreases |chunks|
  {
    if chunks == [] {
    } else {
      ChunkingIndependence(cfg, Drive(cfg, s, chunks[0]).0, chunks[1..]);
      TwoChunks(cfg, s, chunks[0], Flatten(chunks[1..]));
    }
  }

  lemma TwoChunks(cfg: Config, s: Fields, a: seq<Byte>, b: seq<Byte>)
    ensures var (s', es) := Drive(cfg, s, a);
      Drive(cfg, s, a + b) == (Drive(cfg, s', b).0, es + Drive(cfg, s', b).1)
  {
    DriveIsFeed(cfg, s, a);
    DriveIsFeed(cfg, Feed(cfg, s, a).0, b);
    DriveIsFeed(cfg, s, a + b);
    FeedConcat(cfg, s, a, b);
  }

  // ------------------------------------------------------ the invariant

  function ArgumentBytes(tokens: seq<Token>): nat {
    if tokens == [] then 0
    else
      var last := tokens[|tokens| - 1];
      ArgumentBytes(tokens[..|tokens| - 1]) + if last.Argument? then |last.bytes| else 0
  }

  /** Delimiters always count one byte; a `Nil` counts one or none, as it came from a literal or from quotes. */
  function Delimiters(tokens: seq<Token>): nat {
    if tokens == [] then 0
    else
      var last := tokens[|tokens| - 1];
      Delimiters(tokens[..|tokens| - 1]) + if last.Argument? || last.Nil? then 0 else 1
  }

  function Nils(tokens: seq<Token>): nat {
    if tokens == [] then 0
    else Nils(tokens[..|tokens| - 1]) + if tokens[|tokens| - 1].Nil? then 1 else 0
  }

  /** What `current_request_size` stands for, and its limit. */
  ghost predicate Accounted(tokens: seq<Token>, size: nat, limit: nat) {
    && ArgumentBytes(tokens) + Delimiters(tokens) <= size <= limit
    && size <= ArgumentBytes(tokens) + Delimiters(tokens) + Nils(tokens)
  }

  ghost predicate BufferFits(cfg: Config, s: Fields) {
    match s.state
    case Start => s == Fresh(cfg)
    case Tag => 1 <= |s.buf| <= TAG_MAX_LEN && s.size == 0 && s.request == EmptyRequest(cfg)
    case Command(_) => |s.buf| <= COMMAND_MAX_LEN && s.size == 0 && s.request.tokens == []
    case Argument(lastCh) =>
      |s.buf| <= ARG_MAX_LEN && (s.buf != [] ==> lastCh == s.buf[|s.buf| - 1] && !IsWhitespace(lastCh))
    case ArgumentQuoted(_) => |s.buf| <= ARG_MAX_LEN
    case Literal(nonSync) => |s.buf| <= SIZE_MAX_DIGITS && AllDigits(s.buf) && (nonSync ==> s.buf != [])
    case LiteralSeek(size, _) => s.buf == [] && s.size + size <= cfg.maxRequestSize && size < U32_LIMIT
    case LiteralData(remaining) => 0 < remaining && s.size + |s.buf| + remaining <= cfg.maxRequestSize
  }

  ghost predicate Inv(cfg: Config, s: Fields) {
    Accounted(s.request.tokens, s.size, cfg.maxRequestSize) && BufferFits(cfg, s)
  }

  /** The two start states in use: IMAP's, and ManageSieve's, whose requests carry no tag. */
  ghost predicate Startable(cfg: Config) {
    cfg.startState == Start || cfg.startState == Command(false)
  }

  lemma AddTokenCounts(tokens: seq<Token>, token: Token)
    ensures ArgumentBytes(tokens + [token]) == ArgumentBytes(tokens) + if token.Argument? then |token.bytes| else 0
    ensures Delimiters(tokens + [token]) == Delimiters(tokens) + if token.Argument? || token.Nil? then 0 else 1
    ensures Nils(tokens + [token]) == Nils(tokens) + if token.Nil? then 1 else 0
  {
    assert (tokens + [token])[..|tokens|] == tokens;
  }

  lemma PushArgumentKeeps(cfg: Config, s: Fields, inQuote: bool)
    requires Accounted(s.request.tokens, s.size, cfg.maxRequestSize)
    ensures var (s', e) := PushArgument(cfg, s, inQuote);
      if e.Some? then s' == Fresh(cfg)
      else Accounted(s'.request.tokens, s'.size, cfg.maxRequestSize) && s'.buf == [] && s'.state == s.state
  {
    hide ArgumentBytes, Delimiters, Nils;
    AddTokenCounts(s.request.tokens, Token.Argument(s.buf));
    AddTokenCounts(s.request.tokens, Nil);
  }

  lemma PushTokenKeeps(cfg: Config, s: Fields, token: Token)
    requires Accounted(s.request.tokens, s.size, cfg.maxRequestSize) && !token.Argument?
    ensures var (s', e) := PushToken(cfg, s, token);
      if e.Some? then s' == Fresh(cfg)
      else Accounted(s'.request.tokens, s'.size, cfg.maxRequestSize) && s'.buf == s.buf && s'.state == s.state
  {
    hide ArgumentBytes, Delimiters, Nils;
    AddTokenCounts(s.request.tokens, token);
  }

  lemma AfterArgumentKeeps(cfg: Config, s: Fields, ch: Byte, brackets: bool)
    requires Startable(cfg) && Accounted(s.request.tokens, s.size, cfg.maxRequestSize)
    requires s.state.Argument? && s.buf == []
    ensures var (s', e) := AfterArgument(cfg, s, ch, Delimiter(ch, brackets));
      Inv(cfg, s') && (e.Some? ==> s' == Fresh(cfg) && !e.value.NeedsLiteral?)
  {
    hide ArgumentBytes, Delimiters, Nils;
    FreshInvariant(cfg);
    if Delimiter(ch, brackets).Some? {
      PushTokenKeeps(cfg, s, Delimiter(ch, brackets).value);
    }
  }

  lemma StepArgumentKeeps(cfg: Config, s: Fields, ch: Byte)
    requires Startable(cfg) && Accounted(s.request.tokens, s.size, cfg.maxRequestSize)
    requires s.state.Argument? && |s.buf| <= ARG_MAX_LEN
    ensures var (s', e) := StepArgument(cfg, s, ch);
      Inv(cfg, s') && (e.Some? ==> s' == Fresh(cfg) && !e.value.NeedsLiteral?)
  {
    hide ArgumentBytes, Delimiters, Nils;
    FreshInvariant(cfg);
    var brackets := cfg.parser.tokenizeBrackets(s.request.command);
    var (s', e) := PushArgument(cfg, s, false);
    PushArgumentKeeps(cfg, s, false);
    if e.None? {
      AfterArgumentKeeps(cfg, s', ch, brackets);
    }
    assert (s.buf + [ch])[|s.buf|] == ch;
  }

  lemma FreshInvariant(cfg: Config)
    requires Startable(cfg)
    ensures Inv(cfg, Fresh(cfg))
  {
  }

  lemma StepQuotedKeeps(cfg: Config, s: Fields, ch: Byte)
    requires Startable(cfg) && Accounted(s.request.tokens, s.size, cfg.maxRequestSize)
    requires s.state.ArgumentQuoted? && |s.buf| <= ARG_MAX_LEN
    ensures var (s', e) := StepQuoted(cfg, s, ch);
      Inv(cfg, s') && (e.Some? ==> s' == Fresh(cfg) && !e.value.NeedsLiteral?)
  {
    hide ArgumentBytes, Delimiters, Nils;
    FreshInvariant(cfg);
    PushArgumentKeeps(cfg, s, true);
  }

  lemma StepSeekKeeps(cfg: Config, s: Fields, ch: Byte)
    requires Startable(cfg) && Inv(cfg, s) && s.state.LiteralSeek?
    ensures var (s', e) := StepLiteralSeek(cfg, s, ch);
      && Inv(cfg, s') && (e.Some? && !e.value.NeedsLiteral? ==> s' == Fresh(cfg))
      && (e.Some? && e.value.NeedsLiteral? ==> AfterPrompt(s, s', e.value.size))
  {
    hide ArgumentBytes, Delimiters, Nils;
    FreshInvariant(cfg);
    PushTokenKeeps(cfg, s.(state := State.Argument(SP)), Nil);
  }

  lemma StepDataKeeps(cfg: Config, s: Fields, ch: Byte)
    requires Startable(cfg) && Inv(cfg, s) && s.state.LiteralData?
    ensures var (s', e) := StepLiteralData(cfg, s, ch); Inv(cfg, s') && e.None?
  {
    hide ArgumentBytes, Delimiters, Nils;
    PushArgumentKeeps(cfg, s.(buf := s.buf + [ch]), false);
  }

  lemma StepEarlyKeeps(cfg: Config, s: Fields, ch: Byte)
    requires Startable(cfg) && Inv(cfg, s) && (s.state.Start? || s.state.Tag? || s.state.Command? || s.state.Literal?)
    ensures var (s', e) := Step(cfg, s, ch);
      Inv(cfg, s') && (e.Some? ==> s' == Fresh(cfg) && !e.value.NeedsLiteral?)
  {
    hide ArgumentBytes, Delimiters, Nils;
    FreshInvariant(cfg);
    match s.state
    case Start =>
    case Tag =>
    case Command(_) =>
    case Literal(_) =>
  }

  /** A prompt leaves the receiver waiting for the announced bytes; for an empty literal, with a `Nil` in their place. */
  ghost predicate AfterPrompt(s: Fields, s': Fields, size: nat) {
    s' == if size > 0 then s.(state := LiteralData(size)) else AddToken(s, Nil).(size := s.size + 1, state := State.Argument(SP))
  }

  /** Every byte keeps the invariant, and after a request or an error the receiver is as good as new. */
  lemma StepKeepsInvariant(cfg: Config, s: Fields, ch: Byte)
    requires Startable(cfg) && Inv(cfg, s)
    ensures var (s', e) := Step(cfg, s, ch);
      && Inv(cfg, s')
      && (e.Some? && !e.value.NeedsLiteral? ==> s' == Fresh(cfg))
      && (e.Some? && e.value.NeedsLiteral? ==> s.state == LiteralSeek(e.value.size, false) && AfterPrompt(s, s', e.value.size))
  {
    hide ArgumentBytes, Delimiters, Nils;
    match s.state
    case Argument(_) => StepArgumentKeeps(cfg, s, ch);
    case ArgumentQuoted(_) => StepQuotedKeeps(cfg, s, ch);
    case LiteralSeek(_, _) => StepSeekKeeps(cfg, s, ch);
    case LiteralData(_) => StepDataKeeps(cfg, s, ch);
    case _ => StepEarlyKeeps(cfg, s, ch);
  }

  /** Over every run from a new receiver: stored bytes <= current_request_size <= max_request_size, and the buffer
      stays within the limit of its state. */
  lemma {:induction false} InvariantOverRuns(cfg: Config, bytes: seq<Byte>)
    requires Startable(cfg)
    ensures Inv(cfg, Drive(cfg, Fresh(cfg), bytes).0)
  {
    DriveIsFeed(cfg, Fresh(cfg), bytes);
    FeedKeepsInvariant(cfg, Fresh(cfg), bytes);
  }

  lemma {:induction false} FeedKeepsInvariant(cfg: Config, s: Fields, bytes: seq<Byte>)
    requires Startable(cfg) && Inv(cfg, s)
    ensures Inv(cfg, Feed(cfg, s, bytes).0)
    decreases |bytes|
  {
    if bytes == [] {
    } else {
      StepKeepsInvariant(cfg, s, bytes[0]);
      FeedKeepsInvariant(cfg, Step(cfg, s, bytes[0]).0, bytes[1..]);
    }
  }

  // -------------------------------------------------- literal exactness

  /** The receiver after `i` of the announced bytes: the buffer has taken them all, the others are still to come. */
  function Taking(s: Fields, data: seq<Byte>, i: nat): Fields
    requires i < |data|
  {
    s.(buf := s.buf + data[..i], state := LiteralData(|data| - i))
  }

  lemma {:induction false} LiteralPrefix(cfg: Config, s: Fields, data: seq<Byte>, i: nat)
    requires s.state == State.LiteralData(|data|) && i < |data|
    ensures Feed(cfg, s, data[..i]) == (Taking(s, data, i), [])
    decreases i
  {
    if i == 0 {
      assert s.buf + data[..0] == s.buf;
    } else {
      var s' := s.(buf := s.buf + [data[0]], state := State.LiteralData(|data| - 1));
      assert Step(cfg, s, data[0]) == (s', None);
      LiteralPrefix(cfg, s', data[1..], i - 1);
      assert data[..i][1..] == data[1..][..i - 1];
      assert s.buf + [data[0]] + data[1..][..i - 1] == s.buf + data[..i];
    }
  }

  lemma LastByte(cfg: Config, s: Fields, ch: Byte)
    requires s.state == State.LiteralData(1) && s.size + |s.buf| + 1 <= cfg.maxRequestSize
    ensures Feed(cfg, s, [ch]) == (Stored(s, s.buf + [ch]), [])
  {
    hide Feed;
    assert Step(cfg, s, ch) == (Stored(s, s.buf + [ch]), None);
    hide Step, Stored;
    FeedFirst(cfg, s, [ch]);
    FeedNone(cfg, Stored(s, s.buf + [ch]));
    assert [ch][1..] == [];
  }

  /** The receiver with one more argument. */
  function Stored(s: Fields, bytes: seq<Byte>): Fields {
    AddToken(s, Token.Argument(bytes)).(buf := [], state := State.Argument(SP), size := s.size + |bytes|)
  }

  lemma {:induction false} LiteralCompletes(cfg: Config, s: Fields, data: seq<Byte>)
    requires s.state == State.LiteralData(|data|) && data != []
    requires s.size + |s.buf| + |data| <= cfg.maxRequestSize
    ensures Feed(cfg, s, data) == (Stored(s, s.buf + data), [])
    decreases |data|
  {
    if |data| == 1 {
      assert data == [data[0]];
      LastByte(cfg, s, data[0]);
    } else {
      var s' := s.(buf := s.buf + [data[0]], state := State.LiteralData(|data| - 1));
      assert Step(cfg, s, data[0]) == (s', None);
      FeedFirst(cfg, s, data);
      hide Feed, Step;
      LiteralCompletes(cfg, s', data[1..]);
      assert s.buf + [data[0]] + data[1..] == s.buf + data;
    }
  }

  /** While a literal is read, each byte goes to the buffer and takes one off what remains, so their sum stays the
      announced size; the last byte completes the argument, and that push never hits the size limit. */
  lemma LiteralTaken(cfg: Config, s: Fields, data: seq<Byte>)
    requires s.state == State.LiteralData(|data|) && data != []
    requires s.size + |s.buf| + |data| <= cfg.maxRequestSize
    ensures forall i :: 0 <= i < |data| ==> Feed(cfg, s, data[..i]) == (Taking(s, data, i), [])
    ensures Feed(cfg, s, data) == (Stored(s, s.buf + data), [])
  {
    hide Feed, Taking;
    forall i | 0 <= i < |data| ensures Feed(cfg, s, data[..i]) == (Taking(s, data, i), []) {
      LiteralPrefix(cfg, s, data, i);
    }
    LiteralCompletes(cfg, s, data);
  }

  lemma LiteralWhole(cfg: Config, s: Fields, data: seq<Byte>)
    requires s.state == State.LiteralData(|data|) && data != [] && s.buf == []
    requires s.size + |data| <= cfg.maxRequestSize
    ensures Feed(cfg, s, data) == (AddToken(s, Token.Argument(data)).(state := State.Argument(SP), size := s.size + |data|), [])
  {
    hide Feed;
    LiteralCompletes(cfg, s, data);
    assert s.buf + data == data;
  }

  lemma PromptFed(cfg: Config, s: Fields)
    requires s.state.LiteralSeek? && s.state.size > 0
    ensures var prompt := if s.state.nonSync then [] else [NeedsLiteral(s.state.size)];
      Feed(cfg, s, [CR, LF]) == (s.(state := State.LiteralData(s.state.size)), prompt)
  {
    var s' := s.(state := State.LiteralData(s.state.size));
    assert Step(cfg, s, CR) == (s, None) && Step(cfg, s, LF).0 == s';
    assert [CR, LF][1..] == [LF] && [LF][1..] == [];
    assert Feed(cfg, s', []) == (s', []);
    var prompt: seq<Event> := if s.state.nonSync then [] else [NeedsLiteral(s.state.size)];
    assert prompt + [] == prompt;
    assert Feed(cfg, s, [LF]) == (s', prompt);
  }

  lemma EmptyLiteralExact(cfg: Config, s: Fields)
    requires Inv(cfg, s) && s.state.LiteralSeek? && s.state.size == 0
    ensures Feed(cfg, s, [CR, LF]) ==
      if s.size < cfg.maxRequestSize
      then (AddToken(s, Nil).(state := State.Argument(SP), size := s.size + 1), Prompt(s))
      else (Fresh(cfg), [Fail(cfg, s).1.value])
  {
    var (s', e) := Step(cfg, s, LF);
    assert Step(cfg, s, CR) == (s, None);
    assert [CR, LF][1..] == [LF] && [LF][1..] == [];
    assert Feed(cfg, s', []) == (s', []);
    assert e.Some? ==> [e.value] + [] == [e.value];
    assert Feed(cfg, s, [LF]) == (s', if e.Some? then [e.value] else []);
  }

  /** What a client is told at the end of a literal's header. */
  function Prompt(s: Fields): seq<Event>
    requires s.state.LiteralSeek?
  {
    if s.state.nonSync then [] else [NeedsLiteral(s.state.size)]
  }

  lemma FullLiteralExact(cfg: Config, s: Fields, data: seq<Byte>)
    requires Inv(cfg, s) && s.state.LiteralSeek? && s.state.size == |data| > 0
    ensures Feed(cfg, s, [CR, LF] + data) ==
      (AddToken(s, Token.Argument(data)).(state := State.Argument(SP), size := s.size + |data|), Prompt(s))
  {
    hide Feed, Step;
    var s' := s.(state := State.LiteralData(|data|));
    PromptFed(cfg, s);
    LiteralWhole(cfg, s', data);
    FeedConcat(cfg, s, [CR, LF], data);
    assert Prompt(s) + [] == Prompt(s);
  }

  /** An accepted literal, from its closing brace on: whatever the bytes are, exactly `size` of them become one argument
      (`Nil` for none).  It fails in one case only: an empty literal, which counts as one byte, in a request that has
      already reached the limit. */
  lemma LiteralExactness(cfg: Config, s: Fields, data: seq<Byte>)
    requires Inv(cfg, s) && s.state.LiteralSeek? && s.state.size == |data|
    ensures Feed(cfg, s, [CR, LF] + data) ==
      if data == [] && s.size == cfg.maxRequestSize then (Fresh(cfg), [Fail(cfg, s).1.value])
      else
        var token := if data == [] then Nil else Token.Argument(data);
        var size := s.size + if data == [] then 1 else |data|;
        (AddToken(s, token).(state := State.Argument(SP), size := size), Prompt(s))
  {
    hide Feed;
    if data == [] {
      assert [CR, LF] + data == [CR, LF];
      EmptyLiteralExact(cfg, s);
    } else {
      FullLiteralExact(cfg, s, data);
    }
  }

  /** Such an empty literal is accepted first, and refused at the end of its line. */
  lemma EmptyLiteralRefused(cfg: Config, s: Fields)
    requires Inv(cfg, s) && s.state == State.Argument(SP) && s.buf == [] && s.size == cfg.maxRequestSize
    ensures Feed(cfg, s, [LBRACE, 48, RBRACE]) == (s.(state := LiteralSeek(0, false)), [])
    ensures Feed(cfg, s, [LBRACE, 48, RBRACE] + [CR, LF]) == (Fresh(cfg), [Fail(cfg, s).1.value])
  {
    var s1, s2 := s.(state := State.Literal(false)), s.(state := State.Literal(false), buf := [48]);
    var s3 := s.(state := LiteralSeek(0, false));
    assert Step(cfg, s, LBRACE) == (s1, None);
    assert s1.buf + [48] == [48] && Step(cfg, s1, 48) == (s2, None);
    assert [48][..0] == [] && DecimalValue([48]) == 0;
    assert ParseU32([48]) == Some(0) && Step(cfg, s2, RBRACE) == (s3, None);
    hide Step, ParseU32;
    var bytes := [LBRACE, 48, RBRACE];
    assert bytes[1..] == [48, RBRACE] && [48, RBRACE][1..] == [RBRACE] && [RBRACE][1..] == [];
    assert Feed(cfg, s3, []) == (s3, []);
    assert Feed(cfg, s2, [RBRACE]) == (s3, []);
    assert Feed(cfg, s1, [48, RBRACE]) == (s3, []);
    assert Feed(cfg, s, bytes) == (s3, []);
    hide Feed;
    FeedConcat(cfg, s, bytes, [CR, LF]);
    EmptyLiteralExact(cfg, s3);
    assert [] + [Fail(cfg, s).1.value] == [Fail(cfg, s).1.value];
  }
}
