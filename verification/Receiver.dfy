/** The incremental request tokenizer of the IMAP and ManageSieve servers
    (imap-proto/src/receiver.rs).  `Step` says what one byte does to the fields of
    a receiver; the class below does it by updating them in place. */
module Receiver {
  import opened Wrappers

  type Byte = b: int | 0 <= b < 256

  const TAB: Byte := 9
  const LF: Byte := 10
  const CR: Byte := 13
  const SP: Byte := 32
  const DQUOTE: Byte := 34
  const LPAREN: Byte := 40
  const RPAREN: Byte := 41
  const PLUS: Byte := 43
  const DOT: Byte := 46
  const LT: Byte := 60
  const GT: Byte := 62
  const LBRACKET: Byte := 91
  const BACKSLASH: Byte := 92
  const RBRACKET: Byte := 93
  const LBRACE: Byte := 123
  const RBRACE: Byte := 125
  const TILDE: Byte := 126
  const UID: seq<Byte> := [85, 73, 68]

  const ARG_MAX_LEN: nat := 4096
  const TAG_MAX_LEN: nat := 128
  const COMMAND_MAX_LEN: nat := 15
  const SIZE_MAX_DIGITS: nat := 15
  const U32_LIMIT: nat := 0x1_0000_0000

  predicate IsWhitespace(ch: Byte) { ch == 9 || ch == 10 || ch == 12 || ch == 13 || ch == 32 }
  predicate IsDigit(ch: Byte) { 48 <= ch <= 57 }
  predicate IsAlphanumeric(ch: Byte) { IsDigit(ch) || 65 <= ch <= 90 || 97 <= ch <= 122 }
  function ToUpper(ch: Byte): Byte { if 97 <= ch <= 122 then ch - 32 else ch }

  datatype Token =
    | Argument(bytes: seq<Byte>)
    | ParenthesisOpen
    | ParenthesisClose
    | BracketOpen
    | BracketClose
    | Lt
    | Gt
    | Dot
    | Nil

  datatype State =
    | Start
    | Tag
    | Command(isUid: bool)
    | Argument(lastCh: Byte)
    | ArgumentQuoted(escaped: bool)
    | Literal(nonSync: bool)
    | LiteralSeek(size: nat, nonSync: bool)
    | LiteralData(remaining: nat)

  datatype Request = Request(tag: seq<Byte>, command: Verb, tokens: seq<Token>)

  /** A command of the protocol that is spoken; `CommandParser` below numbers them. */
  datatype Verb = Verb(id: nat)

  /** The command grammar is a parameter: any function from names to commands.  So is the check that a tag is UTF-8. */
  datatype CommandParser = CommandParser(
    parse: (seq<Byte>, bool) -> Option<Verb>,
    tokenizeBrackets: Verb -> bool,
    default: Verb,
    isUtf8: seq<Byte> -> bool)

  datatype Config = Config(parser: CommandParser, maxRequestSize: nat, startState: State)

  /** The fields of a receiver that `parse` changes. */
  datatype Fields = Fields(buf: seq<Byte>, request: Request, state: State, size: nat)

  /** What `parse` returns, apart from "needs more data".  A failure carries the tag, if there is one; its text is left out. */
  datatype Event =
    | Completed(request: Request)
    | NeedsLiteral(size: nat)
    | Failed(tag: Option<seq<Byte>>)

  type Result = (Fields, Option<Event>)

  function EmptyRequest(cfg: Config): Request {
    Request([], cfg.parser.default, [])
  }

  /** A receiver nothing has been fed to. */
  function Fresh(cfg: Config): Fields {
    Fields([], EmptyRequest(cfg), cfg.startState, 0)
  }

  function Fail(cfg: Config, s: Fields): Result {
    (Fresh(cfg), Some(Failed(if s.request.tag != [] then Some(s.request.tag) else None)))
  }

  function Complete(cfg: Config, s: Fields): Result {
    (s.(request := EmptyRequest(cfg), state := cfg.startState, size := 0), Some(Completed(s.request)))
  }

  function Goto(s: Fields, state: State): Result {
    (s.(state := state), None)
  }

  function AddToken(s: Fields, token: Token): Fields {
    s.(request := s.request.(tokens := s.request.tokens + [token]))
  }

  function PushArgument(cfg: Config, s: Fields, inQuote: bool): Result {
    if s.buf != [] then
      var size := s.size + |s.buf|;
      if size > cfg.maxRequestSize then Fail(cfg, s)
      else (AddToken(s, Token.Argument(s.buf)).(buf := [], size := size), None)
    else if inQuote then (AddToken(s, Nil), None)
    else (s, None)
  }

  function PushToken(cfg: Config, s: Fields, token: Token): Result {
    if s.size + 1 > cfg.maxRequestSize then Fail(cfg, s)
    else (AddToken(s, token).(size := s.size + 1), None)
  }

  function PushChecked(cfg: Config, s: Fields, ch: Byte, limit: nat, next: State): Result {
    if |s.buf| < limit then (s.(buf := s.buf + [ch], state := next), None) else Fail(cfg, s)
  }

  function StepStart(s: Fields, ch: Byte): Result {
    if IsWhitespace(ch) then (s, None) else (s.(buf := s.buf + [ch], state := Tag), None)
  }

  function StepTag(cfg: Config, s: Fields, ch: Byte): Result {
    if ch == SP then
      if s.buf == [] then (s, None)
      else if cfg.parser.isUtf8(s.buf) then
        (s.(buf := [], request := s.request.(tag := s.buf), state := Command(false)), None)
      else Fail(cfg, s)
    else if ch == TAB || ch == CR then (s, None)
    else if ch == LF then Fail(cfg, s)
    else PushChecked(cfg, s, ch, TAG_MAX_LEN, Tag)
  }

  function StepCommand(cfg: Config, s: Fields, ch: Byte): Result
    requires s.state.Command?
  {
    if IsAlphanumeric(ch) then PushChecked(cfg, s, ToUpper(ch), COMMAND_MAX_LEN, s.state)
    else if !IsWhitespace(ch) then Fail(cfg, s)
    else if s.buf == [] then (s, None)
    else if s.buf == UID then (s.(buf := [], state := Command(true)), None)
    else match cfg.parser.parse(s.buf, s.state.isUid)
      case None => Fail(cfg, s)
      case Some(command) =>
        var s' := s.(buf := [], request := s.request.(command := command));
        if ch != LF then Goto(s', State.Argument(SP)) else Complete(cfg, s')
  }

  /** The token a byte stands for on its own; the last five only for commands that tokenize brackets. */
  function Delimiter(ch: Byte, brackets: bool): Option<Token> {
    if ch == LPAREN then Some(ParenthesisOpen)
    else if ch == RPAREN then Some(ParenthesisClose)
    else if !brackets then None
    else if ch == LBRACKET then Some(BracketOpen)
    else if ch == RBRACKET then Some(BracketClose)
    else if ch == LT then Some(Lt)
    else if ch == GT then Some(Gt)
    else if ch == DOT then Some(Dot)
    else None
  }

  function StepArgument(cfg: Config, s: Fields, ch: Byte): Result
    requires s.state.Argument?
  {
    var lastCh := s.state.lastCh;
    var delimiter := Delimiter(ch, cfg.parser.tokenizeBrackets(s.request.command));
    if ch == LBRACE && lastCh == TILDE && |s.buf| == 1 then
      Goto(s.(buf := []), Literal(false))
    else if !(IsWhitespace(lastCh) && (ch == DQUOTE || ch == LBRACE)) && delimiter.None? && !IsWhitespace(ch) then
      PushChecked(cfg, s, ch, ARG_MAX_LEN, State.Argument(ch))
    else
      var (s', e) := PushArgument(cfg, s, false);
      if e.Some? then (s', e) else AfterArgument(cfg, s', ch, delimiter)
  }

  /** A byte that ends an unquoted argument, once that argument is stored. */
  function AfterArgument(cfg: Config, s: Fields, ch: Byte, delimiter: Option<Token>): Result {
    if ch == DQUOTE then Goto(s, ArgumentQuoted(false))
    else if ch == LBRACE then Goto(s, Literal(false))
    else if delimiter.Some? then PushToken(cfg, s, delimiter.value)
    else if ch == LF then Complete(cfg, s)
    else Goto(s, State.Argument(ch))
  }

  function StepQuoted(cfg: Config, s: Fields, ch: Byte): Result
    requires s.state.ArgumentQuoted?
  {
    var escaped := s.state.escaped;
    if ch == DQUOTE && !escaped then
      var (s', e) := PushArgument(cfg, s, true);
      if e.Some? then (s', e) else Goto(s', State.Argument(SP))
    else if ch == BACKSLASH && !escaped then Goto(s, ArgumentQuoted(true))
    else if ch == LF then Fail(cfg, s)
    else
      var keep := escaped && ch != DQUOTE && ch != BACKSLASH;
      PushChecked(cfg, if keep then s.(buf := s.buf + [BACKSLASH]) else s, ch, ARG_MAX_LEN, ArgumentQuoted(false))
  }

  predicate AllDigits(s: seq<Byte>) {
    forall i :: 0 <= i < |s| ==> IsDigit(s[i])
  }

  function DecimalValue(digits: seq<Byte>): nat
    requires AllDigits(digits)
  {
    if digits == [] then 0
    else
      var last: int := digits[|digits| - 1];
      assert IsDigit(digits[|digits| - 1]);
      DecimalValue(digits[..|digits| - 1]) * 10 + (last - 48)
  }

  /** `str::parse::<u32>` on a buffer that holds digits only. */
  function ParseU32(digits: seq<Byte>): (r: Option<nat>)
    ensures r.Some? ==> r.value < U32_LIMIT
  {
    if AllDigits(digits) && DecimalValue(digits) < U32_LIMIT then Some(DecimalValue(digits)) else None
  }

  function StepLiteral(cfg: Config, s: Fields, ch: Byte): Result
    requires s.state.Literal?
  {
    if ch == RBRACE then
      if s.buf == [] then Fail(cfg, s)
      else match ParseU32(s.buf)
        case None => Fail(cfg, s)
        case Some(size) =>
          if s.size + size > cfg.maxRequestSize then Fail(cfg, s)
          else Goto(s.(buf := []), LiteralSeek(size, s.state.nonSync))
    else if ch == PLUS then
      if s.buf == [] then Fail(cfg, s) else Goto(s, Literal(true))
    else if IsDigit(ch) && !s.state.nonSync then
      PushChecked(cfg, s, ch, SIZE_MAX_DIGITS, s.state)
    else Fail(cfg, s)
  }

  function StepLiteralSeek(cfg: Config, s: Fields, ch: Byte): Result
    requires s.state.LiteralSeek?
  {
    var size := s.state.size;
    var prompt := if s.state.nonSync then None else Some(NeedsLiteral(size));
    if ch == LF then
      if size > 0 then (s.(state := LiteralData(size)), prompt)
      else
        var (s', e) := PushToken(cfg, s.(state := State.Argument(SP)), Nil);
        if e.Some? then (s', e) else (s', prompt)
    else if IsWhitespace(ch) then (s, None)
    else Fail(cfg, s)
  }

  function StepLiteralData(cfg: Config, s: Fields, ch: Byte): Result
    requires s.state.LiteralData?
  {
    var s1 := s.(buf := s.buf + [ch]);
    if s.state.remaining > 1 then Goto(s1, LiteralData(s.state.remaining - 1))
    else
      var (s2, e) := PushArgument(cfg, s1, false);
      if e.Some? then (s2, e) else Goto(s2, State.Argument(SP))
  }

  /** The effect of one byte. */
  function Step(cfg: Config, s: Fields, ch: Byte): Result {
    match s.state
    case Start => StepStart(s, ch)
    case Tag => StepTag(cfg, s, ch)
    case Command(_) => StepCommand(cfg, s, ch)
    case Argument(_) => StepArgument(cfg, s, ch)
    case ArgumentQuoted(_) => StepQuoted(cfg, s, ch)
    case Literal(_) => StepLiteral(cfg, s, ch)
    case LiteralSeek(_, _) => StepLiteralSeek(cfg, s, ch)
    case LiteralData(_) => StepLiteralData(cfg, s, ch)
  }

  /** One call of `parse`: bytes are taken until something is to be returned; `None` means more data is needed. */
  function ParseCall(cfg: Config, s: Fields, bytes: seq<Byte>): (r: (Fields, Option<Event>, seq<Byte>))
    ensures |r.2| <= |bytes| && (r.1.Some? ==> |r.2| < |bytes|) && (r.1.None? ==> r.2 == [])
    decreases |bytes|
  {
    if bytes == [] then (s, None, [])
    else
      var (s', e) := Step(cfg, s, bytes[0]);
      if e.Some? then (s', e, bytes[1..]) else ParseCall(cfg, s', bytes[1..])
  }

  // --------------------------------------------------------- the receiver

  class Receiver {
    const parser: CommandParser
    const maxRequestSize: nat
    const startState: State
    var buf: seq<Byte>
    var request: Request
    var state: State
    var currentRequestSize: nat

    constructor (parser: CommandParser, maxRequestSize: nat, startState: State)
      ensures Cfg() == Config(parser, maxRequestSize, startState)
      ensures Now() == Fresh(Cfg())
    {
      this.parser, this.maxRequestSize, this.startState := parser, maxRequestSize, startState;
      buf, request, state, currentRequestSize := [], Request([], parser.default, []), startState, 0;
    }

    ghost function Cfg(): Config {
      Config(parser, maxRequestSize, startState)
    }

    ghost function Now(): Fields
      reads this
    {
      Fields(buf, request, state, currentRequestSize)
    }

    method TakeRequest() returns (taken: Request)
      modifies this
      ensures taken == old(request) && Now() == old(Now()).(request := EmptyRequest(Cfg()))
    {
      taken := request;
      request := Request([], parser.default, []);
    }

    method ErrorReset() returns (e: Event)
      modifies this
      ensures (Now(), Some(e)) == Fail(Cfg(), old(Now()))
    {
      var taken := TakeRequest();
      e := Failed(if taken.tag != [] then Some(taken.tag) else None);
      buf := [];
      state := startState;
      currentRequestSize := 0;
    }

    method DoPushArgument(inQuote: bool) returns (e: Option<Event>)
      modifies this
      ensures (Now(), e) == PushArgument(Cfg(), old(Now()), inQuote)
    {
      e := None;
      if buf != [] {
        currentRequestSize := currentRequestSize + |buf|;
        if currentRequestSize > maxRequestSize {
          var err := ErrorReset();
          return Some(err);
        }
        request := request.(tokens := request.tokens + [Token.Argument(buf)]);
        buf := [];
      } else if inQuote {
        request := request.(tokens := request.tokens + [Nil]);
      }
    }

    method DoPushToken(token: Token) returns (e: Option<Event>)
      modifies this
      ensures (Now(), e) == PushToken(Cfg(), old(Now()), token)
    {
      e := None;
      currentRequestSize := currentRequestSize + 1;
      if currentRequestSize > maxRequestSize {
        var err := ErrorReset();
        return Some(err);
      }
      request := request.(tokens := request.tokens + [token]);
    }

    method DoPushChecked(ch: Byte, limit: nat) returns (e: Option<Event>)
      modifies this
      ensures (Now(), e) == PushChecked(Cfg(), old(Now()), ch, limit, old(state))
    {
      if |buf| < limit {
        buf := buf + [ch];
        return None;
      }
      var err := ErrorReset();
      return Some(err);
    }

    method OnTag(ch: Byte) returns (e: Option<Event>)
      requires state.Tag?
      modifies this
      ensures (Now(), e) == StepTag(Cfg(), old(Now()), ch)
    {
      e := None;
      if ch == SP {
        if buf != [] {
          if !parser.isUtf8(buf) {
            var err := ErrorReset();
            return Some(err);
          }
          request := request.(tag := buf);
          buf := [];
          state := Command(false);
        }
      } else if ch == TAB || ch == CR {
      } else if ch == LF {
        var err := ErrorReset();
        return Some(err);
      } else {
        e := DoPushChecked(ch, TAG_MAX_LEN);
      }
    }

    method OnCommand(ch: Byte) returns (e: Option<Event>)
      requires state.Command?
      modifies this
      ensures (Now(), e) == StepCommand(Cfg(), old(Now()), ch)
    {
      e := None;
      if IsAlphanumeric(ch) {
        e := DoPushChecked(ToUpper(ch), COMMAND_MAX_LEN);
      } else if IsWhitespace(ch) {
        if buf != [] {
          if buf != UID {
            match parser.parse(buf, state.isUid) {
              case None =>
                var err := ErrorReset();
                return Some(err);
              case Some(command) =>
                request := request.(command := command);
            }
            buf := [];
            if ch != LF {
              state := State.Argument(SP);
            } else {
              state := startState;
              currentRequestSize := 0;
              var taken := TakeRequest();
              return Some(Completed(taken));
            }
          } else {
            buf := [];
            state := Command(true);
          }
        }
      } else {
        var err := ErrorReset();
        return Some(err);
      }
    }

    method OnArgument(ch: Byte) returns (e: Option<Event>)
      requires state.Argument?
      modifies this
      ensures (Now(), e) == StepArgument(Cfg(), old(Now()), ch)
    {
      var lastCh := state.lastCh;
      var brackets := parser.tokenizeBrackets(request.command);
      if ch == DQUOTE && IsWhitespace(lastCh) {
        e := DoPushArgument(false);
        if e.None? {
          state := ArgumentQuoted(false);
        }
      } else if ch == LBRACE && (IsWhitespace(lastCh) || (lastCh == TILDE && |buf| == 1)) {
        e := None;
        if lastCh != TILDE {
          e := DoPushArgument(false);
        } else {
          buf := [];
        }
        if e.None? {
          state := Literal(false);
        }
      } else if Delimiter(ch, brackets).Some? {
        e := DoPushArgument(false);
        if e.None? {
          e := DoPushToken(Delimiter(ch, brackets).value);
        }
      } else if ch == LF {
        e := DoPushArgument(false);
        if e.None? {
          state := startState;
          currentRequestSize := 0;
          var taken := TakeRequest();
          e := Some(Completed(taken));
        }
      } else if IsWhitespace(ch) {
        e := DoPushArgument(false);
        if e.None? {
          state := State.Argument(ch);
        }
      } else {
        e := DoPushChecked(ch, ARG_MAX_LEN);
        if e.None? {
          state := State.Argument(ch);
        }
      }
    }

    method OnQuoted(ch: Byte) returns (e: Option<Event>)
      requires state.ArgumentQuoted?
      modifies this
      ensures (Now(), e) == StepQuoted(Cfg(), old(Now()), ch)
    {
      var escaped := state.escaped;
      e := None;
      if ch == DQUOTE {
        if !escaped {
          e := DoPushArgument(true);
          if e.None? {
            state := State.Argument(SP);
          }
        } else {
          e := DoPushChecked(ch, ARG_MAX_LEN);
          if e.None? {
            state := ArgumentQuoted(false);
          }
        }
      } else if ch == BACKSLASH {
        if escaped {
          e := DoPushChecked(ch, ARG_MAX_LEN);
        }
        if e.None? {
          state := ArgumentQuoted(!escaped);
        }
      } else if ch == LF {
        var err := ErrorReset();
        return Some(err);
      } else {
        if escaped {
          buf := buf + [BACKSLASH];
        }
        e := DoPushChecked(ch, ARG_MAX_LEN);
        if e.None? {
          state := ArgumentQuoted(false);
        }
      }
    }

    method OnLiteral(ch: Byte) returns (e: Option<Event>)
      requires state.Literal?
      modifies this
      ensures (Now(), e) == StepLiteral(Cfg(), old(Now()), ch)
    {
      var nonSync := state.nonSync;
      e := None;
      var bad := false;
      if ch == RBRACE {
        if buf != [] {
          var size := ParseU32(buf);
          if size.None? || currentRequestSize + size.value > maxRequestSize {
            bad := true;
          } else {
            state := LiteralSeek(size.value, nonSync);
            buf := [];
          }
        } else {
          bad := true;
        }
      } else if ch == PLUS {
        if buf != [] {
          state := Literal(true);
        } else {
          bad := true;
        }
      } else if IsDigit(ch) {
        if !nonSync {
          e := DoPushChecked(ch, SIZE_MAX_DIGITS);
        } else {
          bad := true;
        }
      } else {
        bad := true;
      }
      if bad {
        var err := ErrorReset();
        e := Some(err);
      }
    }

    method OnLiteralSeek(ch: Byte) returns (e: Option<Event>)
      requires state.LiteralSeek?
      modifies this
      ensures (Now(), e) == StepLiteralSeek(Cfg(), old(Now()), ch)
    {
      var size, nonSync := state.size, state.nonSync;
      e := None;
      if ch == LF {
        if size > 0 {
          state := LiteralData(size);
        } else {
          state := State.Argument(SP);
          e := DoPushToken(Nil);
        }
        if e.None? && !nonSync {
          e := Some(NeedsLiteral(size));
        }
      } else if !IsWhitespace(ch) {
        var err := ErrorReset();
        e := Some(err);
      }
    }

    method OnLiteralData(ch: Byte) returns (e: Option<Event>)
      requires state.LiteralData?
      modifies this
      ensures (Now(), e) == StepLiteralData(Cfg(), old(Now()), ch)
    {
      var remaining := state.remaining;
      e := None;
      buf := buf + [ch];
      if remaining > 1 {
        state := LiteralData(remaining - 1);
      } else {
        e := DoPushArgument(false);
        if e.None? {
          state := State.Argument(SP);
        }
      }
    }

    method OnByte(ch: Byte) returns (e: Option<Event>)
      modifies this
      ensures (Now(), e) == Step(Cfg(), old(Now()), ch)
    {
      match state {
        case Start =>
          e := None;
          if !IsWhitespace(ch) {
            buf := buf + [ch];
            state := Tag;
          }
        case Tag => e := OnTag(ch);
        case Command(_) => e := OnCommand(ch);
        case Argument(_) => e := OnArgument(ch);
        case ArgumentQuoted(_) => e := OnQuoted(ch);
        case Literal(_) => e := OnLiteral(ch);
        case LiteralSeek(_, _) => e := OnLiteralSeek(ch);
        case LiteralData(_) => e := OnLiteralData(ch);
      }
    }

    /** `parse`, reading `bytes` from `pos` on; `end` is where the byte iterator stands afterwards. */
    method Parse(bytes: seq<Byte>, pos: nat) returns (e: Option<Event>, end: nat)
      requires pos <= |bytes|
      modifies this
      ensures pos <= end <= |bytes|
      ensures (Now(), e, bytes[end..]) == ParseCall(Cfg(), old(Now()), bytes[pos..])
    {
      e, end := None, pos;
      while end < |bytes|
        invariant pos <= end <= |bytes| && e.None?
        invariant ParseCall(Cfg(), Now(), bytes[end..]) == ParseCall(Cfg(), old(Now()), bytes[pos..])
        decreases |bytes| - end
      {
        assert bytes[end..][1..] == bytes[end + 1..];
        e := OnByte(bytes[end]);
        end := end + 1;
        if e.Some? {
          return;
        }
      }
    }
  }
}
