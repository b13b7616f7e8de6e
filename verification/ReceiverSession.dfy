/** The sessions' own loop around the receiver (imap/src/core/client.rs; managesieve/src/core/client.rs has the same one):
    it leaves at the first prompt or error and drops the bytes of the frame that `parse` has not yet been handed. */
module ReceiverSession {
  import opened Sequences
  import opened Wrappers
  import opened Receiver
  import opened ReceiverProofs
  import opened ReceiverRoundTrip

  /** One frame: the state afterwards, what was returned, and what was dropped. */
  function Ingest(cfg: Config, s: Fields, frame: seq<Byte>): (Fields, seq<Event>, seq<Byte>)
    decreases |frame|
  {
    var (s', e, rest) := ParseCall(cfg, s, frame);
    if e.None? then (s', [], [])
    else if e.value.Completed? then
      var (s'', es, dropped) := Ingest(cfg, s', rest);
      (s'', [e.value] + es, dropped)
    else (s', [e.value], rest)
  }

  function IngestFrames(cfg: Config, s: Fields, frames: seq<seq<Byte>>): Run
    decreases |frames|
  {
    if frames == [] then (s, [])
    else
      var (s', es, _) := Ingest(cfg, s, frames[0]);
      var (s'', es') := IngestFrames(cfg, s', frames[1..]);
      (s'', es + es')
  }

  /** What a frame would have given in full is what it gave, and then what the dropped bytes would have given. */
  lemma {:induction false} IngestSplits(cfg: Config, s: Fields, frame: seq<Byte>)
    ensures var (s', es, dropped) := Ingest(cfg, s, frame);
      Drive(cfg, s, frame) == (Drive(cfg, s', dropped).0, es + Drive(cfg, s', dropped).1)
    decreases |frame|
  {
    var (s', e, rest) := ParseCall(cfg, s, frame);
    if e.None? {
      DriveNothing(cfg, s');
      assert Drive(cfg, s, frame) == (s', []) && [] + Drive(cfg, s', []).1 == [];
    } else if e.value.Completed? {
      var (s'', es, dropped) := Ingest(cfg, s', rest);
      IngestSplits(cfg, s', rest);
      assert [e.value] + es + Drive(cfg, s'', dropped).1 == [e.value] + (es + Drive(cfg, s'', dropped).1);
    }
  }

  // ------------------------------------------- bytes that change nothing

  predicate Blank(bytes: seq<Byte>) {
    forall i :: 0 <= i < |bytes| ==> IsWhitespace(bytes[i])
  }

  /** White space inside a line that ends in a space. */
  predicate Spaces(bytes: seq<Byte>) {
    Blank(bytes) && LF !in bytes && (bytes == [] || bytes[|bytes| - 1] == SP)
  }

  lemma BlankFirst(bytes: seq<Byte>)
    requires bytes != []
    ensures Blank(bytes) <==> IsWhitespace(bytes[0]) && Blank(bytes[1..])
    ensures LF !in bytes <==> bytes[0] != LF && LF !in bytes[1..]
  {
    assert bytes == [bytes[0]] + bytes[1..];
  }

  /** A request has begun. */
  predicate Begun(cfg: Config, s: Fields) {
    && !s.state.Start?
    && (cfg.startState != Start ==> !s.state.Tag? && (s.state == Command(false) ==> s.buf != []))
  }

  /** A request that has begun ends in an event. */
  lemma BegunStays(cfg: Config, s: Fields, ch: Byte)
    requires Startable(cfg) && Begun(cfg, s) && Step(cfg, s, ch).1.None?
    ensures Begun(cfg, Step(cfg, s, ch).0)
  {
    if s.state.Tag? || s.state.Command? {
      match s.state
      case Tag =>
      case Command(_) =>
    } else {
      InsideStays(cfg, s, ch);
    }
  }

  predicate Inside(s: Fields) { !s.state.Start? && !s.state.Tag? && !s.state.Command? }

  lemma InsideStays(cfg: Config, s: Fields, ch: Byte)
    requires Inside(s) && Step(cfg, s, ch).1.None?
    ensures Inside(Step(cfg, s, ch).0)
  {
    match s.state
    case Argument(_) =>
    case ArgumentQuoted(_) =>
    case Literal(_) =>
    case LiteralSeek(_, _) =>
    case LiteralData(_) =>
  }

  lemma {:induction false} BegunRuns(cfg: Config, s: Fields, bytes: seq<Byte>)
    requires Startable(cfg) && Begun(cfg, s) && Feed(cfg, s, bytes).1 == []
    ensures Begun(cfg, Feed(cfg, s, bytes).0)
    decreases |bytes|
  {
    hide Step, Begun;
    if bytes != [] {
      BegunStays(cfg, s, bytes[0]);
      BegunRuns(cfg, Step(cfg, s, bytes[0]).0, bytes[1..]);
    }
  }

  lemma FreshStep(cfg: Config, ch: Byte)
    requires Startable(cfg)
    ensures if IsWhitespace(ch) then Step(cfg, Fresh(cfg), ch) == (Fresh(cfg), None)
      else Step(cfg, Fresh(cfg), ch).1.None? ==> Begun(cfg, Step(cfg, Fresh(cfg), ch).0)
    ensures !Begun(cfg, Fresh(cfg))
  {
  }

  /** Between requests white space is skipped, and nothing else. */
  lemma {:induction false} FreshKept(cfg: Config, bytes: seq<Byte>)
    requires Startable(cfg)
    ensures Feed(cfg, Fresh(cfg), bytes) == (Fresh(cfg), []) <==> Blank(bytes)
    decreases |bytes|
  {
    hide Step, Begun, Startable, IsWhitespace, Fresh;
    if bytes != [] {
      BlankFirst(bytes);
      hide Blank;
      FreshStep(cfg, bytes[0]);
      if IsWhitespace(bytes[0]) {
        FreshKept(cfg, bytes[1..]);
      } else if Feed(cfg, Fresh(cfg), bytes).1 == [] {
        BegunRuns(cfg, Step(cfg, Fresh(cfg), bytes[0]).0, bytes[1..]);
      }
    }
  }

  /** Beyond `n` tokens and the state in which `left` literal bytes are still to come. */
  predicate Beyond(s: Fields, n: nat, left: nat) {
    |s.request.tokens| > n || (|s.request.tokens| == n && s.state.LiteralData? && 0 < s.state.remaining < left)
  }

  lemma BeyondStays(cfg: Config, s: Fields, ch: Byte, n: nat, left: nat)
    requires Beyond(s, n, left) && Step(cfg, s, ch).1.None?
    ensures Beyond(Step(cfg, s, ch).0, n, left)
  {
    TokensStay(cfg, s, ch);
    if |s.request.tokens| == n {
      assert Step(cfg, s, ch) == StepLiteralData(cfg, s, ch);
    } else {
      hide Step;
    }
  }

  /** Tokens are only taken away with an event. */
  lemma TokensStay(cfg: Config, s: Fields, ch: Byte)
    requires Step(cfg, s, ch).1.None?
    ensures |Step(cfg, s, ch).0.request.tokens| >= |s.request.tokens|
  {
  }

  lemma {:induction false} BeyondRuns(cfg: Config, s: Fields, bytes: seq<Byte>, n: nat, left: nat)
    requires Beyond(s, n, left) && Feed(cfg, s, bytes).1 == []
    ensures Beyond(Feed(cfg, s, bytes).0, n, left)
    decreases |bytes|
  {
    hide Step, Beyond;
    if bytes != [] {
      BeyondStays(cfg, s, bytes[0], n, left);
      BeyondRuns(cfg, Step(cfg, s, bytes[0]).0, bytes[1..], n, left);
    }
  }

  lemma DataStep(cfg: Config, s: Fields, ch: Byte)
    requires s.state.LiteralData? && s.state.remaining > 0 && Step(cfg, s, ch).1.None?
    ensures Beyond(Step(cfg, s, ch).0, |s.request.tokens|, s.state.remaining)
  {
    assert Step(cfg, s, ch) == StepLiteralData(cfg, s, ch);
  }

  /** Inside a literal no byte goes unnoticed. */
  lemma DataKept(cfg: Config, s: Fields, bytes: seq<Byte>)
    requires s.state.LiteralData? && s.state.remaining > 0
    ensures Feed(cfg, s, bytes) == (s, []) <==> bytes == []
  {
    hide Step;
    if bytes != [] && Feed(cfg, s, bytes).1 == [] {
      DataStep(cfg, s, bytes[0]);
      BeyondRuns(cfg, Step(cfg, s, bytes[0]).0, bytes[1..], |s.request.tokens|, s.state.remaining);
    }
  }

  /** An argument has begun since there were `n` tokens. */
  predicate Busy(s: Fields, n: nat) {
    || |s.request.tokens| > n
    || (|s.request.tokens| == n &&
        match s.state
        case Argument(_) => s.buf != []
        case ArgumentQuoted(_) => true
        case Literal(_) => true
        case LiteralSeek(_, _) => true
        case LiteralData(_) => true
        case _ => false)
  }

  /** An argument that has begun becomes a token, or ends in an event. */
  lemma BusyStays(cfg: Config, s: Fields, ch: Byte, n: nat)
    requires Busy(s, n) && Step(cfg, s, ch).1.None?
    ensures Busy(Step(cfg, s, ch).0, n)
  {
    TokensStay(cfg, s, ch);
    if |s.request.tokens| > n {
      hide Step;
    } else {
      BusyWithin(cfg, s, ch);
    }
  }

  lemma BusyWithin(cfg: Config, s: Fields, ch: Byte)
    requires Busy(s, |s.request.tokens|) && Step(cfg, s, ch).1.None?
    ensures Busy(Step(cfg, s, ch).0, |s.request.tokens|)
  {
    match s.state
    case Argument(_) =>
    case ArgumentQuoted(_) =>
    case Literal(_) =>
    case LiteralSeek(_, _) =>
    case LiteralData(_) =>
  }

  lemma {:induction false} BusyRuns(cfg: Config, s: Fields, bytes: seq<Byte>, n: nat)
    requires Busy(s, n) && Feed(cfg, s, bytes).1 == []
    ensures Busy(Feed(cfg, s, bytes).0, n)
    decreases |bytes|
  {
    hide Step, Busy;
    if bytes != [] {
      BusyStays(cfg, s, bytes[0], n);
      BusyRuns(cfg, Step(cfg, s, bytes[0]).0, bytes[1..], n);
    }
  }

  /** Behind white space inside a line. */
  predicate InGap(s: Fields) {
    s.state.Argument? && IsWhitespace(s.state.lastCh) && s.buf == []
  }

  lemma GapStep(cfg: Config, s: Fields, ch: Byte)
    requires InGap(s)
    ensures var (s', e) := Step(cfg, s, ch);
      if IsWhitespace(ch) && ch != LF then s' == s.(state := State.Argument(ch)) && e == None && InGap(s')
      else e.None? ==> Busy(s', |s.request.tokens|)
    ensures !Busy(s, |s.request.tokens|)
  {
  }

  /** In a gap white space only moves on, and nothing else leaves no trace. */
  lemma {:induction false} GapRuns(cfg: Config, s: Fields, bytes: seq<Byte>)
    requires InGap(s)
    ensures var (s', es) := Feed(cfg, s, bytes);
      var last := if bytes == [] then s.state.lastCh else bytes[|bytes| - 1];
      if Blank(bytes) && LF !in bytes then (s', es) == (s.(state := State.Argument(last)), [])
      else es == [] ==> Busy(s', |s.request.tokens|)
    decreases |bytes|
  {
    hide Step, Busy, InGap;
    if bytes == [] {
      assert s.(state := State.Argument(s.state.lastCh)) == s by { GapIsArgument(s); }
    } else {
      BlankFirst(bytes);
      hide Blank, IsWhitespace;
      GapStep(cfg, s, bytes[0]);
      GapIsArgument(s);
      var s' := Step(cfg, s, bytes[0]).0;
      if IsWhitespace(bytes[0]) && bytes[0] != LF {
        GapRuns(cfg, s', bytes[1..]);
      } else if Feed(cfg, s, bytes).1 == [] {
        BusyRuns(cfg, s', bytes[1..], |s.request.tokens|);
      }
    }
  }

  lemma GapIsArgument(s: Fields)
    requires InGap(s)
    ensures s.state.Argument?
  {
  }

  /** After an empty literal, spaces are skipped, and nothing else. */
  lemma GapKept(cfg: Config, s: Fields, bytes: seq<Byte>)
    requires s.state == State.Argument(SP) && s.buf == []
    ensures Feed(cfg, s, bytes) == (s, []) <==> Spaces(bytes)
  {
    GapRuns(cfg, s, bytes);
    GapStep(cfg, s, SP);
    hide Feed, Busy, Step;
  }

  // ----------------------------------------------------- what a frame loses

  /** Whether dropping these bytes behind the last event of a frame loses nothing. */
  predicate Harmless(es: seq<Event>, dropped: seq<Byte>) {
    dropped == [] ||
    (es != [] &&
     match es[|es| - 1]
     case Failed(_) => Blank(dropped)
     case NeedsLiteral(size) => size == 0 && Spaces(dropped)
     case Completed(_) => false)
  }

  /** Where `parse` leaves the receiver when it returns. */
  ghost predicate Returned(cfg: Config, s': Fields, e: Event) {
    match e
    case NeedsLiteral(size) =>
      s'.buf == [] && s'.state == if size > 0 then LiteralData(size) else State.Argument(SP)
    case _ => s' == Fresh(cfg)
  }

  lemma {:induction false} ParseReturns(cfg: Config, s: Fields, bytes: seq<Byte>)
    requires Startable(cfg) && Inv(cfg, s)
    ensures var (s', e, _) := ParseCall(cfg, s, bytes);
      Inv(cfg, s') && (e.Some? ==> Returned(cfg, s', e.value))
    decreases |bytes|
  {
    hide Step, Accounted;
    if bytes != [] {
      StepKeepsInvariant(cfg, s, bytes[0]);
      var (s', e) := Step(cfg, s, bytes[0]);
      if e.None? {
        ParseReturns(cfg, s', bytes[1..]);
      }
    }
  }

  lemma {:induction false} IngestReturns(cfg: Config, s: Fields, frame: seq<Byte>)
    requires Startable(cfg) && Inv(cfg, s)
    ensures var (s', es, dropped) := Ingest(cfg, s, frame);
      && Inv(cfg, s')
      && (dropped != [] ==> es != [] && !es[|es| - 1].Completed? && Returned(cfg, s', es[|es| - 1]))
    decreases |frame|
  {
    hide Inv, Returned;
    ParseReturns(cfg, s, frame);
    var (s', e, rest) := ParseCall(cfg, s, frame);
    if e.Some? && e.value.Completed? {
      IngestReturns(cfg, s', rest);
    }
  }

  /** A frame gives what the whole stream gives if and only if nothing but harmless bytes is dropped: white space behind
      an error, spaces behind the prompt of an empty literal, nothing behind any other prompt. */
  lemma IngestExact(cfg: Config, s: Fields, frame: seq<Byte>)
    requires Startable(cfg) && Inv(cfg, s)
    ensures var (s', es, dropped) := Ingest(cfg, s, frame);
      Drive(cfg, s, frame) == (s', es) <==> Harmless(es, dropped)
  {
    hide Inv, Drive, Ingest, Blank, Spaces, Fresh;
    var (s', es, dropped) := Ingest(cfg, s, frame);
    IngestSplits(cfg, s, frame);
    IngestReturns(cfg, s, frame);
    DriveIsFeed(cfg, s', dropped);
    Unchanged(es, Drive(cfg, s', dropped).1);
    if dropped == [] {
      FeedNone(cfg, s');
    } else {
      hide Feed;
      match es[|es| - 1]
      case Failed(_) => FreshKept(cfg, dropped);
      case NeedsLiteral(size) =>
        if size > 0 {
          DataKept(cfg, s', dropped);
        } else {
          GapKept(cfg, s', dropped);
        }
    }
  }

  lemma Unchanged<T>(a: seq<T>, b: seq<T>)
    ensures a + b == a <==> b == []
  {
  }

  /** No frame loses anything that matters. */
  ghost predicate NothingLost(cfg: Config, s: Fields, frames: seq<seq<Byte>>)
    decreases |frames|
  {
    frames == [] ||
    var (s', es, dropped) := Ingest(cfg, s, frames[0]);
    Harmless(es, dropped) && NothingLost(cfg, s', frames[1..])
  }

  /** With a client that waits for the answer to each prompt and error, frames give what the whole stream gives. */
  lemma {:induction false} NothingLostSuffices(cfg: Config, s: Fields, frames: seq<seq<Byte>>)
    requires Startable(cfg) && Inv(cfg, s) && NothingLost(cfg, s, frames)
    ensures Drive(cfg, s, Flatten(frames)) == IngestFrames(cfg, s, frames)
    decreases |frames|
  {
    hide Inv, Harmless, Ingest, Drive, Startable;
    if frames == [] {
      DriveNothing(cfg, s);
    } else {
      IngestReturns(cfg, s, frames[0]);
      IngestExact(cfg, s, frames[0]);
      NothingLostSuffices(cfg, Ingest(cfg, s, frames[0]).0, frames[1..]);
      TwoChunks(cfg, s, frames[0], Flatten(frames[1..]));
    }
  }

  lemma {:induction false} NothingLostBefore(cfg: Config, s: Fields, frames: seq<seq<Byte>>, k: nat)
    requires NothingLost(cfg, s, frames) && k <= |frames|
    ensures NothingLost(cfg, s, frames[..k])
    decreases k
  {
    hide Harmless, Ingest;
    if k > 0 {
      NothingLostBefore(cfg, Ingest(cfg, s, frames[0]).0, frames[1..], k - 1);
      assert frames[..k][1..] == frames[1..][..k - 1];
    }
  }

  /** After each of the frames, what the frames have given is what the whole stream so far gives. */
  ghost predicate InStep(cfg: Config, s: Fields, frames: seq<seq<Byte>>) {
    forall k :: 0 <= k <= |frames| ==> IngestFrames(cfg, s, frames[..k]) == Drive(cfg, s, Flatten(frames[..k]))
  }

  lemma FirstFrame(cfg: Config, s: Fields, frames: seq<seq<Byte>>)
    requires frames != [] && InStep(cfg, s, frames)
    ensures Drive(cfg, s, frames[0]) == (Ingest(cfg, s, frames[0]).0, Ingest(cfg, s, frames[0]).1)
  {
    hide Ingest, Drive;
    assert frames[..1] == [frames[0]] && Flatten([frames[0]]) == frames[0];
    assert IngestFrames(cfg, s, [frames[0]]) == Drive(cfg, s, frames[0]);
    OneFrame(cfg, s, frames[0]);
  }

  lemma OneFrame(cfg: Config, s: Fields, frame: seq<Byte>)
    ensures IngestFrames(cfg, s, [frame]) == (Ingest(cfg, s, frame).0, Ingest(cfg, s, frame).1)
  {
    hide Ingest;
    var (s', es, _) := Ingest(cfg, s, frame);
    var none := [frame][1..];
    assert none == [] && IngestFrames(cfg, s', none) == (s', []) && es + [] == es;
  }

  lemma LaterFrames(cfg: Config, s: Fields, frames: seq<seq<Byte>>)
    requires frames != [] && InStep(cfg, s, frames)
    ensures InStep(cfg, Ingest(cfg, s, frames[0]).0, frames[1..])
  {
    hide Ingest, Drive;
    FirstFrame(cfg, s, frames);
    var (s', es) := Drive(cfg, s, frames[0]);
    var rest := frames[1..];
    forall k | 0 <= k <= |rest| ensures IngestFrames(cfg, s', rest[..k]) == Drive(cfg, s', Flatten(rest[..k])) {
      assert frames[..k + 1][1..] == rest[..k] && frames[..k + 1][0] == frames[0];
      TwoChunks(cfg, s, frames[0], Flatten(rest[..k]));
      SameRest(es, IngestFrames(cfg, s', rest[..k]).1, Drive(cfg, s', Flatten(rest[..k])).1);
    }
  }

  lemma SameRest<T>(a: seq<T>, b: seq<T>, c: seq<T>)
    ensures a + b == a + c <==> b == c
  {
    assert (a + b)[|a|..] == b && (a + c)[|a|..] == c;
  }

  /** Frames keep in step with the whole stream if and only if no frame loses anything that matters. */
  lemma {:induction false} IngestFramesIsDrive(cfg: Config, s: Fields, frames: seq<seq<Byte>>)
    requires Startable(cfg) && Inv(cfg, s)
    ensures InStep(cfg, s, frames) <==> NothingLost(cfg, s, frames)
    decreases |frames|
  {
    hide Inv, Harmless, Ingest, IngestFrames, Drive, Startable;
    if NothingLost(cfg, s, frames) {
      forall k | 0 <= k <= |frames| ensures IngestFrames(cfg, s, frames[..k]) == Drive(cfg, s, Flatten(frames[..k])) {
        NothingLostBefore(cfg, s, frames, k);
        NothingLostSuffices(cfg, s, frames[..k]);
      }
    } else if InStep(cfg, s, frames) {
      FirstFrame(cfg, s, frames);
      LaterFrames(cfg, s, frames);
      IngestReturns(cfg, s, frames[0]);
      IngestExact(cfg, s, frames[0]);
      IngestFramesIsDrive(cfg, Ingest(cfg, s, frames[0]).0, frames[1..]);
    }
  }

  lemma DriveNothing(cfg: Config, s: Fields)
    ensures Drive(cfg, s, []) == (s, [])
  {
  }

  // -------------------------------------------------------- a request that is lost

  /** `a !` is no request: a command name has letters and digits only. */
  const BAD_LINE: seq<Byte> := [97, SP, 33]

  lemma BadLine(cfg: Config, rest: seq<Byte>)
    requires cfg.startState == Start && cfg.parser.isUtf8([97])
    ensures ParseCall(cfg, Fresh(cfg), BAD_LINE + rest) == (Fresh(cfg), Some(Failed(Some([97]))), rest)
  {
    var all := BAD_LINE + rest;
    var s0 := Fresh(cfg);
    var s1, s2 := s0.(buf := [97], state := Tag), InCommand(cfg, [97], false);
    assert s0.buf + [97] == [97];
    assert Step(cfg, s0, 97) == (s1, None) && Step(cfg, s1, SP) == (s2, None);
    assert Step(cfg, s2, 33) == (s0, Some(Failed(Some([97]))));
    hide Step, Fresh, InCommand;
    assert all[1..] == [SP, 33] + rest && all[1..][1..] == [33] + rest && all[1..][1..][1..] == rest;
    assert ParseCall(cfg, s2, [33] + rest) == (s0, Some(Failed(Some([97]))), rest);
    assert ParseCall(cfg, s1, [SP, 33] + rest) == ParseCall(cfg, s2, [33] + rest);
  }

  /** A good request in the frame of a bad line is never seen; on its own it would have been. */
  lemma RequestLost(cfg: Config, r: ClientRequest)
    requires cfg.startState == Start && cfg.parser.isUtf8([97]) && RequestOk(cfg, r)
    ensures var frame := BAD_LINE + [CR, LF] + EncodeRequest(cfg, r);
      var request := Request(r.tag, r.command, TokensOf(r.pieces));
      && Ingest(cfg, Fresh(cfg), frame) == (Fresh(cfg), [Failed(Some([97]))], [CR, LF] + EncodeRequest(cfg, r))
      && Drive(cfg, Fresh(cfg), frame) == (Fresh(cfg), [Failed(Some([97])), Completed(request)])
  {
    var line, good := [CR, LF], EncodeRequest(cfg, r);
    var frame := BAD_LINE + line + good;
    var bad, seen := Failed(Some([97])), Completed(Request(r.tag, r.command, TokensOf(r.pieces)));
    assert frame == BAD_LINE + (line + good);
    BadLine(cfg, line + good);
    IngestBad(cfg, frame, bad, line + good);
    hide Drive, Feed, Fresh, EncodeRequest, RequestOk, TokensOf, Step, Ingest, ParseCall;
    IngestSplits(cfg, Fresh(cfg), frame);
    DriveIsFeed(cfg, Fresh(cfg), line + good);
    FreshKept(cfg, line);
    FeedThen(cfg, Fresh(cfg), line, Fresh(cfg), good);
    RequestFed(cfg, r);
    assert [bad] + [seen] == [bad, seen];
  }

  lemma IngestBad(cfg: Config, frame: seq<Byte>, bad: Event, rest: seq<Byte>)
    requires !bad.Completed? && ParseCall(cfg, Fresh(cfg), frame) == (Fresh(cfg), Some(bad), rest)
    ensures Ingest(cfg, Fresh(cfg), frame) == (Fresh(cfg), [bad], rest)
  {
    hide ParseCall, Fresh;
  }
}
