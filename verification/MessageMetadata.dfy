/** The migration of message metadata (migration/src/email_v1.rs, `from_legacy`): a tree of
    messages nested in message parts becomes one table in which a part refers to a nested
    message by its number.  Headers are kept as they are. */
module MessageMetadata {
  import opened Sequences
  import opened Wrappers

  datatype Header = Header(id: nat)

  datatype Encoding = Plain | QuotedPrintable | Base64

  // ---------------------------------------------------------- the old format

  datatype LegacyContents =
    LegacyContents(htmlBody: seq<nat>, textBody: seq<nat>, attachments: seq<nat>, parts: seq<LegacyPart>)

  datatype LegacyPart = LegacyPart(headers: seq<Header>, isEncodingProblem: bool, body: LegacyBody, encoding: Encoding,
                                   size: nat, offsetHeader: nat, offsetBody: nat, offsetEnd: nat)

  datatype LegacyBody = Text | Html | Binary | InlineBinary | Message(message: LegacyContents) | Multipart(ids: seq<nat>)

  // ---------------------------------------------------------- the new format

  datatype Contents = Contents(htmlBody: seq<nat>, textBody: seq<nat>, attachments: seq<nat>, parts: seq<Part>)

  datatype Part = Part(headers: seq<Header>, flags: nat, body: Body, offsetHeader: nat, offsetBody: nat, offsetEnd: nat)

  datatype Body = FlatText | FlatHtml | FlatBinary | FlatInlineBinary | FlatMessage(id: nat) | FlatMultipart(ids: seq<nat>)

  const PART_ENCODING_BASE64: nat := 0x8000_0000
  const PART_ENCODING_QP: nat := 0x4000_0000
  const PART_ENCODING_PROBLEM: nat := 0x2000_0000

  // `as u16` and `as u32` keep the low bits; so does the mask on the size, which leaves 29 of them.
  function U16(x: nat): nat { x % 0x1_0000 }
  function U32(x: nat): nat { x % 0x1_0000_0000 }
  function MaskedSize(x: nat): nat { x % PART_ENCODING_PROBLEM }

  function AllU16(xs: seq<nat>): (r: seq<nat>)
    ensures |r| == |xs| && forall i :: 0 <= i < |xs| ==> r[i] == U16(xs[i])
  {
    seq(|xs|, i requires 0 <= i < |xs| => U16(xs[i]))
  }

  /** The three flags have a bit each above the 29 bits of the size, so `|` is `+`. */
  function Flags(encoding: Encoding, problem: bool, size: nat): nat {
    (match encoding case Plain => 0 case QuotedPrintable => PART_ENCODING_QP case Base64 => PART_ENCODING_BASE64)
    + (if problem then PART_ENCODING_PROBLEM else 0)
    + MaskedSize(size)
  }

  function EncodingOf(flags: nat): Encoding {
    if flags / PART_ENCODING_BASE64 % 2 == 1 then Base64 else if flags / PART_ENCODING_QP % 2 == 1 then QuotedPrintable else Plain
  }

  lemma FlagsRead(encoding: Encoding, problem: bool, size: nat)
    ensures var flags := Flags(encoding, problem, size);
      && flags < 0x1_0000_0000
      && EncodingOf(flags) == encoding
      && (flags / PART_ENCODING_PROBLEM % 2 == 1 <==> problem)
      && flags % PART_ENCODING_PROBLEM == MaskedSize(size)
  {
  }

  // ------------------------------------------------------------ the conversion

  /** The messages nested directly in the first parts of a message, in order. */
  function Children(parts: seq<LegacyPart>): seq<LegacyContents> {
    if parts == [] then []
    else
      var last := parts[|parts| - 1];
      Children(parts[..|parts| - 1]) + if last.body.Message? then [last.body.message] else []
  }

  function ConvertBody(body: LegacyBody, id: nat): Body {
    match body
    case Text => FlatText
    case Html => FlatHtml
    case Binary => FlatBinary
    case InlineBinary => FlatInlineBinary
    case Message(_) => FlatMessage(id)
    case Multipart(ids) => FlatMultipart(AllU16(ids))
  }

  function ConvertPart(part: LegacyPart, id: nat): Part {
    Part(part.headers, Flags(part.encoding, part.isEncodingProblem, part.size), ConvertBody(part.body, id),
         U32(part.offsetHeader), U32(part.offsetBody), U32(part.offsetEnd))
  }

  /** `base` messages have been numbered before; a nested message takes the next number. */
  function ConvertParts(parts: seq<LegacyPart>, base: nat): (r: seq<Part>)
    ensures |r| == |parts|
  {
    if parts == [] then []
    else
      var init := parts[..|parts| - 1];
      ConvertParts(init, base) + [ConvertPart(parts[|parts| - 1], U16(base + |Children(init)| + 1))]
  }

  function Convert(message: LegacyContents, base: nat): Contents {
    Contents(AllU16(message.htmlBody), AllU16(message.textBody), AllU16(message.attachments), ConvertParts(message.parts, base))
  }

  /** The children of all of these messages, in order. */
  function AllChildren(messages: seq<LegacyContents>): seq<LegacyContents> {
    if messages == [] then []
    else AllChildren(messages[..|messages| - 1]) + Children(messages[|messages| - 1].parts)
  }

  /** The first `n` messages in breadth-first order, and the queue behind them; each was queued before its turn. */
  ghost predicate BreadthFirst(root: LegacyContents, order: seq<LegacyContents>, n: nat) {
    && n <= |order| && order == [root] + AllChildren(order[..n])
    && forall i :: 0 <= i < n ==> i <= |AllChildren(order[..i])|
  }

  ghost predicate Converted(order: seq<LegacyContents>, contents: seq<Contents>) {
    |contents| <= |order| &&
    forall i :: 0 <= i < |contents| ==> contents[i] == Convert(order[i], |AllChildren(order[..i])|)
  }

  function Count(message: LegacyContents): nat
    decreases message, 1
  {
    1 + CountParts(message.parts)
  }

  function CountParts(parts: seq<LegacyPart>): nat
    decreases parts, 0
  {
    if parts == [] then 0
    else
      var last := parts[|parts| - 1];
      CountParts(parts[..|parts| - 1]) + match last.body { case Message(message) => Count(message) case _ => 0 }
  }

  function CountAll(messages: seq<LegacyContents>): nat {
    if messages == [] then 0 else CountAll(messages[..|messages| - 1]) + Count(messages[|messages| - 1])
  }

  lemma {:induction false} CountAllConcat(a: seq<LegacyContents>, b: seq<LegacyContents>)
    ensures CountAll(a + b) == CountAll(a) + CountAll(b)
  {
    if b == [] {
      assert a + b == a;
    } else {
      var init := b[..|b| - 1];
      assert (a + b)[..|a + b| - 1] == a + init;
      CountAllConcat(a, init);
    }
  }

  lemma {:induction false} CountChildren(parts: seq<LegacyPart>)
    ensures CountAll(Children(parts)) == CountParts(parts)
  {
    if parts == [] {
    } else {
      var init, last := parts[..|parts| - 1], parts[|parts| - 1];
      CountChildren(init);
      if last.body.Message? {
        assert (Children(init) + [last.body.message])[..|Children(init)|] == Children(init);
      } else {
        assert Children(parts) == Children(init);
      }
    }
  }

  lemma {:induction false} CountAtLeastLength(messages: seq<LegacyContents>)
    ensures |messages| <= CountAll(messages)
  {
    if messages != [] {
      CountAtLeastLength(messages[..|messages| - 1]);
    }
  }

  /** Taking a message off the queue and its children onto it lowers the messages to come by one. */
  lemma PopCounts(queue: seq<LegacyContents>)
    requires queue != []
    ensures CountAll(queue[1..] + Children(queue[0].parts)) == CountAll(queue) - 1
  {
    assert queue == [queue[0]] + queue[1..];
    assert [queue[0]][..0] == [];
    CountAllConcat([queue[0]], queue[1..]);
    CountAllConcat(queue[1..], Children(queue[0].parts));
    CountChildren(queue[0].parts);
    assert CountAll([queue[0]]) == Count(queue[0]);
  }

  /** The loop over the parts of one message: nested messages go to the back of the queue, each with the next number.
      `message_id` is a u16. */
  method ConvertMessage(message: LegacyContents, queue: seq<LegacyContents>, id: nat, ghost base: nat)
    returns (contents: Contents, messages: seq<LegacyContents>, messageId: nat)
    requires id == U16(base)
    ensures contents == Convert(message, base)
    ensures messages == queue + Children(message.parts)
    ensures messageId == U16(base + |Children(message.parts)|)
  {
    hide Children, ConvertParts;
    var parts: seq<Part> := [];
    messages, messageId := queue, id;
    FirstPart(message.parts, base, queue);
    for k := 0 to |message.parts|
      invariant parts == ConvertParts(message.parts[..k], base)
      invariant messages == queue + Children(message.parts[..k])
      invariant messageId == U16(base + |Children(message.parts[..k])|)
    {
      var part := message.parts[k];
      NextPart(message.parts, k, base, queue);
      match part.body {
        case Message(nested) =>
          messages := messages + [nested];
          messageId := U16(messageId + 1);
          parts := parts + [ConvertPart(part, messageId)];
        case _ =>
          parts := parts + [ConvertPart(part, 0)];
      }
    }
    assert message.parts[..|message.parts|] == message.parts;
    contents := Contents(AllU16(message.htmlBody), AllU16(message.textBody), AllU16(message.attachments), parts);
  }

  lemma FirstPart(parts: seq<LegacyPart>, base: nat, queue: seq<LegacyContents>)
    ensures ConvertParts(parts[..0], base) == [] && Children(parts[..0]) == []
    ensures queue + Children(parts[..0]) == queue
  {
  }

  lemma NextPart(parts: seq<LegacyPart>, k: nat, base: nat, queue: seq<LegacyContents>)
    requires k < |parts|
    ensures var before := Children(parts[..k]);
      var nested := if parts[k].body.Message? then [parts[k].body.message] else [];
      && Children(parts[..k + 1]) == before + nested
      && queue + Children(parts[..k + 1]) == queue + before + nested
      && (parts[k].body.Message? ==>
            ConvertParts(parts[..k + 1], base) == ConvertParts(parts[..k], base) + [ConvertPart(parts[k], U16(base + |before| + 1))])
      && (!parts[k].body.Message? ==>
            ConvertParts(parts[..k + 1], base) == ConvertParts(parts[..k], base) + [ConvertPart(parts[k], 0)]
            && queue + Children(parts[..k + 1]) == queue + before)
  {
    assert parts[..k + 1][..k] == parts[..k];
    assert !parts[k].body.Message? ==> ConvertBody(parts[k].body, 0) == ConvertBody(parts[k].body, U16(base + |Children(parts[..k])| + 1));
  }

  /** The queue loop: breadth first, until no message is left. */
  method ConvertAll(root: LegacyContents) returns (contents: seq<Contents>, ghost order: seq<LegacyContents>)
    ensures BreadthFirst(root, order, |order|) && Converted(order, contents)
    ensures |contents| == Count(root) && |order| == Count(root)
    ensures contents[0] == Convert(root, 0)
  {
    hide AllChildren, CountAll, BreadthFirst, Converted, U16;
    contents := [];
    var messages, messageId := [root], 0;
    order := [root];
    QueueStarts(root);
    while messages != []
      invariant Underway(root, order, contents, messages, messageId)
      decreases CountAll(messages)
    {
      var message := messages[0];
      PopCounts(messages);
      QueueMoves(root, order, contents, messages, messageId);
      var converted: Contents;
      converted, messages, messageId := ConvertMessage(message, messages[1..], messageId, |AllChildren(order[..|contents|])|);
      contents := contents + [converted];
      order := order + Children(message.parts);
    }
    QueueEnds(root, order, contents, messageId);
    RootFirst(root, order, contents);
  }

  lemma RootFirst(root: LegacyContents, order: seq<LegacyContents>, contents: seq<Contents>)
    requires BreadthFirst(root, order, |order|) && Converted(order, contents) && |contents| == |order|
    ensures |contents| > 0 && contents[0] == Convert(root, 0)
  {
    assert order[0] == root && order[..0] == [];
  }

  /** What the queue loop keeps: the messages converted, the queue behind them, and the last number given out. */
  ghost predicate Underway(root: LegacyContents, order: seq<LegacyContents>, contents: seq<Contents>,
                           messages: seq<LegacyContents>, messageId: nat)
  {
    && BreadthFirst(root, order, |contents|) && Converted(order, contents)
    && messages == order[|contents|..]
    && messageId == U16(|AllChildren(order[..|contents|])|)
    && |contents| + CountAll(messages) == Count(root)
  }

  lemma QueueStarts(root: LegacyContents)
    ensures Underway(root, [root], [], [root], 0)
  {
    assert [root][..0] == [];
    assert CountAll([root]) == CountAll([]) + Count(root);
  }

  lemma QueueMoves(root: LegacyContents, order: seq<LegacyContents>, contents: seq<Contents>,
                   messages: seq<LegacyContents>, messageId: nat)
    requires Underway(root, order, contents, messages, messageId) && messages != []
    ensures |contents| < |order|
    ensures var base, children := |AllChildren(order[..|contents|])|, Children(messages[0].parts);
      Underway(root, order + children, contents + [Convert(messages[0], base)], messages[1..] + children, U16(base + |children|))
  {
    hide AllChildren, Convert, Children, CountAll, Count, U16;
    var n := |contents|;
    assert n < |order| && order[n] == messages[0] by {
      QueueInside(order, n, messages);
    }
    PopCounts(messages);
    OneMore(root, order, n);
    KeepsConverted(order, Children(order[n].parts), contents);
  }

  lemma QueueInside(order: seq<LegacyContents>, n: nat, messages: seq<LegacyContents>)
    requires n <= |order| && messages == order[n..] && messages != []
    ensures n < |order| && order[n] == messages[0] && messages[1..] == order[n + 1..]
  {
  }

  lemma QueueEnds(root: LegacyContents, order: seq<LegacyContents>, contents: seq<Contents>, messageId: nat)
    requires Underway(root, order, contents, [], messageId)
    ensures BreadthFirst(root, order, |order|) && Converted(order, contents) && |contents| == |order| == Count(root)
  {
    assert |order[|contents|..]| == 0;
  }

  /** `from_legacy`: the offset of the root part's body, and the table.  A root message without parts makes the
      original panic. */
  method FromLegacy(root: LegacyContents) returns (r: Option<(nat, seq<Contents>)>)
    ensures r.None? <==> root.parts == []
    ensures r.Some? ==> r.value.0 == U32(root.parts[0].offsetBody) && |r.value.1| == Count(root)
    ensures r.Some? ==> (WellLinked(r.value.1) <==> Count(root) <= 0x1_0000)
    ensures r.Some? && WellLinked(r.value.1) ==>
      Rebuild(r.value.1, 0) == Narrow(root) && (Rebuild(r.value.1, 0) == root <==> Representable(root))
  {
    var contents, order := ConvertAll(root);
    assert order[0] == root && AllChildren(order[..0]) == [];
    if contents[0].parts == [] {
      return None;
    }
    if Count(root) <= 0x1_0000 {
      RoundTrip(root, order, contents);
    } else {
      NumbersRunOut(root, order, contents);
    }
    ConvertPartsAt(root.parts, 0, 0);
    return Some((contents[0].parts[0].offsetBody, contents));
  }

  lemma OneMore(root: LegacyContents, order: seq<LegacyContents>, n: nat)
    requires BreadthFirst(root, order, n) && n < |order|
    ensures var grown := order + Children(order[n].parts);
      && BreadthFirst(root, grown, n + 1)
      && grown[n + 1..] == order[n + 1..] + Children(order[n].parts)
      && AllChildren(grown[..n + 1]) == AllChildren(order[..n]) + Children(order[n].parts)
  {
    hide Children, AllChildren, Count, CountAll;
    var children := Children(order[n].parts);
    var grown := order + children;
    Grown(order, children, n);
    ChildrenOfMore(order, n);
    Associate([root], AllChildren(order[..n]), children);
    forall i | 0 <= i < n + 1 ensures i <= |AllChildren(grown[..i])| {
      Grown(order, children, i);
    }
  }

  lemma ChildrenOfMore(order: seq<LegacyContents>, n: nat)
    requires n < |order|
    ensures AllChildren(order[..n + 1]) == AllChildren(order[..n]) + Children(order[n].parts)
  {
    hide Children;
    assert order[..n + 1][..n] == order[..n] && order[..n + 1][n] == order[n];
  }

  lemma Grown<T>(a: seq<T>, b: seq<T>, n: nat)
    requires n < |a|
    ensures (a + b)[..n] == a[..n] && (a + b)[..n + 1] == a[..n + 1] && (a + b)[n + 1..] == a[n + 1..] + b
  {
  }

  lemma KeepsConverted(order: seq<LegacyContents>, more: seq<LegacyContents>, contents: seq<Contents>)
    requires |contents| < |order| && Converted(order, contents)
    ensures Converted(order + more, contents + [Convert(order[|contents|], |AllChildren(order[..|contents|])|)])
  {
    hide AllChildren, Convert;
    var grown := order + more;
    forall i | 0 <= i <= |contents| ensures grown[i] == order[i] && grown[..i] == order[..i] {
    }
  }

  // ----------------------------------------------- reading the table back

  /** Every reference leads forward in the table, and inside it. */
  ghost predicate WellLinked(contents: seq<Contents>) {
    forall i, k :: 0 <= i < |contents| && 0 <= k < |contents[i].parts| && contents[i].parts[k].body.FlatMessage? ==>
      i < contents[i].parts[k].body.id < |contents|
  }

  ghost function Rebuild(contents: seq<Contents>, i: nat): LegacyContents
    requires WellLinked(contents) && i < |contents|
    decreases |contents| - i, |contents[i].parts| + 1
  {
    var c := contents[i];
    LegacyContents(c.htmlBody, c.textBody, c.attachments, RebuildParts(contents, i, |c.parts|))
  }

  ghost function RebuildParts(contents: seq<Contents>, i: nat, n: nat): seq<LegacyPart>
    requires WellLinked(contents) && i < |contents| && n <= |contents[i].parts|
    decreases |contents| - i, n
  {
    if n == 0 then [] else RebuildParts(contents, i, n - 1) + [RebuildPart(contents, i, n - 1)]
  }

  ghost function RebuildPart(contents: seq<Contents>, i: nat, k: nat): LegacyPart
    requires WellLinked(contents) && i < |contents| && k < |contents[i].parts|
    decreases |contents| - i, k
  {
    var part := contents[i].parts[k];
    var body := match part.body
      case FlatText => Text
      case FlatHtml => Html
      case FlatBinary => Binary
      case FlatInlineBinary => InlineBinary
      case FlatMessage(id) => Message(Rebuild(contents, id))
      case FlatMultipart(ids) => Multipart(ids);
    LegacyPart(part.headers, part.flags / PART_ENCODING_PROBLEM % 2 == 1, body, EncodingOf(part.flags),
               part.flags % PART_ENCODING_PROBLEM, part.offsetHeader, part.offsetBody, part.offsetEnd)
  }

  /** The tree with every number cut to the width the new format has for it; its shape is untouched. */
  function Narrow(message: LegacyContents): LegacyContents
    decreases message, 1
  {
    LegacyContents(AllU16(message.htmlBody), AllU16(message.textBody), AllU16(message.attachments), NarrowParts(message.parts))
  }

  function NarrowParts(parts: seq<LegacyPart>): seq<LegacyPart>
    decreases parts, 0
  {
    if parts == [] then [] else NarrowParts(parts[..|parts| - 1]) + [NarrowPart(parts[|parts| - 1])]
  }

  function NarrowPart(part: LegacyPart): LegacyPart
    decreases part, 2
  {
    var body := match part.body
      case Message(message) => Message(Narrow(message))
      case Multipart(ids) => Multipart(AllU16(ids))
      case other => other;
    part.(body := body, size := MaskedSize(part.size),
          offsetHeader := U32(part.offsetHeader), offsetBody := U32(part.offsetBody), offsetEnd := U32(part.offsetEnd))
  }

  lemma {:induction false} ConvertPartsAt(parts: seq<LegacyPart>, base: nat, k: nat)
    requires k < |parts|
    ensures ConvertParts(parts, base)[k] == ConvertPart(parts[k], U16(base + |Children(parts[..k])| + 1))
    decreases |parts|
  {
    var init := parts[..|parts| - 1];
    if k < |init| {
      ConvertPartsAt(init, base, k);
      assert init[..k] == parts[..k];
    }
  }

  lemma {:induction false} ChildAt(parts: seq<LegacyPart>, k: nat)
    requires k < |parts| && parts[k].body.Message?
    ensures |Children(parts[..k])| < |Children(parts)|
    ensures Children(parts)[|Children(parts[..k])|] == parts[k].body.message
    decreases |parts|
  {
    var init := parts[..|parts| - 1];
    if k < |init| {
      ChildAt(init, k);
      assert init[..k] == parts[..k];
    }
  }

  lemma {:induction false} AllChildrenAt(messages: seq<LegacyContents>, i: nat, c: nat)
    requires i < |messages| && c < |Children(messages[i].parts)|
    ensures |AllChildren(messages[..i])| + c < |AllChildren(messages)|
    ensures AllChildren(messages)[|AllChildren(messages[..i])| + c] == Children(messages[i].parts)[c]
    decreases |messages|
  {
    var init := messages[..|messages| - 1];
    if i < |init| {
      AllChildrenAt(init, i, c);
      assert init[..i] == messages[..i];
    }
  }

  /** The number a nested message gets is its place in the order, which lies behind its parent's. */
  lemma NumberIsPlace(root: LegacyContents, order: seq<LegacyContents>, contents: seq<Contents>, i: nat, k: nat)
    requires BreadthFirst(root, order, |order|) && Converted(order, contents) && |contents| == |order| <= 0x1_0000
    requires i < |contents|
    ensures |contents[i].parts| == |order[i].parts|
    ensures k < |order[i].parts| && contents[i].parts[k].body.FlatMessage? ==>
      var id := contents[i].parts[k].body.id;
      order[i].parts[k].body.Message? && i < id < |order| && order[id] == order[i].parts[k].body.message
  {
    hide ConvertParts, Children, AllChildren;
    var base := |AllChildren(order[..i])|;
    if k < |order[i].parts| && contents[i].parts[k].body.FlatMessage? {
      ConvertPartsAt(order[i].parts, base, k);
      ChildAt(order[i].parts, k);
      var c := |Children(order[i].parts[..k])|;
      AllChildrenAt(order, i, c);
      assert order[..|order|] == order;
      assert order[base + c + 1] == AllChildren(order)[base + c];
    }
  }

  lemma {:induction false} RebuildPartsIsNarrow(root: LegacyContents, order: seq<LegacyContents>,
                                                contents: seq<Contents>, i: nat, n: nat)
    requires BreadthFirst(root, order, |order|) && Converted(order, contents) && |contents| == |order| <= 0x1_0000
    requires WellLinked(contents) && i < |contents| && n <= |order[i].parts| == |contents[i].parts|
    ensures RebuildParts(contents, i, n) == NarrowParts(order[i].parts[..n])
    decreases |contents| - i, n
  {
    hide RebuildPart, NarrowPart, BreadthFirst, Converted;
    if n > 0 {
      assert order[i].parts[..n][..n - 1] == order[i].parts[..n - 1];
      RebuildPartsIsNarrow(root, order, contents, i, n - 1);
      RebuildPartIsNarrow(root, order, contents, i, n - 1);
    }
  }

  lemma {:induction false} RebuildPartIsNarrow(root: LegacyContents, order: seq<LegacyContents>,
                                               contents: seq<Contents>, i: nat, k: nat)
    requires BreadthFirst(root, order, |order|) && Converted(order, contents) && |contents| == |order| <= 0x1_0000
    requires WellLinked(contents) && i < |contents| && k < |order[i].parts| == |contents[i].parts|
    ensures RebuildPart(contents, i, k) == NarrowPart(order[i].parts[k])
    decreases |contents| - i, k
  {
    hide ConvertParts, Children, AllChildren, Flags, EncodingOf, Rebuild, Narrow, BreadthFirst;
    var part := order[i].parts[k];
    ConvertPartsAt(order[i].parts, |AllChildren(order[..i])|, k);
    FlagsRead(part.encoding, part.isEncodingProblem, part.size);
    if part.body.Message? {
      NumberIsPlace(root, order, contents, i, k);
      RebuildIsNarrow(root, order, contents, contents[i].parts[k].body.id);
    }
  }

  lemma {:induction false} RebuildIsNarrow(root: LegacyContents, order: seq<LegacyContents>, contents: seq<Contents>, i: nat)
    requires BreadthFirst(root, order, |order|) && Converted(order, contents) && |contents| == |order| <= 0x1_0000
    requires WellLinked(contents) && i < |contents|
    ensures Rebuild(contents, i) == Narrow(order[i])
    decreases |contents| - i, |contents[i].parts| + 1
  {
    NumberIsPlace(root, order, contents, i, 0);
    RebuildPartsIsNarrow(root, order, contents, i, |order[i].parts|);
    assert order[i].parts[..|order[i].parts|] == order[i].parts;
  }

  /** Up to 65536 messages, the table holds the whole tree. */
  lemma TableIsTree(root: LegacyContents, order: seq<LegacyContents>, contents: seq<Contents>)
    requires BreadthFirst(root, order, |order|) && Converted(order, contents) && 0 < |contents| == |order| <= 0x1_0000
    ensures WellLinked(contents) && Rebuild(contents, 0) == Narrow(root)
  {
    forall i, k | 0 <= i < |contents| && 0 <= k < |contents[i].parts| && contents[i].parts[k].body.FlatMessage?
      ensures i < contents[i].parts[k].body.id < |contents|
    {
      NumberIsPlace(root, order, contents, i, k);
    }
    RebuildIsNarrow(root, order, contents, 0);
  }

  lemma {:induction false} LocateChild(parts: seq<LegacyPart>, c: nat) returns (k: nat)
    requires c < |Children(parts)|
    ensures k < |parts| && parts[k].body.Message? && |Children(parts[..k])| == c
    decreases |parts|
  {
    var init := parts[..|parts| - 1];
    if c < |Children(init)| {
      k := LocateChild(init, c);
      assert init[..k] == parts[..k];
    } else {
      k := |init|;
    }
  }

  lemma {:induction false} LocateMessage(messages: seq<LegacyContents>, q: nat) returns (i: nat, k: nat)
    requires q < |AllChildren(messages)|
    ensures i < |messages| && k < |messages[i].parts| && messages[i].parts[k].body.Message?
    ensures |AllChildren(messages[..i])| + |Children(messages[i].parts[..k])| == q
    decreases |messages|
  {
    var init := messages[..|messages| - 1];
    if q < |AllChildren(init)| {
      i, k := LocateMessage(init, q);
      assert init[..i] == messages[..i];
    } else {
      i := |init|;
      k := LocateChild(messages[i].parts, q - |AllChildren(init)|);
    }
  }

  /** With one message more the u16 runs out: that message is number 0, so its parent refers back to the root. */
  lemma NumbersRunOut(root: LegacyContents, order: seq<LegacyContents>, contents: seq<Contents>)
    requires BreadthFirst(root, order, |order|) && Converted(order, contents) && |contents| == |order| > 0x1_0000
    ensures !WellLinked(contents)
  {
    hide AllChildren, ConvertParts, Children;
    assert order[..|order|] == order;
    var i, k := LocateMessage(order, 0xFFFF);
    var base := |AllChildren(order[..i])|;
    ConvertPartsAt(order[i].parts, base, k);
    assert contents[i] == Convert(order[i], base);
    assert contents[i].parts[k].body == FlatMessage(0);
  }

  // -------------------------------------------------- what fits the new format

  predicate FitsU16(xs: seq<nat>) {
    forall i :: 0 <= i < |xs| ==> xs[i] < 0x1_0000
  }

  predicate Representable(message: LegacyContents)
    decreases message, 1
  {
    FitsU16(message.htmlBody) && FitsU16(message.textBody) && FitsU16(message.attachments) && PartsRepresentable(message.parts)
  }

  predicate PartsRepresentable(parts: seq<LegacyPart>)
    decreases parts, 0
  {
    parts == [] || (PartsRepresentable(parts[..|parts| - 1]) && PartRepresentable(parts[|parts| - 1]))
  }

  predicate PartRepresentable(part: LegacyPart)
    decreases part, 2
  {
    && part.size < PART_ENCODING_PROBLEM
    && part.offsetHeader < 0x1_0000_0000 && part.offsetBody < 0x1_0000_0000 && part.offsetEnd < 0x1_0000_0000
    && (match part.body case Message(message) => Representable(message) case Multipart(ids) => FitsU16(ids) case _ => true)
  }

  lemma U16Fits(xs: seq<nat>)
    ensures AllU16(xs) == xs <==> FitsU16(xs)
  {
    if AllU16(xs) == xs {
      assert forall i :: 0 <= i < |xs| ==> xs[i] == U16(xs[i]);
    }
  }

  lemma {:induction false} NarrowIsIdentity(message: LegacyContents)
    ensures Narrow(message) == message <==> Representable(message)
    decreases message, 1
  {
    U16Fits(message.htmlBody);
    U16Fits(message.textBody);
    U16Fits(message.attachments);
    NarrowPartsIsIdentity(message.parts);
  }

  lemma SnocEqual<T>(a: seq<T>, x: T, b: seq<T>, y: T)
    requires |a| == |b|
    ensures a + [x] == b + [y] <==> a == b && x == y
  {
    assert (a + [x])[..|a|] == a && (b + [y])[..|b|] == b;
    assert (a + [x])[|a|] == x && (b + [y])[|b|] == y;
  }

  lemma {:induction false} NarrowPartIsIdentity(part: LegacyPart)
    ensures NarrowPart(part) == part <==> PartRepresentable(part)
    decreases part, 2
  {
    match part.body {
      case Message(message) => NarrowIsIdentity(message);
      case Multipart(ids) => U16Fits(ids);
      case _ =>
    }
  }

  lemma {:induction false} NarrowPartsIsIdentity(parts: seq<LegacyPart>)
    ensures |NarrowParts(parts)| == |parts|
    ensures NarrowParts(parts) == parts <==> PartsRepresentable(parts)
    decreases parts, 0
  {
    if parts == [] {
    } else {
      var init, part := parts[..|parts| - 1], parts[|parts| - 1];
      NarrowPartsIsIdentity(init);
      NarrowPartIsIdentity(part);
      SnocEqual(NarrowParts(init), NarrowPart(part), init, part);
      assert parts == init + [part];
    }
  }

  /** Nothing is lost exactly when every number fits its new width. */
  lemma RoundTrip(root: LegacyContents, order: seq<LegacyContents>, contents: seq<Contents>)
    requires BreadthFirst(root, order, |order|) && Converted(order, contents) && 0 < |contents| == |order| <= 0x1_0000
    ensures WellLinked(contents) && Rebuild(contents, 0) == Narrow(root)
    ensures Rebuild(contents, 0) == root <==> Representable(root)
  {
    TableIsTree(root, order, contents);
    NarrowIsIdentity(root);
  }
}
