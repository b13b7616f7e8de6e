/** The texts that parse are exactly the properly nested ones, and their instructions are the
    block tree laid out flat. */
module TemplateTree {
  import opened Sequences
  import opened Wrappers
  import opened Template

  /** A block that is open: what stands before it at its level, and its start. */
  datatype Frame = Frame(before: seq<Node>, isEach: bool, tag: string, variable: Var)

  /** The instructions up to the start of the innermost open block; block ends are not known yet. */
  function Head(frames: seq<Frame>): seq<Item>
    decreases |frames|, 0
  {
    if frames == [] then []
    else
      var f := frames[|frames| - 1];
      ItemsOf(frames[..|frames| - 1], f.before) + [Start(f.isEach, f.variable, 0)]
  }

  /** The instructions when the blocks `frames` are open and `current` has been read since. */
  function ItemsOf(frames: seq<Frame>, current: seq<Node>): seq<Item>
    decreases |frames|, 1
  {
    Head(frames) + Flat(current, |Head(frames)|)
  }

  function StackOf(frames: seq<Frame>): (stack: Stack)
    ensures |stack| == |frames|
  {
    if frames == [] then []
    else
      var f := frames[|frames| - 1];
      StackOf(frames[..|frames| - 1]) + [(f.tag, |ItemsOf(frames[..|frames| - 1], f.before)|)]
  }

  function LinearHead(frames: seq<Frame>): seq<Directive>
    decreases |frames|, 0
  {
    if frames == [] then []
    else
      var f := frames[|frames| - 1];
      LinearOf(frames[..|frames| - 1], f.before) + [Open(f.isEach, f.tag, f.variable)]
  }

  /** The directives read so far. */
  function LinearOf(frames: seq<Frame>, current: seq<Node>): seq<Directive>
    decreases |frames|, 1
  {
    LinearHead(frames) + Linear(current)
  }

  predicate ProperOf(frames: seq<Frame>, current: seq<Node>) {
    && Proper(current, frames == [])
    && (frames != [] ==> ProperOf(frames[..|frames| - 1], frames[|frames| - 1].before))
  }

  lemma AtTop(nodes: seq<Node>)
    ensures ItemsOf([], nodes) == Flat(nodes, 0) && LinearOf([], nodes) == Linear(nodes)
  {
    assert [] + Flat(nodes, 0) == Flat(nodes, 0) && [] + Linear(nodes) == Linear(nodes);
  }

  // --------------------------------------------------------------- appending

  lemma {:induction false} AppendFlat(nodes: seq<Node>, node: Node, base: nat)
    ensures Flat(nodes + [node], base) == Flat(nodes, base) + FlatNode(node, base + Width(nodes))
    decreases |nodes|
  {
    hide Flat, FlatNode, Width, WidthNode;
    var more := nodes + [node];
    if nodes == [] {
      assert more == [node];
      FlatOne(node, base);
    } else {
      var next := base + WidthNode(nodes[0]);
      assert more[1..] == nodes[1..] + [node] && more[0] == nodes[0];
      FlatFirst(nodes, base);
      FlatFirst(more, base);
      AppendFlat(nodes[1..], node, next);
      Associate(FlatNode(nodes[0], base), Flat(nodes[1..], next), FlatNode(node, base + Width(nodes)));
    }
  }

  lemma {:induction false} AppendLinear(nodes: seq<Node>, node: Node)
    ensures Linear(nodes + [node]) == Linear(nodes) + LinearNode(node)
    decreases |nodes|
  {
    hide LinearNode;
    var more := nodes + [node];
    if nodes == [] {
      assert more == [node] && more[1..] == [];
    } else {
      assert more[1..] == nodes[1..] + [node] && more[0] == nodes[0];
      AppendLinear(nodes[1..], node);
      Associate(LinearNode(nodes[0]), Linear(nodes[1..]), LinearNode(node));
    }
  }

  lemma {:induction false} AppendProper(nodes: seq<Node>, node: Node, top: bool)
    ensures Proper(nodes + [node], top) <==> Proper(nodes, top) && ProperNode(node, top)
    decreases |nodes|
  {
    var more := nodes + [node];
    if nodes == [] {
      assert more == [node] && more[1..] == [];
    } else {
      assert more[1..] == nodes[1..] + [node] && more[0] == nodes[0];
      AppendProper(nodes[1..], node, top);
    }
  }

  lemma ReadingItems(frames: seq<Frame>, current: seq<Node>, node: Node)
    ensures ItemsOf(frames, current + [node]) == ItemsOf(frames, current) + FlatNode(node, |ItemsOf(frames, current)|)
  {
    hide Flat, FlatNode, Head;
    var head := Head(frames);
    AppendFlat(current, node, |head|);
    Associate(head, Flat(current, |head|), FlatNode(node, |head| + Width(current)));
  }

  lemma ReadingLinear(frames: seq<Frame>, current: seq<Node>, node: Node)
    ensures LinearOf(frames, current + [node]) == LinearOf(frames, current) + LinearNode(node)
  {
    hide Linear, LinearNode, LinearHead;
    AppendLinear(current, node);
    Associate(LinearHead(frames), Linear(current), LinearNode(node));
  }

  /** One more node at the level that is being read. */
  lemma Reading(frames: seq<Frame>, current: seq<Node>, node: Node)
    ensures ItemsOf(frames, current + [node]) == ItemsOf(frames, current) + FlatNode(node, |ItemsOf(frames, current)|)
    ensures LinearOf(frames, current + [node]) == LinearOf(frames, current) + LinearNode(node)
    ensures ProperOf(frames, current) && ProperNode(node, frames == []) ==> ProperOf(frames, current + [node])
  {
    ReadingItems(frames, current, node);
    ReadingLinear(frames, current, node);
    AppendProper(current, node, frames == []);
  }

  lemma Opening(frames: seq<Frame>, current: seq<Node>, isEach: bool, tag: string, variable: Var)
    ensures var frames' := frames + [Frame(current, isEach, tag, variable)];
      && Push(Open(isEach, tag, variable), ItemsOf(frames, current), StackOf(frames))
           == Some((ItemsOf(frames', []), StackOf(frames')))
      && LinearOf(frames', []) == LinearOf(frames, current) + [Open(isEach, tag, variable)]
      && (ProperOf(frames, current) ==> ProperOf(frames', []))
  {
    var frames' := frames + [Frame(current, isEach, tag, variable)];
    assert frames'[..|frames|] == frames;
    assert ItemsOf(frames', []) == ItemsOf(frames, current) + [Start(isEach, variable, 0)];
    assert LinearOf(frames', []) == LinearOf(frames, current) + [Open(isEach, tag, variable)];
  }

  /** Closing the innermost block patches its start and makes the block one node of the level around it. */
  lemma Closing(frames: seq<Frame>, current: seq<Node>)
    requires frames != []
    ensures var f, outer := frames[|frames| - 1], frames[..|frames| - 1];
      var section := Section(f.isEach, f.tag, f.variable, current);
      && Push(Close(f.isEach, f.tag), ItemsOf(frames, current), StackOf(frames))
           == Some((ItemsOf(outer, f.before + [section]), StackOf(outer)))
      && LinearOf(outer, f.before + [section]) == LinearOf(frames, current) + [Close(f.isEach, f.tag)]
      && (ProperOf(frames, current) ==> ProperOf(outer, f.before + [section]))
  {
    hide Flat, Linear, LinearNode, LinearOf, Proper, ProperNode, ProperOf;
    var f, outer := frames[|frames| - 1], frames[..|frames| - 1];
    var section := Section(f.isEach, f.tag, f.variable, current);
    var head, items := ItemsOf(outer, f.before), ItemsOf(frames, current);
    Reading(outer, f.before, section);
    PatchStart(head, Start(f.isEach, f.variable, 0), Start(f.isEach, f.variable, |items|), Flat(current, |head| + 1));
    assert StackOf(frames)[..|frames| - 1] == StackOf(outer);
    ClosingLinear(frames, current);
    ClosingProper(frames, current);
  }

  lemma PatchStart(head: seq<Item>, was: Item, now: Item, tail: seq<Item>)
    ensures var items := head + [was] + tail;
      items[|head|] == was && items[|head| := now] == head + ([now] + tail)
  {
  }

  lemma ClosingLinear(frames: seq<Frame>, current: seq<Node>)
    requires frames != []
    ensures var f, outer := frames[|frames| - 1], frames[..|frames| - 1];
      LinearOf(outer, f.before) + LinearNode(Section(f.isEach, f.tag, f.variable, current))
        == LinearOf(frames, current) + [Close(f.isEach, f.tag)]
  {
    var f, outer := frames[|frames| - 1], frames[..|frames| - 1];
    Regroup(LinearOf(outer, f.before), [Open(f.isEach, f.tag, f.variable)], Linear(current), [Close(f.isEach, f.tag)]);
  }

  lemma ClosingProper(frames: seq<Frame>, current: seq<Node>)
    requires frames != []
    ensures var f, outer := frames[|frames| - 1], frames[..|frames| - 1];
      ProperOf(frames, current) ==>
        ProperOf(outer, f.before) && ProperNode(Section(f.isEach, f.tag, f.variable, current), outer == [])
  {
  }

  /** No other block end is taken while a block is open. */
  lemma OnlyMatching(frames: seq<Frame>, current: seq<Node>, isEach: bool, tag: string)
    requires frames != [] && Push(Close(isEach, tag), ItemsOf(frames, current), StackOf(frames)).Some?
    ensures frames[|frames| - 1].isEach == isEach && frames[|frames| - 1].tag == tag
  {
    var f := frames[|frames| - 1];
    var head := ItemsOf(frames[..|frames| - 1], f.before);
    assert ItemsOf(frames, current)[|head|] == Start(f.isEach, f.variable, 0);
  }

  // ---------------------------------------------------------- both directions

  lemma {:induction false} AssembledIsTree(ds: seq<Directive>, frames: seq<Frame>, current: seq<Node>) returns (forest: seq<Node>)
    requires ProperOf(frames, current) && Assemble(ds, ItemsOf(frames, current), StackOf(frames)).Some?
    ensures Proper(forest, true) && Linear(forest) == LinearOf(frames, current) + ds
    ensures Assemble(ds, ItemsOf(frames, current), StackOf(frames)) == Some(Flat(forest, 0))
    decreases |ds|
  {
    hide Push, Flat, Linear, Proper;
    if ds == [] {
      forest := current;
      AtTop(current);
      assert LinearOf(frames, current) + ds == LinearOf(frames, current);
    } else {
      var frames', current' := NextPlace(ds[0], frames, current);
      forest := AssembledIsTree(ds[1..], frames', current');
      assert ds == [ds[0]] + ds[1..];
      assert LinearOf(frames, current) + [ds[0]] + ds[1..] == LinearOf(frames, current) + ([ds[0]] + ds[1..]);
    }
  }

  lemma NextPlace(d: Directive, frames: seq<Frame>, current: seq<Node>) returns (frames': seq<Frame>, current': seq<Node>)
    requires ProperOf(frames, current) && Push(d, ItemsOf(frames, current), StackOf(frames)).Some?
    ensures Push(d, ItemsOf(frames, current), StackOf(frames)) == Some((ItemsOf(frames', current'), StackOf(frames')))
    ensures ProperOf(frames', current') && LinearOf(frames', current') == LinearOf(frames, current) + [d]
  {
    frames' := frames;
    match d
    case Text(text) =>
      Reading(frames, current, Txt(text));
      current' := current + [Txt(text)];
    case Put(name, escape) =>
      Reading(frames, current, Show(name, escape));
      current' := current + [Show(name, escape)];
    case Open(isEach, tag, variable) =>
      Opening(frames, current, isEach, tag, variable);
      frames', current' := frames + [Frame(current, isEach, tag, variable)], [];
    case Close(isEach, tag) =>
      if frames == [] {
        Reading(frames, current, Stray(isEach, tag));
        current' := current + [Stray(isEach, tag)];
        assert ItemsOf(frames, current) + [] == ItemsOf(frames, current);
      } else {
        OnlyMatching(frames, current, isEach, tag);
        Closing(frames, current);
        var f := frames[|frames| - 1];
        frames', current' := frames[..|frames| - 1], f.before + [Section(f.isEach, f.tag, f.variable, current)];
      }
  }

  lemma {:induction false} TreeIsAssembled(nodes: seq<Node>, frames: seq<Frame>, current: seq<Node>, ds: seq<Directive>)
    requires Proper(nodes, frames == [])
    ensures Assemble(Linear(nodes) + ds, ItemsOf(frames, current), StackOf(frames))
         == Assemble(ds, ItemsOf(frames, current + nodes), StackOf(frames))
    decreases nodes, 0
  {
    hide Assemble, ItemsOf, StackOf, LinearNode, ProperNode;
    if nodes == [] {
      assert Linear(nodes) + ds == ds && current + nodes == current;
    } else {
      hide Linear, Proper;
      ProperFirst(nodes, frames == []);
      LinearFirst(nodes);
      NodeIsAssembled(nodes[0], frames, current, Linear(nodes[1..]) + ds);
      TreeIsAssembled(nodes[1..], frames, current + [nodes[0]], ds);
      Associate(LinearNode(nodes[0]), Linear(nodes[1..]), ds);
      TakeFirst(current, nodes);
    }
  }

  lemma {:induction false} NodeIsAssembled(node: Node, frames: seq<Frame>, current: seq<Node>, ds: seq<Directive>)
    requires ProperNode(node, frames == [])
    ensures Assemble(LinearNode(node) + ds, ItemsOf(frames, current), StackOf(frames))
         == Assemble(ds, ItemsOf(frames, current + [node]), StackOf(frames))
    decreases node, 1
  {
    hide Flat, Assemble;
    Reading(frames, current, node);
    match node
    case Txt(text) =>
      AssembleFirst(Text(text), ds, ItemsOf(frames, current), StackOf(frames));
    case Show(name, escape) =>
      AssembleFirst(Put(name, escape), ds, ItemsOf(frames, current), StackOf(frames));
    case Stray(isEach, tag) =>
      AssembleFirst(Close(isEach, tag), ds, ItemsOf(frames, current), StackOf(frames));
      assert ItemsOf(frames, current) + [] == ItemsOf(frames, current);
    case Section(isEach, tag, variable, body) =>
      SectionIsAssembled(isEach, tag, variable, body, frames, current, ds);
  }

  lemma {:induction false} SectionIsAssembled(isEach: bool, tag: string, variable: Var, body: seq<Node>,
                                              frames: seq<Frame>, current: seq<Node>, ds: seq<Directive>)
    requires Proper(body, false)
    ensures Assemble(LinearNode(Section(isEach, tag, variable, body)) + ds, ItemsOf(frames, current), StackOf(frames))
         == Assemble(ds, ItemsOf(frames, current + [Section(isEach, tag, variable, body)]), StackOf(frames))
    decreases body, 1
  {
    hide Flat, Assemble, Push, Linear;
    var inner := frames + [Frame(current, isEach, tag, variable)];
    var rest := [Close(isEach, tag)] + ds;
    Opening(frames, current, isEach, tag, variable);
    AssembleFirst(Open(isEach, tag, variable), Linear(body) + rest, ItemsOf(frames, current), StackOf(frames));
    TreeIsAssembled(body, inner, [], rest);
    assert [] + body == body && inner[..|inner| - 1] == frames;
    Closing(inner, body);
    AssembleFirst(Close(isEach, tag), ds, ItemsOf(inner, body), StackOf(inner));
    assert LinearNode(Section(isEach, tag, variable, body)) + ds == [Open(isEach, tag, variable)] + (Linear(body) + rest);
  }

  /** The text stands for this tree. */
  ghost predicate Means(lang: Lang, text: string, forest: seq<Node>) {
    Proper(forest, true) && Lex(lang, text) == Some(Linear(forest))
  }

  lemma ParseSound(lang: Lang, text: string) returns (forest: seq<Node>)
    requires Finish(lang, text, [], []).Some?
    ensures Means(lang, text, forest) && Finish(lang, text, [], []) == Some(Flat(forest, 0))
  {
    hide Lex, Assemble, Push;
    AtTop([]);
    var ds := Lex(lang, text).value;
    forest := AssembledIsTree(ds, [], []);
    assert [] + ds == ds;
  }

  lemma ParseComplete(lang: Lang, text: string, forest: seq<Node>)
    requires Means(lang, text, forest)
    ensures Finish(lang, text, [], []) == Some(Flat(forest, 0))
  {
    hide Lex, Push, Flat, Linear;
    AtTop(forest);
    NothingYet();
    TreeIsAssembled(forest, [], [], []);
    assert Linear(forest) + [] == Linear(forest) && [] + forest == forest;
  }

  lemma NothingYet()
    ensures ItemsOf([], []) == [] && StackOf([]) == []
  {
  }

  /** A text is accepted exactly when its directives are those of a properly nested tree (block ends without a block
      apart), and then its instructions are that tree, laid out flat. */
  lemma ParsedIsTree(lang: Lang, text: string)
    ensures Finish(lang, text, [], []).Some? <==> exists forest :: Means(lang, text, forest)
    ensures forall forest :: Means(lang, text, forest) ==> Finish(lang, text, [], []) == Some(Flat(forest, 0))
  {
    hide Finish, Flat, Means;
    if Finish(lang, text, [], []).Some? {
      var forest := ParseSound(lang, text);
    }
    forall forest | Means(lang, text, forest) ensures Finish(lang, text, [], []) == Some(Flat(forest, 0)) {
      ParseComplete(lang, text, forest);
    }
  }
}
