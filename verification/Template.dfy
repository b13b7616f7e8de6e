/** The template engine (utils/src/template.rs).  Parsing turns a text into a flat list of
    instructions in which a block start knows where its block ends; evaluation runs over that
    list with jumps.  Both are tied here to the tree of blocks the text stands for. */
module Template {
  import opened Utf8
  import opened Wrappers

  datatype Var = Var(id: nat)

  /** `T::from_str` for the variable names, and the characters `trim` takes off. */
  datatype Lang = Lang(fromStr: string -> Option<Var>, isSpace: char -> bool)

  datatype Item =
    | Static(text: string)
    | Variable(name: Var, escape: bool)
    | If(variable: Var, blockEnd: nat)
    | ForEach(variable: Var, blockEnd: nat)

  datatype Template = Template(items: seq<Item>, size: nat)

  datatype Value = Single(text: string) | Block(entries: seq<map<Var, string>>)

  // ------------------------------------------------------------ the block tree

  datatype Node =
    | Txt(text: string)
    | Show(name: Var, escape: bool)
    | Section(isEach: bool, tag: string, variable: Var, body: seq<Node>)
    | Stray(isEach: bool, tag: string)    // a block end where no block is open; parsing skips it

  datatype Directive =
    | Text(text: string)
    | Put(name: Var, escape: bool)
    | Open(isEach: bool, tag: string, variable: Var)
    | Close(isEach: bool, tag: string)

  /** The tree written out as the directives of a text. */
  function Linear(nodes: seq<Node>): seq<Directive>
    decreases nodes, 0
  {
    if nodes == [] then [] else LinearNode(nodes[0]) + Linear(nodes[1..])
  }

  function LinearNode(node: Node): seq<Directive>
    decreases node, 1
  {
    match node
    case Txt(text) => [Text(text)]
    case Show(name, escape) => [Put(name, escape)]
    case Section(isEach, tag, variable, body) => [Open(isEach, tag, variable)] + Linear(body) + [Close(isEach, tag)]
    case Stray(isEach, tag) => [Close(isEach, tag)]
  }

  function Width(nodes: seq<Node>): nat
    decreases nodes, 0
  {
    if nodes == [] then 0 else WidthNode(nodes[0]) + Width(nodes[1..])
  }

  function WidthNode(node: Node): nat
    decreases node, 1
  {
    match node
    case Section(_, _, _, body) => 1 + Width(body)
    case Stray(_, _) => 0
    case _ => 1
  }

  /** The tree as instructions, the first of them at index `base`. */
  function Flat(nodes: seq<Node>, base: nat): (items: seq<Item>)
    ensures |items| == Width(nodes)
    decreases nodes, 0
  {
    if nodes == [] then [] else FlatNode(nodes[0], base) + Flat(nodes[1..], base + WidthNode(nodes[0]))
  }

  function FlatNode(node: Node, base: nat): (items: seq<Item>)
    ensures |items| == WidthNode(node)
    decreases node, 1
  {
    match node
    case Txt(text) => [Static(text)]
    case Show(name, escape) => [Variable(name, escape)]
    case Section(isEach, _, variable, body) => [Start(isEach, variable, base + 1 + Width(body))] + Flat(body, base + 1)
    case Stray(_, _) => []
  }

  lemma FlatFirst(nodes: seq<Node>, base: nat)
    requires nodes != []
    ensures Flat(nodes, base) == FlatNode(nodes[0], base) + Flat(nodes[1..], base + WidthNode(nodes[0]))
    ensures Width(nodes) == WidthNode(nodes[0]) + Width(nodes[1..])
  {
    hide FlatNode, WidthNode;
  }

  lemma FlatOne(node: Node, base: nat)
    ensures Flat([node], base) == FlatNode(node, base) && Width([node]) == WidthNode(node)
    ensures Flat([], base) == [] && Width([]) == 0
  {
    hide FlatNode, WidthNode;
    assert [node][1..] == [];
  }

  lemma LinearFirst(nodes: seq<Node>)
    requires nodes != []
    ensures Linear(nodes) == LinearNode(nodes[0]) + Linear(nodes[1..])
  {
    hide LinearNode;
  }

  function Start(isEach: bool, variable: Var, blockEnd: nat): Item {
    if isEach then ForEach(variable, blockEnd) else If(variable, blockEnd)
  }

  /** Block ends without a block stand at the top level only. */
  predicate Proper(nodes: seq<Node>, top: bool)
    decreases nodes, 0
  {
    nodes == [] || (ProperNode(nodes[0], top) && Proper(nodes[1..], top))
  }

  predicate ProperNode(node: Node, top: bool)
    decreases node, 1
  {
    match node
    case Section(_, _, _, body) => Proper(body, false)
    case Stray(_, _) => top
    case _ => true
  }

  lemma ProperFirst(nodes: seq<Node>, top: bool)
    requires nodes != []
    ensures Proper(nodes, top) <==> ProperNode(nodes[0], top) && Proper(nodes[1..], top)
  {
    hide ProperNode;
  }

  // ---------------------------------------------------------------- lexing

  /** `split_once` at a doubled character. */
  function SplitOnce(s: string, c: char): (r: Option<(string, string)>)
    ensures r.Some? ==> |r.value.1| < |s|
    ensures r.Some? ==> s == r.value.0 + [c, c] + r.value.1
  {
    if |s| < 2 then None
    else if s[0] == c && s[1] == c then Some(("", s[2..]))
    else match SplitOnce(s[1..], c)
      case None => None
      case Some((a, b)) => Some(([s[0]] + a, b))
  }

  function TrimStart(lang: Lang, s: string): string {
    if s != "" && lang.isSpace(s[0]) then TrimStart(lang, s[1..]) else s
  }

  function TrimEnd(lang: Lang, s: string): string {
    if s != "" && lang.isSpace(s[|s| - 1]) then TrimEnd(lang, s[..|s| - 1]) else s
  }

  function Trim(lang: Lang, s: string): string {
    TrimEnd(lang, TrimStart(lang, s))
  }

  function StripPrefix(s: string, prefix: string): Option<string> {
    if prefix <= s then Some(s[|prefix|..]) else None
  }

  /** `each x` or `if x`. */
  function BlockName(s: string): Option<(bool, string)> {
    match StripPrefix(s, "each ")
    case Some(name) => Some((true, name))
    case None =>
      match StripPrefix(s, "if ")
      case Some(name) => Some((false, name))
      case None => None
  }

  /** What stands between the braces. */
  function Classify(lang: Lang, content: string): Option<Directive> {
    var v := Trim(lang, content);
    match StripPrefix(v, "#")
    case Some(name) =>
      (match BlockName(Trim(lang, name))
       case None => None
       case Some((isEach, tag)) =>
         match lang.fromStr(tag)
         case None => None
         case Some(variable) => Some(Open(isEach, tag, variable)))
    case None =>
      match StripPrefix(v, "/")
      case Some(name) =>
        (match BlockName(Trim(lang, name))
         case None => None
         case Some((isEach, tag)) => Some(Close(isEach, tag)))
      case None =>
        var (name, escape) := match StripPrefix(v, "!") case Some(n) => (n, false) case None => (v, true);
        match lang.fromStr(name)
        case None => None
        case Some(variable) => Some(Put(variable, escape))
  }

  function Texts(text: string): seq<Directive> {
    if text == "" then [] else [Text(text)]
  }

  /** The directives of a text, if its braces and names are in order. */
  function Lex(lang: Lang, text: string): Option<seq<Directive>>
    decreases |text|
  {
    match SplitOnce(text, '{')
    case None => Some(Texts(text))
    case Some((start, end)) =>
      match SplitOnce(end, '}')
      case None => None
      case Some((content, rest)) =>
        match Classify(lang, content)
        case None => None
        case Some(directive) =>
          match Lex(lang, rest)
          case None => None
          case Some(ds) => Some(Texts(start) + ([directive] + ds))
  }

  // -------------------------------------------------------------- the stack

  type Stack = seq<(string, nat)>

  /** What one directive does to the instructions and the open blocks. */
  function Push(d: Directive, items: seq<Item>, stack: Stack): Option<(seq<Item>, Stack)> {
    match d
    case Text(text) => Some((items + [Static(text)], stack))
    case Put(name, escape) => Some((items + [Variable(name, escape)], stack))
    case Open(isEach, tag, variable) => Some((items + [Start(isEach, variable, 0)], stack + [(tag, |items|)]))
    case Close(isEach, tag) =>
      if stack == [] then Some((items, stack))
      else
        var (expected, pos) := stack[|stack| - 1];
        if expected != tag || pos >= |items| then None
        else if items[pos].If? && !isEach then Some((items[pos := If(items[pos].variable, |items|)], stack[..|stack| - 1]))
        else if items[pos].ForEach? && isEach then Some((items[pos := ForEach(items[pos].variable, |items|)], stack[..|stack| - 1]))
        else None
  }

  function Assemble(ds: seq<Directive>, items: seq<Item>, stack: Stack): Option<seq<Item>> {
    if ds == [] then if stack == [] then Some(items) else None
    else match Push(ds[0], items, stack)
      case None => None
      case Some((items', stack')) => Assemble(ds[1..], items', stack')
  }

  function StaticSize(items: seq<Item>): nat {
    if items == [] then 0
    else
      var last := items[|items| - 1];
      StaticSize(items[..|items| - 1]) + if last.Static? then ByteLength(last.text) else 0
  }

  ghost function Finish(lang: Lang, text: string, items: seq<Item>, stack: Stack): Option<seq<Item>> {
    match Lex(lang, text)
    case None => None
    case Some(ds) => Assemble(ds, items, stack)
  }

  lemma {:induction false} PatchKeepsSize(items: seq<Item>, pos: nat, item: Item)
    requires pos < |items| && !items[pos].Static? && !item.Static?
    ensures StaticSize(items[pos := item]) == StaticSize(items)
    decreases |items|
  {
    var patched, n := items[pos := item], |items| - 1;
    if pos < n {
      PatchKeepsSize(items[..n], pos, item);
      assert patched[..n] == items[..n][pos := item];
    } else {
      assert patched[..n] == items[..n];
    }
  }

  lemma PushKeepsSize(d: Directive, items: seq<Item>, stack: Stack)
    requires Push(d, items, stack).Some?
    ensures StaticSize(Push(d, items, stack).value.0) == StaticSize(items) + if d.Text? then ByteLength(d.text) else 0
  {
    match d
    case Close(isEach, tag) =>
      if stack != [] {
        var pos := stack[|stack| - 1].1;
        PatchKeepsSize(items, pos, Start(isEach, items[pos].variable, |items|));
      }
    case _ =>
      var items' := Push(d, items, stack).value.0;
      assert items'[..|items|] == items;
  }

  /** Positions on the stack are those of instructions. */
  predicate Inside(items: seq<Item>, stack: Stack) {
    forall k :: 0 <= k < |stack| ==> stack[k].1 < |items|
  }

  lemma AssembleFirst(d: Directive, ds: seq<Directive>, items: seq<Item>, stack: Stack)
    ensures Assemble([d] + ds, items, stack) ==
      match Push(d, items, stack) { case None => None case Some((items', stack')) => Assemble(ds, items', stack') }
  {
    assert ([d] + ds)[1..] == ds;
  }

  lemma AssembleText(text: string, ds: seq<Directive>, items: seq<Item>, stack: Stack)
    ensures Assemble(Texts(text) + ds, items, stack) == Assemble(ds, WithText(items, text), stack)
  {
    if text == "" {
      assert Texts(text) + ds == ds;
    } else {
      AssembleFirst(Text(text), ds, items, stack);
    }
  }

  function WithText(items: seq<Item>, text: string): seq<Item> {
    if text == "" then items else items + [Static(text)]
  }

  /** The text ends without another `{{`. */
  lemma LastText(lang: Lang, text: string, items: seq<Item>, stack: Stack)
    requires SplitOnce(text, '{').None?
    ensures Finish(lang, text, items, stack) == if stack == [] then Some(WithText(items, text)) else None
  {
    AssembleText(text, [], items, stack);
    assert Texts(text) + [] == Texts(text);
  }

  ghost function Continue(lang: Lang, rest: string, r: Option<(seq<Item>, Stack)>): Option<seq<Item>> {
    match r
    case None => None
    case Some((items, stack)) => Finish(lang, rest, items, stack)
  }

  /** The text goes on with a directive. */
  lemma OneDirective(lang: Lang, text: string, items: seq<Item>, stack: Stack,
                     start: string, content: string, rest: string, d: Directive)
    requires SplitOnce(text, '{').Some? && SplitOnce(text, '{').value.0 == start
    requires SplitOnce(SplitOnce(text, '{').value.1, '}') == Some((content, rest)) && Classify(lang, content) == Some(d)
    ensures |rest| < |text|
    ensures Finish(lang, text, items, stack) == Continue(lang, rest, Push(d, WithText(items, start), stack))
  {
    hide Classify, SplitOnce, Assemble, Texts, WithText;
    if Lex(lang, rest).Some? {
      var ds := Lex(lang, rest).value;
      AssembleText(start, [d] + ds, items, stack);
      AssembleFirst(d, ds, WithText(items, start), stack);
    }
  }

  /** A directive, once its names are known; `None` where the original returns an error. */
  method Apply(d: Directive, items: seq<Item>, blockStack: Stack) returns (r: Option<(seq<Item>, Stack)>)
    requires Inside(items, blockStack)
    ensures r == Push(d, items, blockStack)
    ensures r.Some? ==> Inside(r.value.0, r.value.1)
  {
    match d {
      case Open(isEach, tag, variable) =>
        var stack := blockStack + [(tag, |items|)];
        if isEach {
          return Some((items + [ForEach(variable, 0)], stack));
        } else {
          return Some((items + [If(variable, 0)], stack));
        }
      case Close(isEach, tag) =>
        if blockStack == [] {
          return Some((items, blockStack));
        }
        var (expected, ifPos) := blockStack[|blockStack| - 1];
        var stack := blockStack[..|blockStack| - 1];
        if expected != tag {
          return None;
        }
        if items[ifPos].If? && !isEach {
          return Some((items[ifPos := If(items[ifPos].variable, |items|)], stack));
        } else if items[ifPos].ForEach? && isEach {
          return Some((items[ifPos := ForEach(items[ifPos].variable, |items|)], stack));
        } else {
          return None;
        }
      case Put(name, escape) =>
        return Some((items + [Variable(name, escape)], blockStack));
      case Text(text) =>
        return Some((items + [Static(text)], blockStack));
    }
  }

  method Parse(lang: Lang, source: string) returns (r: Option<Template>)
    ensures r.Some? <==> Finish(lang, source, [], []).Some?
    ensures r.Some? ==> Finish(lang, source, [], []) == Some(r.value.items) && r.value.size == StaticSize(r.value.items)
  {
    hide SplitOnce, Classify, Push, Assemble;
    var template := source;
    var items: seq<Item> := [];
    var blockStack: Stack := [];
    var size := 0;
    while true
      invariant Finish(lang, template, items, blockStack) == Finish(lang, source, [], [])
      invariant size == StaticSize(items) && Inside(items, blockStack)
      decreases |template|
    {
      match SplitOnce(template, '{') {
        case Some((start, end)) =>
          ghost var items0 := items;
          TextKeeps(items, blockStack, start);
          if start != "" {
            items := items + [Static(start)];
            size := size + ByteLength(start);
          }
          match SplitOnce(end, '}') {
            case None => return None;
            case Some((content, rest)) =>
              match Classify(lang, content) {
                case None => return None;
                case Some(d) =>
                  OneDirective(lang, template, items0, blockStack, start, content, rest, d);
                  var next := Apply(d, items, blockStack);
                  if next.None? {
                    return None;
                  }
                  PushKeepsSize(d, items, blockStack);
                  NeverText(lang, content);
                  items, blockStack := next.value.0, next.value.1;
                  template := rest;
              }
          }
        case None =>
          LastText(lang, template, items, blockStack);
          TextKeeps(items, blockStack, template);
          if template != "" {
            items := items + [Static(template)];
            size := size + ByteLength(template);
          }
          return if blockStack == [] then Some(Template(items, size)) else None;
      }
    }
  }

  lemma TextKeeps(items: seq<Item>, stack: Stack, text: string)
    requires Inside(items, stack)
    ensures StaticSize(WithText(items, text)) == StaticSize(items) + ByteLength(text) && Inside(WithText(items, text), stack)
  {
    if text != "" {
      PushKeepsSize(Text(text), items, stack);
    }
  }

  lemma NeverText(lang: Lang, content: string)
    ensures Classify(lang, content).Some? ==> !Classify(lang, content).value.Text?
  {
  }
}
