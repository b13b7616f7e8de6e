/** Evaluation of a parsed template: the loop over the flat instructions gives what the block
    tree gives. */
module TemplateEval {
  import opened Wrappers
  import opened Template
  import opened TemplateTree

  type Variables = map<Var, Value>
  type Entry = map<Var, string>

  function EscapeHtml(input: string): string {
    if input == "" then ""
    else
      (match input[0]
       case '&' => "&amp;"
       case '<' => "&lt;"
       case '>' => "&gt;"
       case '"' => "&quot;"
       case '\'' => "&#39;"
       case c => [c])
      + EscapeHtml(input[1..])
  }

  function Shown(text: string, escape: bool): string {
    if escape then EscapeHtml(text) else text
  }

  function ShowSingle(vars: Variables, name: Var, escape: bool): string {
    if name in vars && vars[name].Single? then Shown(vars[name].text, escape) else ""
  }

  function ShowEntry(entry: Entry, name: Var, escape: bool): string {
    if name in entry then Shown(entry[name], escape) else ""
  }

  // ------------------------------------------------- the meaning of a tree

  function EvalNodes(nodes: seq<Node>, vars: Variables): string
    decreases nodes, 0
  {
    if nodes == [] then "" else EvalNode(nodes[0], vars) + EvalNodes(nodes[1..], vars)
  }

  function EvalNode(node: Node, vars: Variables): string
    decreases node, 1
  {
    match node
    case Txt(text) => text
    case Show(name, escape) => ShowSingle(vars, name, escape)
    case Section(isEach, _, variable, body) =>
      if !isEach then if variable in vars then EvalNodes(body, vars) else ""
      else if variable in vars && vars[variable].Block? then EachEntry(body, vars[variable].entries)
      else ""
    case Stray(_, _) => ""
  }

  function EachEntry(body: seq<Node>, entries: seq<Entry>): string {
    if entries == [] then "" else EntryNodes(body, entries[0]) + EachEntry(body, entries[1..])
  }

  /** Inside an `each`, variables come from the entry alone, and a nested `each` is as if it were not there. */
  function EntryNodes(nodes: seq<Node>, entry: Entry): string
    decreases nodes, 0
  {
    if nodes == [] then "" else EntryNode(nodes[0], entry) + EntryNodes(nodes[1..], entry)
  }

  function EntryNode(node: Node, entry: Entry): string
    decreases node, 1
  {
    match node
    case Txt(text) => text
    case Show(name, escape) => ShowEntry(entry, name, escape)
    case Section(isEach, _, variable, body) => if isEach || variable in entry then EntryNodes(body, entry) else ""
    case Stray(_, _) => ""
  }

  // ------------------------------------------------------ nested block ends

  predicate IsBlock(item: Item) { item.If? || item.ForEach? }

  /** Of instructions that start at index `base`: every block ends behind its start and inside; blocks do not overlap. */
  ghost predicate Nested(items: seq<Item>, base: nat) {
    && (forall k :: 0 <= k < |items| && IsBlock(items[k]) ==> base + k < items[k].blockEnd <= base + |items|)
    && (forall k, l :: 0 <= k < l < |items| && IsBlock(items[k]) && IsBlock(items[l]) && base + l < items[k].blockEnd ==>
          items[l].blockEnd <= items[k].blockEnd)
  }

  lemma NestedConcat(a: seq<Item>, b: seq<Item>, base: nat)
    requires Nested(a, base) && Nested(b, base + |a|)
    ensures Nested(a + b, base)
  {
    var c := a + b;
    assert forall k :: 0 <= k < |a| ==> c[k] == a[k];
    assert forall k :: |a| <= k < |c| ==> c[k] == b[k - |a|];
  }

  lemma NestedSection(body: seq<Item>, base: nat, isEach: bool, variable: Var)
    requires Nested(body, base + 1)
    ensures Nested([Start(isEach, variable, base + 1 + |body|)] + body, base)
  {
    var c := [Start(isEach, variable, base + 1 + |body|)] + body;
    assert forall k :: 1 <= k < |c| ==> c[k] == body[k - 1];
  }

  /** The block ends of a tree laid out flat are properly nested. */
  lemma {:induction false} FlatIsNested(nodes: seq<Node>, base: nat)
    ensures Nested(Flat(nodes, base), base)
    decreases nodes, 0
  {
    hide Nested, FlatNode;
    if nodes == [] {
      NestedEmpty(base);
    } else {
      FlatNodeIsNested(nodes[0], base);
      FlatIsNested(nodes[1..], base + WidthNode(nodes[0]));
      NestedConcat(FlatNode(nodes[0], base), Flat(nodes[1..], base + WidthNode(nodes[0])), base);
    }
  }

  lemma NestedEmpty(base: nat)
    ensures Nested([], base)
  {
  }

  lemma {:induction false} FlatNodeIsNested(node: Node, base: nat)
    ensures Nested(FlatNode(node, base), base)
    decreases node, 1
  {
    match node
    case Section(isEach, _, variable, body) =>
      FlatIsNested(body, base + 1);
      NestedSection(Flat(body, base + 1), base, isEach, variable);
    case _ =>
  }

  // ------------------------------------------------------- the flat program

  /** What is left to print from instruction `i` on. */
  ghost function Run(items: seq<Item>, i: nat, vars: Variables): string
    requires Nested(items, 0) && i <= |items|
    decreases |items| - i
  {
    if i == |items| then ""
    else match items[i]
      case Static(text) => text + Run(items, i + 1, vars)
      case Variable(name, escape) => ShowSingle(vars, name, escape) + Run(items, i + 1, vars)
      case If(variable, blockEnd) => Run(items, if variable in vars then i + 1 else blockEnd, vars)
      case ForEach(variable, blockEnd) =>
        (if variable in vars && vars[variable].Block? then RunEntries(items, i + 1, blockEnd, vars[variable].entries) else "")
        + Run(items, blockEnd, vars)
  }

  ghost predicate Body(items: seq<Item>, i: nat, end: nat) {
    && i <= end <= |items|
    && forall k :: i <= k < end && IsBlock(items[k]) ==> k < items[k].blockEnd <= end
  }

  ghost function RunEntries(items: seq<Item>, i: nat, end: nat, entries: seq<Entry>): string
    requires Body(items, i, end)
  {
    if entries == [] then "" else RunEntry(items, i, end, entries[0]) + RunEntries(items, i, end, entries[1..])
  }

  ghost function RunEntry(items: seq<Item>, i: nat, end: nat, entry: Entry): string
    requires Body(items, i, end)
    decreases end - i
  {
    if i == end then ""
    else match items[i]
      case Static(text) => text + RunEntry(items, i + 1, end, entry)
      case Variable(name, escape) => ShowEntry(entry, name, escape) + RunEntry(items, i + 1, end, entry)
      case If(variable, blockEnd) => RunEntry(items, if variable in entry then i + 1 else blockEnd, end, entry)
      case ForEach(_, _) => RunEntry(items, i + 1, end, entry)
  }

  lemma Prints(result: string, now: string, rest: string)
    ensures result + (now + rest) == result + now + rest
  {
  }

  /** The loop over the entry of an `each`.  `items[at..end]` is the slice whose iterator the original reassigns. */
  method EvalEntry(items: seq<Item>, from: nat, end: nat, entry: Entry, before: string) returns (result: string)
    requires Body(items, from, end)
    ensures result == before + RunEntry(items, from, end, entry)
  {
    result := before;
    var at := from;
    while at < end
      invariant Body(items, at, end)
      invariant result + RunEntry(items, at, end, entry) == before + RunEntry(items, from, end, entry)
      decreases end - at
    {
      match items[at] {
        case Static(text) =>
          Prints(result, text, RunEntry(items, at + 1, end, entry));
          result := result + text;
          at := at + 1;
        case Variable(name, escape) =>
          Prints(result, ShowEntry(entry, name, escape), RunEntry(items, at + 1, end, entry));
          if name in entry {
            result := result + Shown(entry[name], escape);
          } else {
            assert result + "" == result;
          }
          at := at + 1;
        case If(variable, startPos) =>
          if variable !in entry {
            at := startPos;
          } else {
            at := at + 1;
          }
        case ForEach(_, _) =>
          at := at + 1;
      }
    }
    assert result + "" == result;
  }

  /** `eval`.  The outer iterator runs over `items[baseOffset..]`, and `n` is its counter. */
  method Eval(template: Template, vars: Variables) returns (result: string)
    requires Nested(template.items, 0)
    ensures result == Run(template.items, 0, vars)
  {
    hide Nested, Body, RunEntries, EscapeHtml, Shown;
    var items := template.items;
    result := "";
    var baseOffset, n := 0, 0;
    assert "" + Run(items, 0, vars) == Run(items, 0, vars);
    while baseOffset + n < |items|
      invariant baseOffset + n <= |items|
      invariant result + Run(items, baseOffset + n, vars) == Run(items, 0, vars)
      decreases |items| - (baseOffset + n)
    {
      var idx := baseOffset + n;
      BodyOf(items, idx);
      n := n + 1;
      match items[idx] {
        case Static(text) =>
          Prints(result, text, Run(items, idx + 1, vars));
          result := result + text;
        case Variable(name, escape) =>
          Prints(result, ShowSingle(vars, name, escape), Run(items, idx + 1, vars));
          if name in vars && vars[name].Single? {
            result := result + Shown(vars[name].text, escape);
          } else {
            assert result + "" == result;
          }
        case If(variable, blockEnd) =>
          if variable !in vars {
            baseOffset, n := blockEnd, 0;
          }
        case ForEach(variable, blockEnd) =>
          if variable in vars && vars[variable].Block? {
            Prints(result, RunEntries(items, idx + 1, blockEnd, vars[variable].entries), Run(items, blockEnd, vars));
            result := EvalEntries(items, idx + 1, blockEnd, vars[variable].entries, result);
          } else {
            Prints(result, "", Run(items, blockEnd, vars));
            assert result + "" == result;
          }
          baseOffset, n := blockEnd, 0;
      }
    }
    assert result + "" == result;
  }

  method EvalEntries(items: seq<Item>, from: nat, end: nat, entries: seq<Entry>, before: string) returns (result: string)
    requires Body(items, from, end)
    ensures result == before + RunEntries(items, from, end, entries)
  {
    result := before;
    assert entries[0..] == entries;
    for e := 0 to |entries|
      invariant result + RunEntries(items, from, end, entries[e..]) == before + RunEntries(items, from, end, entries)
    {
      assert entries[e..][1..] == entries[e + 1..];
      Prints(result, RunEntry(items, from, end, entries[e]), RunEntries(items, from, end, entries[e + 1..]));
      result := EvalEntry(items, from, end, entries[e], result);
    }
    assert result + "" == result;
  }

  // --------------------------------------------------- the program is the tree

  /** `nodes` are laid out in `items` from index `base` on. */
  ghost predicate At(items: seq<Item>, base: nat, nodes: seq<Node>) {
    base + Width(nodes) <= |items| && items[base..base + Width(nodes)] == Flat(nodes, base)
  }

  lemma AtFirst(items: seq<Item>, base: nat, nodes: seq<Node>)
    requires At(items, base, nodes) && nodes != []
    ensures var w := WidthNode(nodes[0]);
      && base + w <= |items| && items[base..base + w] == FlatNode(nodes[0], base)
      && At(items, base + w, nodes[1..])
  {
    hide FlatNode, WidthNode;
    var w := WidthNode(nodes[0]);
    var all := items[base..base + Width(nodes)];
    assert all[..w] == FlatNode(nodes[0], base) && all[w..] == Flat(nodes[1..], base + w);
    assert items[base..base + w] == all[..w];
    assert items[base + w..base + w + Width(nodes[1..])] == all[w..];
  }

  lemma AtSection(items: seq<Item>, base: nat, isEach: bool, tag: string, variable: Var, body: seq<Node>)
    requires var w := 1 + Width(body);
      base + w <= |items| && items[base..base + w] == FlatNode(Section(isEach, tag, variable, body), base)
    ensures items[base] == Start(isEach, variable, base + 1 + Width(body)) && At(items, base + 1, body)
  {
    var slice := items[base..base + 1 + Width(body)];
    assert items[base] == slice[0];
    assert items[base + 1..base + 1 + Width(body)] == slice[1..];
  }

  lemma {:induction false} RunIsTree(items: seq<Item>, base: nat, nodes: seq<Node>, vars: Variables)
    requires Nested(items, 0) && At(items, base, nodes)
    ensures Run(items, base, vars) == EvalNodes(nodes, vars) + Run(items, base + Width(nodes), vars)
    decreases nodes, 0
  {
    hide Nested, Run, Flat, FlatNode, EvalNode;
    if nodes == [] {
      assert "" + Run(items, base, vars) == Run(items, base, vars);
    } else {
      var w := WidthNode(nodes[0]);
      AtFirst(items, base, nodes);
      RunNodeIsTree(items, base, nodes[0], vars);
      RunIsTree(items, base + w, nodes[1..], vars);
      Prints(EvalNode(nodes[0], vars), EvalNodes(nodes[1..], vars), Run(items, base + Width(nodes), vars));
    }
  }

  lemma {:induction false} RunNodeIsTree(items: seq<Item>, base: nat, node: Node, vars: Variables)
    requires Nested(items, 0) && base + WidthNode(node) <= |items|
    requires items[base..base + WidthNode(node)] == FlatNode(node, base)
    ensures Run(items, base, vars) == EvalNode(node, vars) + Run(items, base + WidthNode(node), vars)
    decreases node, 1
  {
    match node
    case Section(isEach, tag, variable, body) =>
      RunSectionIsTree(items, base, isEach, tag, variable, body, vars);
    case Stray(_, _) =>
      assert "" + Run(items, base, vars) == Run(items, base, vars);
    case _ =>
      assert items[base] == items[base..base + 1][0];
  }

  lemma BodyOf(items: seq<Item>, i: nat)
    requires Nested(items, 0) && i < |items|
    ensures IsBlock(items[i]) ==> i < items[i].blockEnd <= |items| && Body(items, i + 1, items[i].blockEnd)
  {
  }

  lemma RunAtIf(items: seq<Item>, i: nat, vars: Variables)
    requires Nested(items, 0) && i < |items| && items[i].If?
    ensures var next := if items[i].variable in vars then i + 1 else items[i].blockEnd;
      next <= |items| && Run(items, i, vars) == Run(items, next, vars)
  {
  }

  lemma RunAtEach(items: seq<Item>, i: nat, vars: Variables)
    requires Nested(items, 0) && i < |items| && items[i].ForEach?
    requires var end := items[i].blockEnd; Body(items, i + 1, end)
    ensures var (name, end) := (items[i].variable, items[i].blockEnd);
      Run(items, i, vars) ==
        (if name in vars && vars[name].Block? then RunEntries(items, i + 1, end, vars[name].entries) else "")
        + Run(items, end, vars)
  {
    hide RunEntries;
  }

  lemma {:induction false} RunIfIsTree(items: seq<Item>, base: nat, tag: string, variable: Var, body: seq<Node>,
                                       vars: Variables)
    requires Nested(items, 0) && At(items, base + 1, body)
    requires items[base] == If(variable, base + 1 + Width(body))
    ensures Run(items, base, vars)
         == EvalNode(Section(false, tag, variable, body), vars) + Run(items, base + 1 + Width(body), vars)
    decreases body, 1
  {
    hide EvalNodes, Flat, Nested, Run;
    var end := base + 1 + Width(body);
    RunAtIf(items, base, vars);
    if variable in vars {
      RunIsTree(items, base + 1, body, vars);
    } else {
      assert "" + Run(items, end, vars) == Run(items, end, vars);
    }
  }

  lemma RunEachIsTree(items: seq<Item>, base: nat, tag: string, variable: Var, body: seq<Node>, vars: Variables)
    requires Nested(items, 0) && At(items, base + 1, body)
    requires items[base] == ForEach(variable, base + 1 + Width(body))
    ensures Run(items, base, vars)
         == EvalNode(Section(true, tag, variable, body), vars) + Run(items, base + 1 + Width(body), vars)
  {
    hide Flat, Nested, Run, RunEntries, EachEntry;
    BodyOf(items, base);
    RunAtEach(items, base, vars);
    if variable in vars && vars[variable].Block? {
      RunEntriesIsTree(items, base + 1, base + 1 + Width(body), body, vars[variable].entries);
    }
  }

  lemma {:induction false} RunSectionIsTree(items: seq<Item>, base: nat, isEach: bool, tag: string, variable: Var,
                                            body: seq<Node>, vars: Variables)
    requires var w := 1 + Width(body);
      && Nested(items, 0) && base + w <= |items|
      && items[base..base + w] == FlatNode(Section(isEach, tag, variable, body), base)
    ensures Run(items, base, vars)
         == EvalNode(Section(isEach, tag, variable, body), vars) + Run(items, base + 1 + Width(body), vars)
    decreases body, 2
  {
    hide Nested, Run, Flat, FlatNode, EvalNode;
    AtSection(items, base, isEach, tag, variable, body);
    if isEach {
      RunEachIsTree(items, base, tag, variable, body, vars);
    } else {
      RunIfIsTree(items, base, tag, variable, body, vars);
    }
  }

  lemma {:induction false} RunEntriesIsTree(items: seq<Item>, base: nat, end: nat, body: seq<Node>, entries: seq<Entry>)
    requires Body(items, base, end) && At(items, base, body) && end == base + Width(body)
    ensures RunEntries(items, base, end, entries) == EachEntry(body, entries)
    decreases |entries|
  {
    hide Body, At, EntryNodes;
    if entries != [] {
      RunEntryIsTree(items, base, end, body, entries[0]);
      assert EntryNodes(body, entries[0]) + "" == EntryNodes(body, entries[0]);
      RunEntriesIsTree(items, base, end, body, entries[1..]);
    }
  }

  lemma {:induction false} RunEntryIsTree(items: seq<Item>, base: nat, end: nat, nodes: seq<Node>, entry: Entry)
    requires Body(items, base, end) && At(items, base, nodes) && base + Width(nodes) <= end
    ensures Body(items, base + Width(nodes), end)
    ensures RunEntry(items, base, end, entry) == EntryNodes(nodes, entry) + RunEntry(items, base + Width(nodes), end, entry)
    decreases nodes, 0
  {
    hide RunEntry, Flat, FlatNode, At, EntryNode;
    if nodes == [] {
      assert "" + RunEntry(items, base, end, entry) == RunEntry(items, base, end, entry);
    } else {
      var w := WidthNode(nodes[0]);
      AtFirst(items, base, nodes);
      RunEntryNodeIsTree(items, base, end, nodes[0], entry);
      RunEntryIsTree(items, base + w, end, nodes[1..], entry);
      Prints(EntryNode(nodes[0], entry), EntryNodes(nodes[1..], entry), RunEntry(items, base + Width(nodes), end, entry));
    }
  }

  lemma {:induction false} RunEntryNodeIsTree(items: seq<Item>, base: nat, end: nat, node: Node, entry: Entry)
    requires Body(items, base, end) && base + WidthNode(node) <= end
    requires items[base..base + WidthNode(node)] == FlatNode(node, base)
    ensures RunEntry(items, base, end, entry) == EntryNode(node, entry) + RunEntry(items, base + WidthNode(node), end, entry)
    decreases node, 1
  {
    match node
    case Section(isEach, tag, variable, body) =>
      RunEntrySectionIsTree(items, base, end, isEach, tag, variable, body, entry);
    case Stray(_, _) =>
      assert "" + RunEntry(items, base, end, entry) == RunEntry(items, base, end, entry);
    case _ =>
      assert items[base] == items[base..base + 1][0];
  }

  lemma EntryAtBlock(items: seq<Item>, i: nat, end: nat, entry: Entry)
    requires Body(items, i, end) && i < end && IsBlock(items[i])
    ensures var next := if items[i].ForEach? || items[i].variable in entry then i + 1 else items[i].blockEnd;
      Body(items, next, end) && RunEntry(items, i, end, entry) == RunEntry(items, next, end, entry)
  {
  }

  lemma {:induction false} RunEntrySectionIsTree(items: seq<Item>, base: nat, end: nat, isEach: bool, tag: string,
                                                 variable: Var, body: seq<Node>, entry: Entry)
    requires var to := base + 1 + Width(body);
      && Body(items, base, end) && to <= end
      && items[base..to] == FlatNode(Section(isEach, tag, variable, body), base)
    ensures Body(items, base + 1 + Width(body), end)
    ensures RunEntry(items, base, end, entry)
         == EntryNode(Section(isEach, tag, variable, body), entry) + RunEntry(items, base + 1 + Width(body), end, entry)
    decreases body, 2
  {
    hide Flat, FlatNode, EntryNodes, RunEntry, Body, EntryNode;
    BodyTail(items, base, base + 1 + Width(body), end);
    AtSection(items, base, isEach, tag, variable, body);
    EntryBlockIsTree(items, base, end, isEach, tag, variable, body, entry);
  }

  lemma {:induction false} EntryBlockIsTree(items: seq<Item>, base: nat, end: nat, isEach: bool, tag: string,
                                            variable: Var, body: seq<Node>, entry: Entry)
    requires Body(items, base, end) && base + 1 + Width(body) <= end && At(items, base + 1, body)
    requires base < |items| && items[base] == Start(isEach, variable, base + 1 + Width(body))
    requires Body(items, base + 1 + Width(body), end)
    ensures RunEntry(items, base, end, entry)
         == EntryNode(Section(isEach, tag, variable, body), entry) + RunEntry(items, base + 1 + Width(body), end, entry)
    decreases body, 1
  {
    hide At, EntryNodes, EntryNode, RunEntry, Body, Width, WidthNode;
    var to := base + 1 + Width(body);
    BodyTail(items, base, base + 1, end);
    EntryAtBlock(items, base, end, entry);
    EntrySection(isEach, tag, variable, body, entry);
    if isEach || variable in entry {
      RunEntryIsTree(items, base + 1, end, body, entry);
    } else {
      assert "" + RunEntry(items, to, end, entry) == RunEntry(items, to, end, entry);
    }
  }

  lemma EntrySection(isEach: bool, tag: string, variable: Var, body: seq<Node>, entry: Entry)
    ensures EntryNode(Section(isEach, tag, variable, body), entry)
         == if isEach || variable in entry then EntryNodes(body, entry) else ""
  {
    hide EntryNodes;
  }

  lemma BodyTail(items: seq<Item>, from: nat, to: nat, end: nat)
    requires Body(items, from, end) && from <= to <= end
    ensures Body(items, to, end) && end <= |items|
  {
  }

  /** Evaluating a tree's flat instructions never leaves them, and prints what the tree says. */
  lemma FlatMeansTree(forest: seq<Node>, vars: Variables)
    ensures Nested(Flat(forest, 0), 0) && Run(Flat(forest, 0), 0, vars) == EvalNodes(forest, vars)
  {
    var items := Flat(forest, 0);
    FlatIsNested(forest, 0);
    assert items[0..Width(forest)] == items;
    RunIsTree(items, 0, forest, vars);
    assert EvalNodes(forest, vars) + "" == EvalNodes(forest, vars);
  }

  /** Parsing and evaluating, as callers do: the output is that of the block tree the text stands for. */
  method Render(lang: Lang, text: string, vars: Variables) returns (r: Option<string>)
    ensures r.Some? <==> exists forest :: Means(lang, text, forest)
    ensures forall forest :: Means(lang, text, forest) ==> r == Some(EvalNodes(forest, vars))
  {
    var template := Parse(lang, text);
    ParsedIsTree(lang, text);
    if template.None? {
      return None;
    }
    ghost var forest :| Means(lang, text, forest);
    FlatMeansTree(forest, vars);
    forall other | Means(lang, text, other) ensures EvalNodes(other, vars) == EvalNodes(forest, vars) {
      FlatMeansTree(other, vars);
    }
    var result := Eval(template.value, vars);
    return Some(result);
  }
}
