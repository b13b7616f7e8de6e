/** What escaping does: a reader of HTML gets back the value, and no value can bring markup into a page. */
module TemplateEscape {
  import opened Wrappers
  import opened Template
  import opened TemplateTree
  import opened TemplateEval
  import opened TemplateText

  // ------------------------------------------------------------ reading HTML

  predicate Begins(s: string, prefix: string) { |prefix| <= |s| && s[..|prefix|] == prefix }

  /** The entity that a text begins with: the character it stands for, and its length. */
  function Entity(s: string): Option<(char, nat)> {
    if Begins(s, "&amp;") then Some(('&', 5))
    else if Begins(s, "&lt;") then Some(('<', 4))
    else if Begins(s, "&gt;") then Some(('>', 4))
    else if Begins(s, "&quot;") then Some(('"', 6))
    else if Begins(s, "&#39;") then Some(('\'', 5))
    else None
  }

  function Unescape(s: string): string
    decreases |s|
  {
    if s == "" then ""
    else match Entity(s)
      case Some((c, n)) => [c] + Unescape(s[n..])
      case None => [s[0]] + Unescape(s[1..])
  }

  /** The characters of markup, other than the ampersand. */
  predicate Markup(c: char) { c == '<' || c == '>' || c == '"' || c == '\'' }

  /** Plain text to a reader of HTML: no markup, and every ampersand begins an entity. */
  predicate Harmless(s: string)
    decreases |s|
  {
    s == "" ||
    match Entity(s)
    case Some((_, n)) => Harmless(s[n..])
    case None => !Markup(s[0]) && s[0] != '&' && Harmless(s[1..])
  }

  predicate NoMarkup(s: string) { forall i :: 0 <= i < |s| ==> !Markup(s[i]) }

  lemma EntityRead(entity: string, c: char, rest: string)
    requires (c, entity) == ('&', "&amp;") || (c, entity) == ('<', "&lt;") || (c, entity) == ('>', "&gt;")
             || (c, entity) == ('"', "&quot;") || (c, entity) == ('\'', "&#39;")
    ensures Entity(entity + rest) == Some((c, |entity|)) && (entity + rest)[|entity|..] == rest && NoMarkup(entity)
  {
    var s := entity + rest;
    assert s[..|entity|] == entity && s[1] == entity[1];
    assert c == '>' || c == '<' ==> s[2] == 't';
    assert Begins(s, "&amp;") ==> s[1] == "&amp;"[1];
    assert Begins(s, "&lt;") ==> s[1] == "&lt;"[1];
    assert Begins(s, "&gt;") ==> s[1] == "&gt;"[1];
    assert Begins(s, "&quot;") ==> s[1] == "&quot;"[1];
  }

  lemma NoEntity(c: char, rest: string)
    requires c != '&'
    ensures Entity([c] + rest) == None
  {
    var s := [c] + rest;
    assert s[0] == c;
  }

  /** An escaped text is harmless, and reads as the text. */
  lemma {:induction false} EscapedReads(text: string)
    ensures Harmless(EscapeHtml(text)) && Unescape(EscapeHtml(text)) == text && NoMarkup(EscapeHtml(text))
  {
    if text != "" {
      var c, rest := text[0], EscapeHtml(text[1..]);
      EscapedReads(text[1..]);
      hide Entity;
      assert text == [c] + text[1..];
      match c
      case '&' => EntityRead("&amp;", c, rest);
      case '<' => EntityRead("&lt;", c, rest);
      case '>' => EntityRead("&gt;", c, rest);
      case '"' => EntityRead("&quot;", c, rest);
      case '\'' => EntityRead("&#39;", c, rest);
      case _ =>
        NoEntity(c, rest);
        assert ([c] + rest)[1..] == rest;
    }
  }

  // ---------------------------------------------------------------- one value

  /** What is printed for a value: the value itself, or a harmless text that reads as it. */
  predicate Displays(out: string, text: string, escape: bool) {
    if escape then Harmless(out) && NoMarkup(out) && Unescape(out) == text else out == text
  }

  lemma ShownDisplays(text: string, escape: bool)
    ensures Displays(Shown(text, escape), text, escape)
  {
    EscapedReads(text);
  }

  /** `{{name}}` prints the value escaped, `{{!name}}` as it is, and neither prints anything without one. */
  method RenderValue(lang: Lang, name: string, escape: bool, vars: Variables) returns (r: Option<string>)
    requires Plain(lang) && PieceOk(lang, Value(name, escape))
    ensures var variable := lang.fromStr(name).value;
      r.Some? &&
      if variable in vars && vars[variable].Single? then Displays(r.value, vars[variable].text, escape) else r.value == ""
  {
    hide Plain, PieceOk, Harmless, NoMarkup, Unescape, EscapeHtml;
    var variable := NameOf(lang, name, escape);
    ghost var forest := [Show(variable, escape)];
    OneValue(lang, name, escape, vars);
    r := RenderWritten(lang, [Value(name, escape)], vars, forest);
    if variable in vars && vars[variable].Single? {
      ShownDisplays(vars[variable].text, escape);
    }
  }

  function NameOf(lang: Lang, name: string, escape: bool): Var
    requires PieceOk(lang, Value(name, escape))
  {
    lang.fromStr(name).value
  }

  lemma OneValue(lang: Lang, name: string, escape: bool, vars: Variables)
    requires PieceOk(lang, Value(name, escape))
    ensures var forest := [Show(lang.fromStr(name).value, escape)];
      var ps := [Value(name, escape)];
      && Writable(lang, ps) && Proper(forest, true) && Linear(forest) == Meanings(lang, ps)
      && EvalNodes(forest, vars) == ShowSingle(vars, lang.fromStr(name).value, escape)
  {
    var forest, ps := [Show(lang.fromStr(name).value, escape)], [Value(name, escape)];
    assert ps[1..] == [] && forest[1..] == [];
  }

  // ------------------------------------------------------------- whole pages

  /** Every variable of a tree is escaped, and its own text has no markup. */
  predicate Guarded(nodes: seq<Node>)
    decreases nodes, 0
  {
    nodes == [] || (GuardedNode(nodes[0]) && Guarded(nodes[1..]))
  }

  predicate GuardedNode(node: Node)
    decreases node, 1
  {
    match node
    case Txt(text) => NoMarkup(text)
    case Show(_, escape) => escape
    case Section(_, _, _, body) => Guarded(body)
    case Stray(_, _) => true
  }

  lemma {:induction false} EntryGuarded(nodes: seq<Node>, entry: Entry)
    requires Guarded(nodes)
    ensures NoMarkup(EntryNodes(nodes, entry))
    decreases nodes, 0
  {
    if nodes != [] {
      EntryNodeGuarded(nodes[0], entry);
      EntryGuarded(nodes[1..], entry);
    }
  }

  lemma {:induction false} EntryNodeGuarded(node: Node, entry: Entry)
    requires GuardedNode(node)
    ensures NoMarkup(EntryNode(node, entry))
    decreases node, 1
  {
    match node
    case Show(name, _) =>
      if name in entry {
        EscapedReads(entry[name]);
      }
    case Section(_, _, _, body) => EntryGuarded(body, entry);
    case _ =>
  }

  lemma {:induction false} EachGuarded(nodes: seq<Node>, entries: seq<Entry>)
    requires Guarded(nodes)
    ensures NoMarkup(EachEntry(nodes, entries))
  {
    if entries != [] {
      EntryGuarded(nodes, entries[0]);
      EachGuarded(nodes, entries[1..]);
    }
  }

  /** Whatever the values are, they bring no markup into what a tree prints. */
  lemma {:induction false} NothingInjected(nodes: seq<Node>, vars: Variables)
    requires Guarded(nodes)
    ensures NoMarkup(EvalNodes(nodes, vars))
    decreases nodes, 0
  {
    if nodes != [] {
      NodeInjectsNothing(nodes[0], vars);
      NothingInjected(nodes[1..], vars);
    }
  }

  lemma {:induction false} NodeInjectsNothing(node: Node, vars: Variables)
    requires GuardedNode(node)
    ensures NoMarkup(EvalNode(node, vars))
    decreases node, 1
  {
    match node
    case Show(name, _) =>
      if name in vars && vars[name].Single? {
        EscapedReads(vars[name].text);
      }
    case Section(isEach, _, variable, body) =>
      NothingInjected(body, vars);
      if isEach && variable in vars && vars[variable].Block? {
        EachGuarded(body, vars[variable].entries);
      }
    case _ =>
  }
}
