/** Writing templates: the text of any properly nested tree, printed as an author would, is read back as that tree. */
module TemplateText {
  import opened Wrappers
  import opened Template
  import opened TemplateTree
  import opened TemplateEval

  /** What an author writes; a name is the text that `T::from_str` reads. */
  datatype Piece =
    | Words(text: string)
    | Value(name: string, escape: bool)
    | Begin(isEach: bool, name: string)
    | End(isEach: bool, name: string)

  function Keyword(isEach: bool): string { if isEach then "each " else "if " }

  function Content(p: Piece): string
    requires !p.Words?
  {
    match p
    case Value(name, escape) => (if escape then "" else "!") + name
    case Begin(isEach, name) => "#" + (Keyword(isEach) + name)
    case End(isEach, name) => "/" + (Keyword(isEach) + name)
  }

  function Print(ps: seq<Piece>): string {
    if ps == [] then ""
    else if ps[0].Words? then ps[0].text + Print(ps[1..])
    else "{{" + (Content(ps[0]) + "}}" + Print(ps[1..]))
  }

  /** No doubled `c`, and none at the end that a following one could double. */
  predicate Apart(s: string, c: char) {
    (forall i :: 0 <= i < |s| - 1 ==> !(s[i] == c && s[i + 1] == c)) && (s != "" ==> s[|s| - 1] != c)
  }

  predicate NoSpaceAround(lang: Lang, s: string) {
    s != "" && !lang.isSpace(s[0]) && !lang.isSpace(s[|s| - 1])
  }

  /** The characters of the syntax are not white space. */
  predicate Plain(lang: Lang) {
    !lang.isSpace('#') && !lang.isSpace('/') && !lang.isSpace('!') && !lang.isSpace('e') && !lang.isSpace('i')
  }

  predicate NameOk(lang: Lang, name: string) {
    Apart(name, '}') && NoSpaceAround(lang, name)
  }

  predicate PieceOk(lang: Lang, p: Piece) {
    match p
    case Words(text) => text != "" && Apart(text, '{')
    case Value(name, escape) =>
      NameOk(lang, name) && lang.fromStr(name).Some? && (escape ==> name[0] != '#' && name[0] != '/' && name[0] != '!')
    case Begin(_, name) => NameOk(lang, name) && lang.fromStr(name).Some?
    case End(_, name) => NameOk(lang, name)
  }

  /** Two stretches of text in a row would be one. */
  predicate Writable(lang: Lang, ps: seq<Piece>) {
    ps == [] ||
    (PieceOk(lang, ps[0]) && (ps[0].Words? && |ps| > 1 ==> !ps[1].Words?) && Writable(lang, ps[1..]))
  }

  function Meaning(lang: Lang, p: Piece): Directive
    requires PieceOk(lang, p)
  {
    match p
    case Words(text) => Text(text)
    case Value(name, escape) => Put(lang.fromStr(name).value, escape)
    case Begin(isEach, name) => Open(isEach, name, lang.fromStr(name).value)
    case End(isEach, name) => Close(isEach, name)
  }

  function Meanings(lang: Lang, ps: seq<Piece>): seq<Directive>
    requires Writable(lang, ps)
  {
    if ps == [] then [] else [Meaning(lang, ps[0])] + Meanings(lang, ps[1..])
  }

  // ---------------------------------------------------------------- splitting

  lemma SplitsHere(c: char, rest: string)
    ensures SplitOnce("" + ([c, c] + rest), c) == Some(("", rest))
  {
    var all := "" + ([c, c] + rest);
    assert all == [c, c] + rest && all[2..] == rest;
  }

  lemma SplitsLater(s: string, c: char)
    requires |s| >= 2 && !(s[0] == c && s[1] == c) && SplitOnce(s[1..], c).Some?
    ensures SplitOnce(s, c) == Some(([s[0]] + SplitOnce(s[1..], c).value.0, SplitOnce(s[1..], c).value.1))
  {
  }

  lemma {:induction false} SplitsAt(s: string, c: char, rest: string)
    requires Apart(s, c)
    ensures SplitOnce(s + ([c, c] + rest), c) == Some((s, rest))
    decreases |s|
  {
    hide SplitOnce;
    var all := s + ([c, c] + rest);
    if s == "" {
      SplitsHere(c, rest);
    } else {
      SplitsAt(s[1..], c, rest);
      assert all[1..] == s[1..] + ([c, c] + rest);
      assert s == [s[0]] + s[1..];
      SplitsLater(all, c);
    }
  }

  lemma {:induction false} NeverSplits(s: string, c: char)
    requires Apart(s, c)
    ensures SplitOnce(s, c) == None
    decreases |s|
  {
    if |s| >= 2 {
      NeverSplits(s[1..], c);
    }
  }

  lemma NothingTrimmed(lang: Lang, s: string)
    requires NoSpaceAround(lang, s)
    ensures Trim(lang, s) == s
  {
  }

  // ------------------------------------------------------------ between braces

  lemma NameRead(isEach: bool, name: string)
    ensures BlockName(Keyword(isEach) + name) == Some((isEach, name))
  {
    var s := Keyword(isEach) + name;
    if isEach {
      assert s[..5] == "each " && s[5..] == name;
    } else {
      assert s[..3] == "if " && s[3..] == name && s[0] == 'i';
    }
  }

  lemma PrefixRead(mark: char, s: string)
    ensures StripPrefix([mark] + s, [mark]) == Some(s)
  {
    assert ([mark] + s)[1..] == s;
  }

  lemma OtherPrefix(mark: char, s: string)
    requires s != "" && s[0] != mark
    ensures StripPrefix(s, [mark]) == None
  {
  }

  lemma KeywordRead(lang: Lang, isEach: bool, name: string)
    requires Plain(lang) && NameOk(lang, name)
    ensures var s := Keyword(isEach) + name;
      NoSpaceAround(lang, s) && Apart(s, '}') && Trim(lang, s) == s && BlockName(Trim(lang, s)) == Some((isEach, name))
  {
    var s := Keyword(isEach) + name;
    Joined(Keyword(isEach), name, '}');
    NothingTrimmed(lang, s);
    NameRead(isEach, name);
  }

  lemma Joined(a: string, b: string, c: char)
    requires c !in a && Apart(b, c)
    ensures Apart(a + b, c)
  {
  }

  lemma ContentRead(lang: Lang, p: Piece)
    requires Plain(lang) && PieceOk(lang, p) && !p.Words?
    ensures Apart(Content(p), '}') && Classify(lang, Content(p)) == Some(Meaning(lang, p))
  {
    hide Trim, BlockName, StripPrefix, Keyword;
    match p
    case Value(name, escape) => ValueRead(lang, name, escape);
    case Begin(isEach, name) =>
      var s := Keyword(isEach) + name;
      KeywordRead(lang, isEach, name);
      Joined("#", s, '}');
      NothingTrimmed(lang, "#" + s);
      PrefixRead('#', s);
    case End(isEach, name) =>
      var s := Keyword(isEach) + name;
      KeywordRead(lang, isEach, name);
      Joined("/", s, '}');
      NothingTrimmed(lang, "/" + s);
      PrefixRead('/', s);
      OtherPrefix('#', "/" + s);
  }

  lemma ValueRead(lang: Lang, name: string, escape: bool)
    requires Plain(lang) && PieceOk(lang, Value(name, escape))
    ensures var content := Content(Value(name, escape));
      Apart(content, '}') && Classify(lang, content) == Some(Put(lang.fromStr(name).value, escape))
  {
    hide Trim, BlockName, StripPrefix;
    var content := (if escape then "" else "!") + name;
    Joined(if escape then "" else "!", name, '}');
    NothingTrimmed(lang, content);
    OtherPrefix('#', content);
    OtherPrefix('/', content);
    if escape {
      assert content == name;
      OtherPrefix('!', name);
    } else {
      PrefixRead('!', name);
    }
  }

  // ------------------------------------------------------------------- reading

  lemma LexDirective(lang: Lang, start: string, p: Piece, rest: string)
    requires Plain(lang) && PieceOk(lang, p) && !p.Words? && Apart(start, '{')
    ensures Lex(lang, start + ("{{" + (Content(p) + "}}" + rest)))
      == match Lex(lang, rest) case None => None case Some(ds) => Some(Texts(start) + ([Meaning(lang, p)] + ds))
  {
    hide Classify, Content, SplitOnce;
    ContentRead(lang, p);
    SplitsAt(start, '{', Content(p) + "}}" + rest);
    SplitsAt(Content(p), '}', rest);
    assert Content(p) + "}}" + rest == Content(p) + (['}', '}'] + rest);
  }

  lemma {:induction false} LexPrint(lang: Lang, ps: seq<Piece>)
    requires Plain(lang) && Writable(lang, ps)
    ensures Lex(lang, Print(ps)) == Some(Meanings(lang, ps))
    decreases |ps|
  {
    hide Lex, Content, PieceOk;
    if ps == [] {
      LexText(lang, "");
    } else if !ps[0].Words? {
      LexPrint(lang, ps[1..]);
      LexDirective(lang, "", ps[0], Print(ps[1..]));
      assert "" + Print(ps) == Print(ps);
      assert Texts("") + Meanings(lang, ps) == Meanings(lang, ps);
    } else if |ps| == 1 {
      TextOk(lang, ps[0]);
      LexText(lang, ps[0].text);
      assert Print([]) == "" && Meanings(lang, []) == [];
      assert ps[1..] == [] && ps[0].text + "" == ps[0].text;
      assert Print(ps) == ps[0].text && Meanings(lang, ps) == [Text(ps[0].text)];
    } else {
      var p, more := ps[1], ps[2..];
      assert ps[1..][1..] == more && ps[1..][0] == p;
      LexPrint(lang, more);
      TextOk(lang, ps[0]);
      LexDirective(lang, ps[0].text, p, Print(more));
    }
  }

  lemma TextOk(lang: Lang, p: Piece)
    requires p.Words? && PieceOk(lang, p)
    ensures p.text != "" && Apart(p.text, '{')
  {
  }

  lemma LexText(lang: Lang, text: string)
    requires Apart(text, '{')
    ensures Lex(lang, text) == Some(Texts(text))
  {
    NeverSplits(text, '{');
  }

  /** A tree that is written out is accepted, and rendering the text prints what the tree says. */
  method RenderWritten(lang: Lang, ps: seq<Piece>, vars: Variables, ghost forest: seq<Node>) returns (r: Option<string>)
    requires Plain(lang) && Writable(lang, ps) && Proper(forest, true) && Linear(forest) == Meanings(lang, ps)
    ensures r == Some(EvalNodes(forest, vars))
  {
    LexPrint(lang, ps);
    r := Render(lang, Print(ps), vars);
    assert Means(lang, Print(ps), forest);
  }
}
