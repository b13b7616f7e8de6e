/** WebDAV dead properties (types/src/dead_property.rs): elements kept as one flat stream of tags, which is searched and
    edited by counting depths. */
module DeadProperties {
  import opened Utf8
  import opened Wrappers

  datatype DeadElementTag = DeadElementTag(name: string, attrs: Option<string>)

  datatype Tag = ElementStart(element: DeadElementTag) | ElementEnd | Text(text: string)

  /** What a stream stands for: elements and text, each followed by its next sibling. */
  datatype Forest =
    | Empty
    | Element(element: DeadElementTag, inner: Forest, next: Forest)
    | Chars(text: string, next: Forest)

  function Flatten(f: Forest): seq<Tag> {
    match f
    case Empty => []
    case Element(e, inner, next) => [ElementStart(e)] + Flatten(inner) + [ElementEnd] + Flatten(next)
    case Chars(t, next) => [Text(t)] + Flatten(next)
  }

  /** Every end closes a start, and `depth` more starts are closed than opened. */
  predicate Closes(tags: seq<Tag>, depth: nat)
    decreases |tags|
  {
    if tags == [] then depth == 0
    else match tags[0]
      case ElementStart(_) => Closes(tags[1..], depth + 1)
      case ElementEnd => depth > 0 && Closes(tags[1..], depth - 1)
      case Text(_) => Closes(tags[1..], depth)
  }

  predicate Balanced(tags: seq<Tag>) { Closes(tags, 0) }

  // --------------------------------------------------------- streams and forests

  /** The forest at the front of a stream, and what follows it: nothing, or the end of the element around it. */
  function Front(tags: seq<Tag>, depth: nat): (r: (Forest, seq<Tag>))
    requires Closes(tags, depth)
    ensures Flatten(r.0) + r.1 == tags
    ensures if depth == 0 then r.1 == [] else r.1 != [] && r.1[0] == ElementEnd && Closes(r.1[1..], depth - 1)
    decreases |tags|
  {
    if tags == [] then (Empty, [])
    else match tags[0]
      case ElementStart(e) =>
        var (inner, after) := Front(tags[1..], depth + 1);
        Lengths(inner, after, tags[1..]);
        var (next, rest) := Front(after[1..], depth);
        ElementAround(e, inner, next, rest, tags, after);
        (Element(e, inner, next), rest)
      case ElementEnd => (Empty, tags)
      case Text(t) =>
        var (next, rest) := Front(tags[1..], depth);
        TextBefore(t, next, rest, tags);
        (Chars(t, next), rest)
  }

  lemma Lengths(f: Forest, rest: seq<Tag>, tags: seq<Tag>)
    requires Flatten(f) + rest == tags
    ensures |rest| <= |tags|
  {
  }

  lemma ElementAround(e: DeadElementTag, inner: Forest, next: Forest, rest: seq<Tag>, tags: seq<Tag>, after: seq<Tag>)
    requires tags != [] && tags[0] == ElementStart(e) && after != [] && after[0] == ElementEnd
    requires Flatten(inner) + after == tags[1..] && Flatten(next) + rest == after[1..]
    ensures Flatten(Element(e, inner, next)) + rest == tags
  {
    ElementThen(e, inner, next, rest);
    hide Flatten;
    assert after == [ElementEnd] + after[1..] && tags == [ElementStart(e)] + tags[1..];
  }

  lemma ElementThen(e: DeadElementTag, inner: Forest, next: Forest, rest: seq<Tag>)
    ensures Flatten(Element(e, inner, next)) + rest
         == [ElementStart(e)] + (Flatten(inner) + ([ElementEnd] + (Flatten(next) + rest)))
  {
  }

  lemma TextBefore(t: string, next: Forest, rest: seq<Tag>, tags: seq<Tag>)
    requires tags != [] && tags[0] == Text(t) && Flatten(next) + rest == tags[1..]
    ensures Flatten(Chars(t, next)) + rest == tags
  {
    TextThen(t, next, rest);
    assert tags == [Text(t)] + tags[1..];
  }

  lemma TextThen(t: string, next: Forest, rest: seq<Tag>)
    ensures Flatten(Chars(t, next)) + rest == [Text(t)] + (Flatten(next) + rest)
  {
  }

  function Tree(tags: seq<Tag>): (f: Forest)
    requires Balanced(tags)
    ensures Flatten(f) == tags
  {
    var (f, rest) := Front(tags, 0);
    assert Flatten(f) + [] == Flatten(f);
    f
  }

  lemma First(tag: Tag, rest: seq<Tag>)
    ensures ([tag] + rest)[0] == tag && ([tag] + rest)[1..] == rest
  {
  }

  lemma {:induction false} ClosesThrough(f: Forest, rest: seq<Tag>, depth: nat)
    ensures Closes(Flatten(f) + rest, depth) == Closes(rest, depth)
  {
    match f
    case Empty => assert [] + rest == rest;
    case Chars(t, next) =>
      TextThen(t, next, rest);
      hide Flatten;
      First(Text(t), Flatten(next) + rest);
      ClosesThrough(next, rest, depth);
    case Element(e, inner, next) =>
      ElementThen(e, inner, next, rest);
      hide Flatten;
      var after := [ElementEnd] + (Flatten(next) + rest);
      First(ElementStart(e), Flatten(inner) + after);
      First(ElementEnd, Flatten(next) + rest);
      ClosesThrough(inner, after, depth + 1);
      ClosesThrough(next, rest, depth);
  }

  lemma {:induction false} FrontOfFlatten(f: Forest, rest: seq<Tag>, depth: nat)
    requires Closes(Flatten(f) + rest, depth) && (rest == [] || rest[0] == ElementEnd)
    ensures Front(Flatten(f) + rest, depth) == (f, rest)
  {
    match f
    case Empty => assert [] + rest == rest;
    case Chars(t, next) =>
      TextThen(t, next, rest);
      hide Flatten;
      First(Text(t), Flatten(next) + rest);
      FrontOfFlatten(next, rest, depth);
    case Element(e, inner, next) =>
      ElementThen(e, inner, next, rest);
      hide Flatten;
      var after := [ElementEnd] + (Flatten(next) + rest);
      First(ElementStart(e), Flatten(inner) + after);
      First(ElementEnd, Flatten(next) + rest);
      ClosesThrough(inner, after, depth + 1);
      FrontOfFlatten(inner, after, depth + 1);
      FrontOfFlatten(next, rest, depth);
  }

  /** Balanced streams are exactly the flattened forests, and each stands for one forest only. */
  lemma StreamIsForest(f: Forest)
    ensures Balanced(Flatten(f)) && Tree(Flatten(f)) == f
  {
    assert Flatten(f) + [] == Flatten(f);
    ClosesThrough(f, [], 0);
    FrontOfFlatten(f, [], 0);
  }

  // ------------------------------------------------------------ what is meant

  /** The forest without the top-level elements of a name. */
  function Without(f: Forest, name: string): Forest {
    match f
    case Empty => Empty
    case Chars(t, next) => Chars(t, Without(next, name))
    case Element(e, inner, next) =>
      if e.name == name then Without(next, name) else Element(e, inner, Without(next, name))
  }

  /** The content of the first top-level element of a name. */
  function Content(f: Forest, name: string): Option<Forest> {
    match f
    case Empty => None
    case Chars(_, next) => Content(next, name)
    case Element(e, inner, next) => if e.name == name then Some(inner) else Content(next, name)
  }

  function Append(f: Forest, g: Forest): Forest {
    match f
    case Empty => g
    case Chars(t, next) => Chars(t, Append(next, g))
    case Element(e, inner, next) => Element(e, inner, Append(next, g))
  }

  function Flattened(f: Option<Forest>): Option<seq<Tag>> {
    match f
    case None => None
    case Some(inner) => Some(Flatten(inner))
  }

  /** A replaced element is found with its new content; every other name finds what it found before. */
  lemma {:induction false} ReplaceInForest(f: Forest, e: DeadElementTag, content: Forest, name: string)
    ensures Content(Append(Without(f, e.name), Element(e, content, Empty)), name)
         == if name == e.name then Some(content) else Content(f, name)
  {
    match f
    case Empty =>
    case Chars(_, next) => ReplaceInForest(next, e, content, name);
    case Element(_, _, next) => ReplaceInForest(next, e, content, name);
  }

  // ----------------------------------------------- what the loops do, tag by tag

  /** `remove_element`, for one tag: whether it is retained, and the counts behind it. */
  function Decide(tag: Tag, depth: int, remove: bool, name: string): (bool, int, bool) {
    match tag
    case ElementStart(e) =>
      var gone := remove || (depth == 0 && e.name == name);
      (!gone, depth + 1, gone)
    case ElementEnd => (!remove, depth - 1, remove && depth != 1)
    case Text(_) => (!remove, depth, remove)
  }

  function Retained(tags: seq<Tag>, depth: int, remove: bool, name: string): seq<Tag>
    decreases |tags|
  {
    if tags == [] then []
    else
      var (keep, depth', remove') := Decide(tags[0], depth, remove, name);
      (if keep then [tags[0]] else []) + Retained(tags[1..], depth', remove', name)
  }

  lemma RetainedNothing(depth: int, remove: bool, name: string)
    ensures Retained([], depth, remove, name) == []
  {
  }

  lemma RetainedAt(tags: seq<Tag>, i: nat, kept: seq<Tag>, depth: int, remove: bool, name: string)
    requires i < |tags|
    ensures var (keep, depth', remove') := Decide(tags[i], depth, remove, name);
      kept + Retained(tags[i..], depth, remove, name)
      == (if keep then kept + [tags[i]] else kept) + Retained(tags[i + 1..], depth', remove', name)
  {
    assert tags[i..][1..] == tags[i + 1..];
  }

  function Up(depth: nat): nat { if depth == 0 then 0 else depth - 1 }

  /** `find_tag`, before and after the needle is found. */
  function Sought(tags: seq<Tag>, depth: nat, needle: string): Option<seq<Tag>>
    decreases |tags|
  {
    if tags == [] then None
    else match tags[0]
      case ElementStart(e) =>
        if depth == 0 && e.name == needle then Some(Collected(tags[1..], 1))
        else Sought(tags[1..], depth + 1, needle)
      case ElementEnd => Sought(tags[1..], Up(depth), needle)
      case Text(_) => Sought(tags[1..], depth, needle)
  }

  function Collected(tags: seq<Tag>, depth: nat): seq<Tag>
    decreases |tags|
  {
    if tags == [] then []
    else match tags[0]
      case ElementStart(_) => [tags[0]] + Collected(tags[1..], depth + 1)
      case ElementEnd => if depth == 1 then [] else [tags[0]] + Collected(tags[1..], Up(depth))
      case Text(_) => [tags[0]] + Collected(tags[1..], depth)
  }

  /** What the search will return. */
  function Searching(tags: seq<Tag>, depth: nat, collected: seq<Tag>, found: bool, needle: string): Option<seq<Tag>> {
    if found then Some(collected + Collected(tags, depth)) else Sought(tags, depth, needle)
  }

  lemma SearchingOn(tags: seq<Tag>, i: nat, depth: nat, collected: seq<Tag>, found: bool, needle: string)
    requires i < |tags| && (found ==> depth > 0) && (!found ==> collected == [])
    ensures var rest := tags[i + 1..];
      var more := if found then collected + [tags[i]] else collected;
      Searching(tags[i..], depth, collected, found, needle) ==
        match tags[i]
        case ElementStart(e) => Searching(rest, depth + 1, more, found || (depth == 0 && e.name == needle), needle)
        case ElementEnd => if found && depth == 1 then Some(collected) else Searching(rest, Up(depth), more, found, needle)
        case Text(_) => Searching(rest, depth, more, found, needle)
  {
    var rest := tags[i + 1..];
    assert tags[i..][1..] == rest && tags[i..][0] == tags[i];
    if found {
      CollectedOn(tags[i..], depth, collected);
    } else {
      assert forall s: seq<Tag> :: [] + s == s;
    }
  }

  lemma CollectedOn(tags: seq<Tag>, depth: nat, collected: seq<Tag>)
    requires tags != [] && depth > 0
    ensures var more := collected + [tags[0]];
      collected + Collected(tags, depth) ==
        match tags[0]
        case ElementStart(_) => more + Collected(tags[1..], depth + 1)
        case ElementEnd => if depth == 1 then collected else more + Collected(tags[1..], Up(depth))
        case Text(_) => more + Collected(tags[1..], depth)
  {
    var tail := Collected(tags[1..], match tags[0]
                                     case ElementStart(_) => depth + 1
                                     case ElementEnd => Up(depth)
                                     case Text(_) => depth);
    assert collected + ([tags[0]] + tail) == collected + [tags[0]] + tail && collected + [] == collected;
  }

  lemma SearchEnds(depth: nat, collected: seq<Tag>, found: bool, needle: string)
    ensures Searching([], depth, collected, found, needle) == if found then Some(collected) else None
  {
    assert collected + [] == collected;
  }

  lemma {:induction false} RetainedInside(f: Forest, rest: seq<Tag>, depth: nat, remove: bool, name: string)
    requires depth > 0
    ensures Retained(Flatten(f) + rest, depth, remove, name)
         == (if remove then [] else Flatten(f)) + Retained(rest, depth, remove, name)
  {
    match f
    case Empty => assert [] + rest == rest;
    case Chars(t, next) =>
      TextThen(t, next, rest);
      TextThen(t, next, Retained(rest, depth, remove, name));
      hide Flatten;
      First(Text(t), Flatten(next) + rest);
      RetainedInside(next, rest, depth, remove, name);
    case Element(e, inner, next) =>
      var after := [ElementEnd] + (Flatten(next) + rest);
      ElementThen(e, inner, next, rest);
      ElementThen(e, inner, next, Retained(rest, depth, remove, name));
      hide Flatten;
      First(ElementStart(e), Flatten(inner) + after);
      First(ElementEnd, Flatten(next) + rest);
      RetainedInside(inner, after, depth + 1, remove, name);
      RetainedInside(next, rest, depth, remove, name);
  }

  lemma {:induction false} RetainedIsWithout(f: Forest, name: string)
    ensures Retained(Flatten(f), 0, false, name) == Flatten(Without(f, name))
  {
    match f
    case Empty =>
    case Chars(t, next) =>
      First(Text(t), Flatten(next));
      RetainedIsWithout(next, name);
    case Element(e, inner, next) =>
      var after := [ElementEnd] + Flatten(next);
      assert Flatten(f) == [ElementStart(e)] + (Flatten(inner) + after);
      RetainedIsWithout(next, name);
      First(ElementStart(e), Flatten(inner) + after);
      First(ElementEnd, Flatten(next));
      RetainedInside(inner, after, 1, e.name == name, name);
      if e.name != name {
        assert Flatten(Without(f, name))
            == [ElementStart(e)] + (Flatten(inner) + ([ElementEnd] + Flatten(Without(next, name))));
      }
  }

  lemma {:induction false} SoughtInside(f: Forest, rest: seq<Tag>, depth: nat, needle: string)
    requires depth > 0
    ensures Sought(Flatten(f) + rest, depth, needle) == Sought(rest, depth, needle)
  {
    match f
    case Empty => assert [] + rest == rest;
    case Chars(t, next) =>
      TextThen(t, next, rest);
      hide Flatten;
      First(Text(t), Flatten(next) + rest);
      SoughtInside(next, rest, depth, needle);
    case Element(e, inner, next) =>
      ElementThen(e, inner, next, rest);
      hide Flatten;
      var after := [ElementEnd] + (Flatten(next) + rest);
      First(ElementStart(e), Flatten(inner) + after);
      First(ElementEnd, Flatten(next) + rest);
      SoughtInside(inner, after, depth + 1, needle);
      SoughtInside(next, rest, depth, needle);
  }

  lemma {:induction false} CollectedThrough(f: Forest, rest: seq<Tag>, depth: nat)
    requires depth > 0
    ensures Collected(Flatten(f) + rest, depth) == Flatten(f) + Collected(rest, depth)
  {
    match f
    case Empty => assert [] + rest == rest;
    case Chars(t, next) =>
      TextThen(t, next, rest);
      TextThen(t, next, Collected(rest, depth));
      hide Flatten;
      First(Text(t), Flatten(next) + rest);
      CollectedThrough(next, rest, depth);
    case Element(e, inner, next) =>
      ElementThen(e, inner, next, rest);
      ElementThen(e, inner, next, Collected(rest, depth));
      hide Flatten;
      var after := [ElementEnd] + (Flatten(next) + rest);
      First(ElementStart(e), Flatten(inner) + after);
      First(ElementEnd, Flatten(next) + rest);
      CollectedThrough(inner, after, depth + 1);
      CollectedThrough(next, rest, depth);
  }

  /** Looking in the stream is looking in the forest, and then in what follows it. */
  lemma {:induction false} SoughtIsContent(f: Forest, rest: seq<Tag>, needle: string)
    ensures Sought(Flatten(f) + rest, 0, needle)
         == if Content(f, needle).Some? then Flattened(Content(f, needle)) else Sought(rest, 0, needle)
  {
    match f
    case Empty => assert [] + rest == rest;
    case Chars(t, next) =>
      TextThen(t, next, rest);
      hide Flatten;
      First(Text(t), Flatten(next) + rest);
      SoughtIsContent(next, rest, needle);
    case Element(e, inner, next) =>
      ElementThen(e, inner, next, rest);
      hide Flatten;
      var after := [ElementEnd] + (Flatten(next) + rest);
      First(ElementStart(e), Flatten(inner) + after);
      First(ElementEnd, Flatten(next) + rest);
      if e.name == needle {
        CollectedThrough(inner, after, 1);
        assert Flatten(inner) + [] == Flatten(inner);
      } else {
        SoughtInside(inner, after, 1, needle);
        SoughtIsContent(next, rest, needle);
      }
  }

  /** Content comes back whole exactly when it closes what it opens, and nothing else. */
  lemma {:induction false} CollectedExactly(values: seq<Tag>, depth: nat)
    ensures Collected(values + [ElementEnd], depth + 1) == values <==> Closes(values, depth)
    decreases |values|
  {
    var more := values + [ElementEnd];
    if values == [] {
      assert more == [ElementEnd] && more[1..] == [];
    } else {
      assert values == [values[0]] + values[1..];
      assert more[1..] == values[1..] + [ElementEnd];
      match values[0]
      case ElementStart(_) => CollectedExactly(values[1..], depth + 1); SameTail(values, Collected(more[1..], depth + 2));
      case ElementEnd =>
        if depth > 0 {
          CollectedExactly(values[1..], depth - 1);
          SameTail(values, Collected(more[1..], depth));
        }
      case Text(_) => CollectedExactly(values[1..], depth); SameTail(values, Collected(more[1..], depth + 1));
    }
  }

  lemma SameTail(values: seq<Tag>, tail: seq<Tag>)
    requires values != []
    ensures [values[0]] + tail == values <==> tail == values[1..]
  {
    assert ([values[0]] + tail)[1..] == tail;
  }

  // ------------------------------------------------------------------ the object

  class DeadProperty {
    var tags: seq<Tag>

    constructor (tags: seq<Tag>)
      ensures this.tags == tags
    {
      this.tags := tags;
    }

    /** `remove_element`: on a balanced stream exactly the top-level elements of that name go. */
    method RemoveElement(element: DeadElementTag)
      modifies this
      ensures tags == Retained(old(tags), 0, false, element.name)
      ensures Balanced(old(tags)) ==> Balanced(tags) && Tree(tags) == Without(Tree(old(tags)), element.name)
    {
      hide Balanced, Tree, Without, Retained;
      var kept: seq<Tag> := [];
      var depth: int, remove := 0, false;
      ghost var all := tags;
      assert all[0..] == all && [] + Retained(all, 0, false, element.name) == Retained(all, 0, false, element.name);
      for i := 0 to |tags|
        invariant tags == all
        invariant kept + Retained(all[i..], depth, remove, element.name) == Retained(all, 0, false, element.name)
      {
        RetainedAt(all, i, kept, depth, remove, element.name);
        var item := tags[i];
        var keep;
        match item {
          case ElementStart(tag) =>
            if depth == 0 && !remove && tag.name == element.name {
              remove := true;
            }
            depth := depth + 1;
            keep := !remove;
          case ElementEnd =>
            depth := depth - 1;
            if remove && depth == 0 {
              remove := false;
              keep := false;
            } else {
              keep := !remove;
            }
          case Text(_) =>
            keep := !remove;
        }
        kept := if keep then kept + [item] else kept;
      }
      RetainedNothing(depth, remove, element.name);
      assert all[|all|..] == [] && kept + [] == kept;
      tags := kept;
      if Balanced(all) {
        RemovedFromForest(all, element.name);
      }
    }

    /** `add_element`. */
    method AddElement(element: DeadElementTag, values: seq<Tag>)
      modifies this
      ensures tags == old(tags) + [ElementStart(element)] + values + [ElementEnd]
      ensures Balanced(old(tags)) && Balanced(values) ==>
        Balanced(tags) && Tree(tags) == Append(Tree(old(tags)), Element(element, Tree(values), Empty))
    {
      hide Balanced, Tree, Append;
      tags := tags + [ElementStart(element)];
      tags := tags + values;
      tags := tags + [ElementEnd];
      if Balanced(old(tags)) && Balanced(values) {
        AddedToForest(old(tags), element, values);
      }
    }

    /** `find_tag`: on a balanced stream, the content of the first top-level element of that name. */
    method FindTag(needle: string) returns (found: Option<seq<Tag>>)
      ensures found == Sought(tags, 0, needle)
      ensures Balanced(tags) ==> found == Flattened(Content(Tree(tags), needle))
    {
      hide Balanced, Tree, Content, Flattened, Sought, Collected;
      var depth: nat := 0;
      var collected: seq<Tag> := [];
      var foundTag := false;
      if Balanced(tags) {
        FoundInForest(tags, needle);
      }
      assert tags[0..] == tags;
      var i := 0;
      while i < |tags|
        invariant 0 <= i <= |tags|
        invariant Searching(tags[i..], depth, collected, foundTag, needle) == Sought(tags, 0, needle)
        invariant !foundTag ==> collected == []
        invariant foundTag ==> depth > 0
      {
        var tag := tags[i];
        SearchingOn(tags, i, depth, collected, foundTag, needle);
        match tag {
          case ElementStart(start) =>
            if depth == 0 && start.name == needle {
              foundTag := true;
            } else if foundTag {
              collected := collected + [tag];
            }
            depth := depth + 1;
          case ElementEnd =>
            if foundTag {
              if depth == 1 {
                return Some(collected);
              } else {
                collected := collected + [tag];
              }
            }
            depth := if depth > 0 then depth - 1 else 0;
          case Text(_) =>
            if foundTag {
              collected := collected + [tag];
            }
        }
        i := i + 1;
      }
      SearchEnds(depth, collected, foundTag, needle);
      assert tags[i..] == [];
      return if foundTag then Some(collected) else None;
    }

    /** The arm of `apply_file_properties` for a dead property (dav/src/file/proppatch.rs:232-254), on the working copy
        of a request: an update takes the old element out, and the new one is added if there is room. */
    method Apply(element: DeadElementTag, values: seq<Tag>, isUpdate: bool, limit: Option<nat>) returns (added: bool)
      modifies this
      ensures added <==> limit.Some? && Fits(Base(old(tags), element, isUpdate), element, values, limit.value)
      ensures tags == if added then Added(Base(old(tags), element, isUpdate), element, values)
        else if limit.Some? then Base(old(tags), element, isUpdate) else old(tags)
    {
      hide Size, Retained;
      if limit.None? {
        return false;
      }
      if isUpdate {
        RemoveElement(element);
      }
      var used := Measure(tags);
      var more := Measure(values);
      var own := ByteLength(element.name) + if element.attrs.Some? then ByteLength(element.attrs.value) else 0;
      added := used + more + own < limit.value;
      if added {
        AddElement(element, values);
      }
    }

    /** The lookups behind one such update: in the working copy the element has exactly the new content if and only if
        that content is balanced, and then no other name is affected. Without room the copy has lost the element; a
        request with a refused update is not stored (`DeadPropertyPatch`). */
    method Update(element: DeadElementTag, values: seq<Tag>, limit: nat, other: string)
        returns (added: bool, found: Option<seq<Tag>>, foundOther: Option<seq<Tag>>)
      requires Balanced(tags) && other != element.name
      modifies this
      ensures added <==>
        Size(Flatten(Without(Tree(old(tags)), element.name))) + Size(values) + ElementSize(element) < limit
      ensures added ==> (found == Some(values) <==> Balanced(values))
      ensures !added ==> found == None
      ensures !added || Balanced(values) ==> Balanced(tags) && foundOther == Sought(old(tags), 0, other)
    {
      hide Balanced, Tree, Without, Content, Append, Sought, Retained, Size;
      ghost var f := Tree(tags);
      RemovedFromForest(tags, element.name);
      ghost var kept := Retained(tags, 0, false, element.name);
      added := Apply(element, values, true, Some(limit));
      found := FindTag(element.name);
      foundOther := FindTag(other);
      AddedIsFound(Tree(kept), f, element, values);
      WithoutHasNone(f, element.name);
      OthersKept(f, element.name, other);
      FoundInForest(old(tags), other);
      if Balanced(values) {
        AddedToForest(kept, element, values);
        ReplaceInForest(f, element, Tree(values), other);
      }
    }
  }

  /** `size`: the bytes of names, attributes and text, and one for the end of each element. */
  method Measure(tags: seq<Tag>) returns (size: nat)
    ensures size == Size(tags)
  {
    hide Size;
    size := 0;
    SizeNothing();
    for i := 0 to |tags|
      invariant size == Size(tags[..i])
    {
      SizeMore(tags, i);
      match tags[i] {
        case ElementStart(tag) =>
          size := size + ByteLength(tag.name) + if tag.attrs.Some? then ByteLength(tag.attrs.value) else 0;
        case ElementEnd =>
          size := size + 1;
        case Text(text) =>
          size := size + ByteLength(text);
      }
    }
    assert tags[..|tags|] == tags;
  }

  lemma SizeNothing()
    ensures Size([]) == 0
  {
  }

  lemma SizeMore(tags: seq<Tag>, i: nat)
    requires i < |tags|
    ensures Size(tags[..i + 1]) == Size(tags[..i]) + match tags[i]
      case ElementStart(e) => ElementSize(e)
      case ElementEnd => 1
      case Text(text) => ByteLength(text)
  {
    SizeAdds(tags[..i], [tags[i]]);
    assert tags[..i + 1] == tags[..i] + [tags[i]] && [tags[i]][1..] == [];
  }

  lemma {:induction false} SizeAdds(a: seq<Tag>, b: seq<Tag>)
    ensures Size(a + b) == Size(a) + Size(b)
  {
    if a == [] {
      assert a + b == b;
    } else {
      SizeAdds(a[1..], b);
      assert (a + b)[1..] == a[1..] + b;
    }
  }

  /** The bytes of a forest. */
  function Weight(f: Forest): nat {
    match f
    case Empty => 0
    case Chars(text, next) => ByteLength(text) + Weight(next)
    case Element(DeadElementTag(name, None), inner, next) => ByteLength(name) + 1 + Weight(inner) + Weight(next)
    case Element(DeadElementTag(name, Some(attrs)), inner, next) =>
      ByteLength(name) + ByteLength(attrs) + 1 + Weight(inner) + Weight(next)
  }

  lemma {:induction false} SizeIsWeight(f: Forest)
    ensures Size(Flatten(f)) == Weight(f)
  {
    match f
    case Empty =>
    case Chars(t, next) =>
      SizeIsWeight(next);
      First(Text(t), Flatten(next));
    case Element(e, inner, next) =>
      SizeIsWeight(inner);
      SizeIsWeight(next);
      SizeAdds([ElementStart(e)] + Flatten(inner) + [ElementEnd], Flatten(next));
      SizeAdds([ElementStart(e)] + Flatten(inner), [ElementEnd]);
      First(ElementStart(e), Flatten(inner));
      assert [ElementEnd][1..] == [] && Size([ElementEnd]) == 1;
  }

  /** There is room for an element exactly when the stream has at most `limit` bytes with it. */
  lemma FitsExactly(tags: seq<Tag>, element: DeadElementTag, values: seq<Tag>, limit: nat)
    ensures Fits(tags, element, values, limit) <==> Size(Added(tags, element, values)) <= limit
  {
    SizeAdds(tags + [ElementStart(element)] + values, [ElementEnd]);
    SizeAdds(tags + [ElementStart(element)], values);
    SizeAdds(tags, [ElementStart(element)]);
    assert [ElementEnd][1..] == [] && [ElementStart(element)][1..] == [];
  }

  /** A stray end does not hide the elements behind it. */
  lemma StrayEnd(f: Forest, rest: seq<Tag>, needle: string)
    ensures Sought(Flatten(f) + ([ElementEnd] + rest), 0, needle)
         == if Content(f, needle).Some? then Flattened(Content(f, needle)) else Sought(rest, 0, needle)
  {
    SoughtIsContent(f, [ElementEnd] + rest, needle);
    First(ElementEnd, rest);
  }

  /** What an element is added to. */
  function Base(tags: seq<Tag>, element: DeadElementTag, isUpdate: bool): seq<Tag> {
    if isUpdate then Retained(tags, 0, false, element.name) else tags
  }

  function Added(tags: seq<Tag>, element: DeadElementTag, values: seq<Tag>): seq<Tag> {
    tags + [ElementStart(element)] + values + [ElementEnd]
  }

  predicate Fits(tags: seq<Tag>, element: DeadElementTag, values: seq<Tag>, limit: nat) {
    Size(tags) + Size(values) + ElementSize(element) < limit
  }

  function ElementSize(e: DeadElementTag): nat {
    ByteLength(e.name) + if e.attrs.Some? then ByteLength(e.attrs.value) else 0
  }

  function Size(tags: seq<Tag>): nat {
    if tags == [] then 0
    else Size(tags[1..]) + match tags[0]
      case ElementStart(e) => ElementSize(e)
      case ElementEnd => 1
      case Text(text) => ByteLength(text)
  }

  lemma {:induction false} OthersKept(f: Forest, name: string, other: string)
    requires other != name
    ensures Content(Without(f, name), other) == Content(f, other)
  {
    match f
    case Empty =>
    case Chars(_, next) => OthersKept(next, name, other);
    case Element(_, _, next) => OthersKept(next, name, other);
  }

  lemma RemovedFromForest(tags: seq<Tag>, name: string)
    requires Balanced(tags)
    ensures var kept := Retained(tags, 0, false, name);
      Balanced(kept) && Tree(kept) == Without(Tree(tags), name)
  {
    hide Balanced, Tree, Retained, Without;
    RetainedIsWithout(Tree(tags), name);
    StreamIsForest(Without(Tree(tags), name));
  }

  lemma {:induction false} AppendFlattens(f: Forest, g: Forest)
    ensures Flatten(Append(f, g)) == Flatten(f) + Flatten(g)
  {
    match f
    case Empty => assert [] + Flatten(g) == Flatten(g);
    case Chars(t, next) => AppendFlattens(next, g); TextThen(t, next, Flatten(g));
    case Element(e, inner, next) =>
      AppendFlattens(next, g);
      ElementThen(e, inner, next, Flatten(g));
      ElementThen(e, inner, Append(next, g), []);
      assert Flatten(Append(next, g)) + [] == Flatten(Append(next, g));
      assert Flatten(Append(f, g)) + [] == Flatten(Append(f, g));
  }

  lemma AddedToForest(tags: seq<Tag>, e: DeadElementTag, values: seq<Tag>)
    requires Balanced(tags) && Balanced(values)
    ensures var more := tags + [ElementStart(e)] + values + [ElementEnd];
      Balanced(more) && Tree(more) == Append(Tree(tags), Element(e, Tree(values), Empty))
  {
    hide Balanced, Tree, Append;
    var added := Element(e, Tree(values), Empty);
    AppendFlattens(Tree(tags), added);
    assert Flatten(added) == [ElementStart(e)] + values + [ElementEnd];
    assert tags + ([ElementStart(e)] + values + [ElementEnd]) == tags + [ElementStart(e)] + values + [ElementEnd];
    StreamIsForest(Append(Tree(tags), added));
  }

  lemma FoundInForest(tags: seq<Tag>, needle: string)
    requires Balanced(tags)
    ensures Sought(tags, 0, needle) == Flattened(Content(Tree(tags), needle))
  {
    hide Balanced, Tree, Content;
    assert tags + [] == tags;
    SoughtIsContent(Tree(tags), [], needle);
  }

  lemma {:induction false} WithoutHasNone(f: Forest, name: string)
    ensures Content(Without(f, name), name).None?
  {
    match f
    case Empty =>
    case Chars(_, next) => WithoutHasNone(next, name);
    case Element(_, _, next) => WithoutHasNone(next, name);
  }

  lemma AddedIsFound(g: Forest, f: Forest, e: DeadElementTag, values: seq<Tag>)
    requires g == Without(f, e.name)
    ensures Sought(Flatten(g) + [ElementStart(e)] + values + [ElementEnd], 0, e.name) == Some(values)
       <==> Balanced(values)
  {
    hide Flatten, Content, Without;
    WithoutHasNone(f, e.name);
    var rest := [ElementStart(e)] + (values + [ElementEnd]);
    SoughtIsContent(g, rest, e.name);
    assert Flatten(g) + [ElementStart(e)] + values + [ElementEnd] == Flatten(g) + rest;
    First(ElementStart(e), values + [ElementEnd]);
    CollectedExactly(values, 0);
  }
}
