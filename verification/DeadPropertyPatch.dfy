/** A property update request on a file (dav/src/file/proppatch.rs), as far as dead properties go: it works on a copy of
    the node, which is stored only if every change in the request has been accepted. */
module DeadPropertyPatch {
  import opened Wrappers
  import opened DeadProperties

  datatype Change = Change(element: DeadElementTag, values: seq<Tag>)

  class FileNode {
    var stored: seq<Tag>

    constructor (stored: seq<Tag>)
      ensures this.stored == stored
    {
      this.stored := stored;
    }

    /** `handle_file_proppatch_request`; `othersAccepted` is the outcome of the other properties in the request. */
    method PropPatch(setFirst: bool, removes: seq<DeadElementTag>, sets: seq<Change>, limit: Option<nat>,
                     othersAccepted: bool)
        returns (success: bool)
      modifies this
      ensures success <==> othersAccepted && Accepted(Start(old(stored), setFirst, removes), sets, limit)
      ensures stored == if success then Patched(old(stored), setFirst, removes, sets) else old(stored)
    {
      var copy := new DeadProperty(stored);
      if !setFirst {
        RemoveAll(copy, removes);
      }
      success := SetAll(copy, sets, limit);
      success := success && othersAccepted;
      if success && setFirst {
        RemoveAll(copy, removes);
      }
      if success {
        stored := copy.tags;
      }
    }
  }

  /** `remove_file_properties`. */
  method RemoveAll(copy: DeadProperty, removes: seq<DeadElementTag>)
    modifies copy
    ensures copy.tags == AllRemoved(old(copy.tags), removes)
  {
    hide Retained, Balanced, Tree, Without;
    assert removes[..0] == [];
    for i := 0 to |removes|
      invariant copy.tags == AllRemoved(old(copy.tags), removes[..i])
    {
      copy.RemoveElement(removes[i]);
      assert removes[..i + 1][..i] == removes[..i];
    }
    assert removes[..|removes|] == removes;
  }

  /** `apply_file_properties`: the other changes are made even behind one that is refused. */
  method SetAll(copy: DeadProperty, sets: seq<Change>, limit: Option<nat>) returns (accepted: bool)
    modifies copy
    ensures accepted <==> Accepted(old(copy.tags), sets, limit)
    ensures accepted ==> copy.tags == AllSet(old(copy.tags), sets)
  {
    hide Retained, Fits, Added;
    accepted := true;
    assert sets[..0] == [];
    for i := 0 to |sets|
      invariant accepted <==> Accepted(old(copy.tags), sets[..i], limit)
      invariant accepted ==> copy.tags == AllSet(old(copy.tags), sets[..i])
    {
      assert sets[..i + 1][..i] == sets[..i];
      var added := copy.Apply(sets[i].element, sets[i].values, true, limit);
      accepted := accepted && added;
    }
    assert sets[..|sets|] == sets;
  }

  // ------------------------------------------------------ the tags afterwards

  function AllRemoved(tags: seq<Tag>, removes: seq<DeadElementTag>): seq<Tag> {
    if removes == [] then tags
    else
      var last := |removes| - 1;
      Retained(AllRemoved(tags, removes[..last]), 0, false, removes[last].name)
  }

  function AllSet(tags: seq<Tag>, sets: seq<Change>): seq<Tag> {
    if sets == [] then tags
    else
      var last := |sets| - 1;
      var c := sets[last];
      Added(Base(AllSet(tags, sets[..last]), c.element, true), c.element, c.values)
  }

  /** Dead properties are enabled, and there is room for each of them in its turn. */
  predicate Accepted(tags: seq<Tag>, sets: seq<Change>, limit: Option<nat>) {
    sets == [] ||
    var last := |sets| - 1;
    var c := sets[last];
    && Accepted(tags, sets[..last], limit) && limit.Some?
    && Fits(Base(AllSet(tags, sets[..last]), c.element, true), c.element, c.values, limit.value)
  }

  function Start(tags: seq<Tag>, setFirst: bool, removes: seq<DeadElementTag>): seq<Tag> {
    if setFirst then tags else AllRemoved(tags, removes)
  }

  function Patched(tags: seq<Tag>, setFirst: bool, removes: seq<DeadElementTag>, sets: seq<Change>): seq<Tag> {
    if setFirst then AllRemoved(AllSet(tags, sets), removes) else AllSet(AllRemoved(tags, removes), sets)
  }

  // ------------------------------------------------------------ what is found

  predicate Named(removes: seq<DeadElementTag>, name: string) {
    exists i :: 0 <= i < |removes| && removes[i].name == name
  }

  /** The content that the last change of a name brings. */
  function LastSet(sets: seq<Change>, name: string): Option<seq<Tag>> {
    if sets == [] then None
    else
      var last := |sets| - 1;
      if sets[last].element.name == name then Some(sets[last].values) else LastSet(sets[..last], name)
  }

  function Or(a: Option<seq<Tag>>, b: Option<seq<Tag>>): Option<seq<Tag>> {
    if a.Some? then a else b
  }

  lemma RemoveFinds(tags: seq<Tag>, removed: string, name: string)
    requires Balanced(tags)
    ensures var kept := Retained(tags, 0, false, removed);
      Balanced(kept) && Sought(kept, 0, name) == if name == removed then None else Sought(tags, 0, name)
  {
    hide Balanced, Tree, Retained, Without, Content, Sought;
    RemovedFromForest(tags, removed);
    FoundInForest(tags, name);
    FoundInForest(Retained(tags, 0, false, removed), name);
    if name == removed {
      WithoutHasNone(Tree(tags), name);
    } else {
      OthersKept(Tree(tags), removed, name);
    }
  }

  lemma SetFinds(tags: seq<Tag>, c: Change, name: string)
    requires Balanced(tags) && Balanced(c.values)
    ensures var more := Added(Base(tags, c.element, true), c.element, c.values);
      Balanced(more) && Sought(more, 0, name) == if name == c.element.name then Some(c.values) else Sought(tags, 0, name)
  {
    hide Balanced, Tree, Retained, Without, Content, Sought, Append;
    var f, kept := Tree(tags), Retained(tags, 0, false, c.element.name);
    RemovedFromForest(tags, c.element.name);
    AddedToForest(kept, c.element, c.values);
    FoundInForest(Added(kept, c.element, c.values), name);
    FoundInForest(tags, name);
    ReplaceInForest(f, c.element, Tree(c.values), name);
  }

  lemma {:induction false} AllRemovedFinds(tags: seq<Tag>, removes: seq<DeadElementTag>, name: string)
    requires Balanced(tags)
    ensures var kept := AllRemoved(tags, removes);
      Balanced(kept) && Sought(kept, 0, name) == if Named(removes, name) then None else Sought(tags, 0, name)
    decreases |removes|
  {
    hide Balanced, Sought, Retained;
    if removes != [] {
      var last := |removes| - 1;
      AllRemovedFinds(tags, removes[..last], name);
      RemoveFinds(AllRemoved(tags, removes[..last]), removes[last].name, name);
      assert Named(removes, name) <==> Named(removes[..last], name) || removes[last].name == name by {
        assert removes == removes[..last] + [removes[last]];
      }
    }
  }

  lemma {:induction false} AllSetFinds(tags: seq<Tag>, sets: seq<Change>, name: string)
    requires Balanced(tags) && forall i :: 0 <= i < |sets| ==> Balanced(sets[i].values)
    ensures var more := AllSet(tags, sets);
      Balanced(more) && Sought(more, 0, name) == Or(LastSet(sets, name), Sought(tags, 0, name))
    decreases |sets|
  {
    hide Balanced, Sought, Added, Base;
    if sets != [] {
      var last := |sets| - 1;
      assert forall i :: 0 <= i < last ==> sets[..last][i] == sets[i];
      AllSetFinds(tags, sets[..last], name);
      SetFinds(AllSet(tags, sets[..last]), sets[last], name);
    }
  }

  /** A stored request: every name finds the content of its last change, nothing if it was removed, and what it had
      otherwise; removals come first unless the request begins with a change. */
  lemma PatchedFinds(tags: seq<Tag>, setFirst: bool, removes: seq<DeadElementTag>, sets: seq<Change>, name: string)
    requires Balanced(tags) && forall i :: 0 <= i < |sets| ==> Balanced(sets[i].values)
    ensures var after := Patched(tags, setFirst, removes, sets);
      var had := Sought(tags, 0, name);
      && Balanced(after)
      && Sought(after, 0, name) ==
           if setFirst then if Named(removes, name) then None else Or(LastSet(sets, name), had)
           else Or(LastSet(sets, name), if Named(removes, name) then None else had)
  {
    hide Balanced, Sought, AllSet, AllRemoved;
    if setFirst {
      AllSetFinds(tags, sets, name);
      AllRemovedFinds(AllSet(tags, sets), removes, name);
    } else {
      AllRemovedFinds(tags, removes, name);
      AllSetFinds(AllRemoved(tags, removes), sets, name);
    }
  }
}
