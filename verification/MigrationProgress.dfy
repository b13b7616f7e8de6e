/** The migration protocol gets to its end: every run in time ends if all nodes keep acting, and a run in time can be
    continued to the end if and only if no node is stuck behind an outlived bid that nobody else will take away. */
module MigrationProgress {
  import opened Sequences
  import opened Wrappers
  import opened MigrationLock

  ghost predicate Unfailed(w: World) {
    forall i :: 0 <= i < |w.nodes| ==> !w.nodes[i].stage.Failed?
  }

  ghost predicate HeldBySome(nodes: seq<Node>, k: Key) {
    exists i :: 0 <= i < |nodes| && Holding(nodes[i]) && nodes[i].key == k
  }

  /** Every lock has a node that will remove it. */
  ghost predicate LocksHeld(w: World) {
    forall k :: k in w.locks ==> HeldBySome(w.nodes, k)
  }

  /** What every run in time and without failures keeps. */
  ghost predicate Steady(w: World) {
    Invariant(w) && Unfailed(w) && LocksHeld(w)
  }

  ghost predicate AllFinished(w: World) {
    forall i :: 0 <= i < |w.nodes| ==> w.nodes[i].stage.Finished?
  }

  ghost predicate NoFailures(events: seq<Event>) {
    forall i :: 0 <= i < |events| ==> !events[i].Fail?
  }

  // -------------------------------------------------------- what steps keep

  lemma LocksStillHeld(w: World, n: nat, ids: seq<nat>)
    requires n < |w.nodes| && LocksHeld(w)
    ensures LocksHeld(Step(w, Act(n, ids)))
  {
    hide Busy, Advance, Begin;
    var w' := Step(w, Act(n, ids));
    var node := w.nodes[n];
    forall k | k in w'.locks ensures HeldBySome(w'.nodes, k) {
      if k == node.key && Holding(w'.nodes[n]) {
        KeyKept(w, node, ids);
        assert Holding(w'.nodes[n]) && w'.nodes[n].key == k;
      } else {
        assert k in w.locks && (k == node.key ==> !node.stage.Release?) by { OldLock(w, node, ids, k); }
        assert HeldBySome(w.nodes, k);
        var i :| 0 <= i < |w.nodes| && Holding(w.nodes[i]) && w.nodes[i].key == k;
        if i == n {
          StillHolding(w, node, ids);
        }
        assert Holding(w'.nodes[i]) && w'.nodes[i].key == k;
      }
    }
  }

  lemma KeyKept(w: World, node: Node, ids: seq<nat>)
    requires Holding(NodeStep(w, node, ids))
    ensures NodeStep(w, node, ids).key == node.key
  {
  }

  /** A holder holds on until it releases. */
  lemma StillHolding(w: World, node: Node, ids: seq<nat>)
    requires Holding(node) && !node.stage.Release?
    ensures Holding(NodeStep(w, node, ids)) && NodeStep(w, node, ids).key == node.key
  {
  }

  lemma OldLock(w: World, node: Node, ids: seq<nat>, k: Key)
    requires k in LocksStep(w, node) && !(k == node.key && Holding(NodeStep(w, node, ids)))
    ensures k in w.locks && (k == node.key ==> !node.stage.Release?)
  {
  }

  lemma StepOfOne(w: World, n: nat, ids: seq<nat>)
    requires n < |w.nodes|
    ensures var w' := Step(w, Act(n, ids));
      w'.now == w.now && w'.locks == LocksStep(w, w.nodes[n]) && w'.nodes == w.nodes[n := NodeStep(w, w.nodes[n], ids)]
    ensures w.nodes[n].stage.Failed? <==> NodeStep(w, w.nodes[n], ids).stage.Failed?
  {
    hide LocksStep;
  }

  lemma StepIsSteady(w: World, e: Event)
    requires Steady(w) && NothingExpired(w) && Spared(w, e) && !e.Fail?
    ensures Steady(Step(w, e)) && |Step(w, e).nodes| == |w.nodes|
  {
    hide Invariant;
    StepKeepsInvariant(w, e);
    match e
    case Act(n, ids) =>
      if n < |w.nodes| {
        LocksStillHeld(w, n, ids);
        StepOfOne(w, n, ids);
      }
    case Tick(_) =>
      assert forall k :: HeldBySome(w.nodes, k) ==> HeldBySome(Step(w, e).nodes, k);
    case Purge(_) =>
      assert forall k :: HeldBySome(w.nodes, k) ==> HeldBySome(Step(w, e).nodes, k);
  }

  lemma {:induction false} RunIsSteady(w: World, events: seq<Event>)
    requires Steady(w) && NoFailures(events) && InTime(w, events)
    ensures Steady(Run(w, events)) && NothingExpired(Run(w, events))
    decreases |events|
  {
    hide Step, Steady, NothingExpired, Spared;
    if events != [] {
      StepIsSteady(w, events[0]);
      RunIsSteady(Step(w, events[0]), events[1..]);
    }
  }

  lemma {:induction false} RunJoined(w: World, a: seq<Event>, b: seq<Event>)
    ensures Run(w, a + b) == Run(Run(w, a), b)
    ensures InTime(w, a + b) <==> InTime(w, a) && InTime(Run(w, a), b)
    decreases |a|
  {
    hide Step, NothingExpired, Spared;
    if a == [] {
      assert a + b == b;
      NowInTime(w, b);
    } else {
      assert (a + b)[0] == a[0] && (a + b)[1..] == a[1..] + b;
      RunJoined(Step(w, a[0]), a[1..], b);
    }
  }

  lemma NowInTime(w: World, events: seq<Event>)
    ensures InTime(w, events) ==> InTime(w, [])
  {
  }

  // --------------------------------------------------------- one node's work

  /** The steps that a node has before it if it never finds a lock busy; at most `most` principals are given to it. */
  function Work(node: Node, most: nat): nat {
    if node.stage.Finished? then 0
    else 1 + StepsOnKey(node.stage) + if node.key.Core? then 5 * most else 5 * (|node.rest| + |node.skipped|)
  }

  function StepsOnKey(stage: Stage): nat {
    match stage
    case Check(_) => 3
    case Migrate(_) => 2
    case Mark(_) => 1
    case Release(_) => 0
    case _ => 4
  }

  /** The steps to a free lock; a lock that the node has seen makes it try again. */
  function Looks(node: Node): nat {
    match node.stage
    case Seen(Some(_)) => 5
    case Bid(Some(_), _) => 4
    case Try => 3
    case Seen(None) => 2
    case Bid(None, _) => 1
    case _ => 0
  }

  ghost predicate AccountsAhead(node: Node) {
    forall k :: k in node.rest || k in node.skipped ==> k.Account?
  }

  lemma Ahead(w: World, i: nat)
    requires i < |w.nodes| && Invariant(w)
    ensures AccountsAhead(w.nodes[i])
  {
    assert Sound(w.nodes[i], w.now, w.locks, w.done);
  }

  lemma AdvanceWork(node: Node, most: nat)
    requires AccountsAhead(node)
    ensures Work(Advance(node), most) == 5 * (|node.rest| + |node.skipped|)
    ensures !Holding(Advance(node)) && Looks(Advance(node)) <= 3
  {
    if node.rest != [] {
      assert node.rest[0] in node.rest;
    } else if node.skipped != [] {
      assert node.skipped[0] in node.skipped;
    }
  }

  /** A busy node has as much work before it as it had. */
  lemma BusyWork(node: Node, most: nat)
    requires (node.stage.Seen? || node.stage.Bid?) && AccountsAhead(node)
    ensures Work(Busy(node), most) == Work(node, most)
    ensures !Holding(Busy(node)) && Looks(Busy(node)) <= 3
  {
    if node.key.Account? {
      hide Advance;
      AdvanceWork(node.(skipped := node.skipped + [node.key]), most);
    }
  }

  lemma BeginWork(node: Node, ids: seq<nat>, most: nat)
    requires |ids| <= most
    ensures Work(Begin(node, ids), most) <= 5 * most && !Holding(Begin(node, ids)) && Looks(Begin(node, ids)) <= 3
  {
    hide Advance;
    AdvanceWork(Node(Try, Core, Accounts(ids), [], Accounts(ids)), most);
  }

  /** No step of a node adds to its work; a step that takes its key, or that it makes while holding it, takes from the
      work, and any other step brings it nearer to the lock if that is free. */
  lemma WorkFalls(w: World, node: Node, ids: seq<nat>, most: nat)
    requires AccountsAhead(node) && |ids| <= most
    ensures var node' := NodeStep(w, node, ids);
      && Work(node', most) <= Work(node, most)
      && (Holding(node) || Holding(node') ==> Work(node', most) < Work(node, most))
      && (node.key !in w.locks && !node.stage.Finished? && !node.stage.Failed? ==>
            Work(node', most) < Work(node, most) || Looks(node') < Looks(node))
  {
    hide Busy, Advance, Begin;
    match node.stage
    case Seen(_) => BusyWork(node, most);
    case Bid(_, _) => BusyWork(node, most);
    case Release(_) =>
      if node.key.Core? {
        BeginWork(node, ids, most);
      } else {
        AdvanceWork(node, most);
      }
    case _ =>
  }

  // ------------------------------------------------------ the work of all nodes

  function Sum(f: Node -> nat, nodes: seq<Node>): nat {
    if nodes == [] then 0 else f(nodes[0]) + Sum(f, nodes[1..])
  }

  lemma {:induction false} SumAt(f: Node -> nat, nodes: seq<Node>, i: nat, node: Node)
    requires i < |nodes|
    ensures Sum(f, nodes[i := node]) + f(nodes[i]) == Sum(f, nodes) + f(node)
  {
    if i == 0 {
      assert nodes[0 := node][1..] == nodes[1..];
    } else {
      SumAt(f, nodes[1..], i - 1, node);
      assert nodes[i := node][1..] == nodes[1..][i - 1 := node];
    }
  }

  lemma {:induction false} SumHas(f: Node -> nat, nodes: seq<Node>)
    ensures Sum(f, nodes) > 0 <==> exists i :: 0 <= i < |nodes| && f(nodes[i]) > 0
  {
    if nodes != [] {
      SumHas(f, nodes[1..]);
      if Sum(f, nodes[1..]) > 0 {
        var i :| 0 <= i < |nodes[1..]| && f(nodes[1..][i]) > 0;
        assert nodes[i + 1] == nodes[1..][i];
      }
      if i :| 0 <= i < |nodes| && f(nodes[i]) > 0 {
        assert i > 0 ==> nodes[1..][i - 1] == nodes[i];
      }
    }
  }

  lemma {:induction false} SumBound(f: Node -> nat, nodes: seq<Node>, bound: nat)
    requires forall node :: f(node) <= bound
    ensures Sum(f, nodes) <= bound * |nodes|
  {
    if nodes != [] {
      SumBound(f, nodes[1..], bound);
    }
  }

  function WorkUpTo(most: nat): Node -> nat { (node: Node) => Work(node, most) }

  function AllWork(w: World, most: nat): nat { Sum(WorkUpTo(most), w.nodes) }

  function AllLooks(w: World): nat { Sum(Looks, w.nodes) }

  /** How many rounds it takes at most. */
  function RoundsLeft(w: World, most: nat): nat {
    AllWork(w, most) * (5 * |w.nodes| + 1) + AllLooks(w)
  }

  lemma NoWorkLeft(w: World, most: nat)
    ensures AllWork(w, most) == 0 <==> AllFinished(w)
  {
    SumHas(WorkUpTo(most), w.nodes);
    assert forall i :: 0 <= i < |w.nodes| ==>
      (WorkUpTo(most)(w.nodes[i]) > 0 <==> !w.nodes[i].stage.Finished?);
  }

  lemma FewLooks(w: World)
    ensures AllLooks(w) <= 5 * |w.nodes|
  {
    SumBound(Looks, w.nodes, 5);
  }

  /** Less work outweighs all looks. */
  lemma FewerRounds(w: World, w': World, most: nat)
    requires |w'.nodes| == |w.nodes|
    requires AllWork(w', most) < AllWork(w, most) || (AllWork(w', most) == AllWork(w, most) && AllLooks(w') < AllLooks(w))
    ensures RoundsLeft(w', most) < RoundsLeft(w, most)
  {
    FewLooks(w');
    var c := 5 * |w.nodes| + 1;
    if AllWork(w', most) < AllWork(w, most) {
      Outweighs(AllWork(w', most), AllWork(w, most), c);
    }
  }

  lemma Outweighs(a: nat, b: nat, c: nat)
    requires a < b
    ensures a * c + c <= b * c
  {
    assert (a + 1) * c <= b * c;
  }

  ghost predicate NoHolder(w: World) {
    forall i :: 0 <= i < |w.nodes| ==> !Holding(w.nodes[i])
  }

  lemma NoLocks(w: World)
    requires LocksHeld(w) && NoHolder(w)
    ensures w.locks == map[]
  {
    assert forall k :: k in w.locks ==> HeldBySome(w.nodes, k);
  }

  /** One node's step and the work of all. */
  lemma WorkOfAll(w: World, n: nat, ids: seq<nat>, most: nat)
    requires n < |w.nodes| && Invariant(w) && |ids| <= most
    ensures var (w', node) := (Step(w, Act(n, ids)), w.nodes[n]);
      && AllWork(w', most) <= AllWork(w, most)
      && (Holding(node) || Holding(w'.nodes[n]) ==> AllWork(w', most) < AllWork(w, most))
      && (node.key !in w.locks && !node.stage.Finished? && !node.stage.Failed? ==>
            AllWork(w', most) < AllWork(w, most) || AllLooks(w') < AllLooks(w))
  {
    hide Invariant, Step, NodeStep, LocksStep, Work, Looks;
    Ahead(w, n);
    StepOfOne(w, n, ids);
    WorkFalls(w, w.nodes[n], ids, most);
    SumAt(WorkUpTo(most), w.nodes, n, NodeStep(w, w.nodes[n], ids));
    SumAt(Looks, w.nodes, n, NodeStep(w, w.nodes[n], ids));
  }

  // ------------------------------------------------------------- fair rounds

  ghost predicate Acts(round: seq<Event>, n: nat) {
    exists i :: 0 <= i < |round| && round[i].Act? && round[i].n == n
  }

  ghost predicate Bounded(events: seq<Event>, most: nat) {
    forall i :: 0 <= i < |events| ==> events[i].Act? ==> |events[i].ids| <= most
  }

  /** Every node acts once at least, in any order, and time may pass; nobody is given more than `most` principals. */
  ghost predicate Fair(round: seq<Event>, count: nat, most: nat) {
    NoFailures(round) && Bounded(round, most) && forall n :: 0 <= n < count ==> Acts(round, n)
  }

  /** What a round does if it takes nothing from the work: no holder has acted, and if there is none, every step of an
      unfinished node has brought it nearer to its lock. */
  ghost predicate Nearer(w: World, round: seq<Event>, w': World) {
    && |w'.nodes| == |w.nodes|
    && (forall n :: 0 <= n < |w.nodes| && Acts(round, n) ==> !Holding(w.nodes[n]))
    && (NoHolder(w) ==>
          NoHolder(w') && AllLooks(w') <= AllLooks(w) &&
          forall n :: 0 <= n < |w.nodes| && Acts(round, n) && !w.nodes[n].stage.Finished? ==> AllLooks(w') < AllLooks(w))
  }

  lemma ActsFirst(round: seq<Event>, n: nat)
    requires round != []
    ensures Acts(round, n) <==> (round[0].Act? && round[0].n == n) || Acts(round[1..], n)
  {
    if i :| 0 <= i < |round| && round[i].Act? && round[i].n == n {
      assert i > 0 ==> round[1..][i - 1] == round[i];
    }
    if i :| 0 <= i < |round[1..]| && round[1..][i].Act? && round[1..][i].n == n {
      assert round[i + 1] == round[1..][i];
    }
  }

  lemma NearerFirst(w: World, round: seq<Event>, w': World, most: nat)
    requires round != [] && Steady(w) && !round[0].Fail? && Bounded(round, most)
    requires AllWork(Step(w, round[0]), most) == AllWork(w, most) && Nearer(Step(w, round[0]), round[1..], w')
    ensures Nearer(w, round, w')
  {
    hide Invariant, Step, LocksHeld, AllWork, Acts, Holding;
    var e := round[0];
    var w1 := Step(w, e);
    forall n ensures Acts(round, n) <==> (e.Act? && e.n == n) || Acts(round[1..], n) {
      ActsFirst(round, n);
    }
    if e.Act? && e.n < |w.nodes| {
      StepOfOne(w, e.n, e.ids);
      WorkOfAll(w, e.n, e.ids, most);
      FinishedRests(w, e.n, e.ids);
      if NoHolder(w) {
        NoLocks(w);
      }
    } else {
      NodesRest(w, e);
    }
  }

  lemma FinishedRests(w: World, n: nat, ids: seq<nat>)
    requires n < |w.nodes|
    ensures w.nodes[n].stage.Finished? ==> Step(w, Act(n, ids)) == w
  {
    assert w.nodes[n].stage.Finished? ==> Step(w, Act(n, ids)).nodes == w.nodes;
  }

  lemma NodesRest(w: World, e: Event)
    requires !e.Fail? && (e.Act? ==> e.n >= |w.nodes|)
    ensures Step(w, e).nodes == w.nodes
  {
  }

  lemma WorkAfter(w: World, e: Event, most: nat)
    requires Invariant(w) && !e.Fail? && (e.Act? ==> |e.ids| <= most)
    ensures AllWork(Step(w, e), most) <= AllWork(w, most)
  {
    hide Invariant, Step;
    if e.Act? && e.n < |w.nodes| {
      WorkOfAll(w, e.n, e.ids, most);
    } else {
      NodesRest(w, e);
    }
  }

  lemma {:induction false} RoundWork(w: World, round: seq<Event>, most: nat)
    requires Steady(w) && InTime(w, round) && NoFailures(round) && Bounded(round, most)
    ensures var w' := Run(w, round);
      && Steady(w') && |w'.nodes| == |w.nodes| && AllWork(w', most) <= AllWork(w, most)
      && (AllWork(w', most) == AllWork(w, most) ==> Nearer(w, round, w'))
    decreases |round|
  {
    hide Step, Invariant, Unfailed, LocksHeld, NothingExpired, Spared, AllWork, Nearer;
    if round == [] {
      assert Nearer(w, [], w) by { NearerNone(w); }
    } else {
      StepIsSteady(w, round[0]);
      WorkAfter(w, round[0], most);
      RoundWork(Step(w, round[0]), round[1..], most);
      if AllWork(Run(w, round), most) == AllWork(w, most) {
        NearerFirst(w, round, Run(w, round), most);
      }
    }
  }

  lemma NearerNone(w: World)
    ensures Nearer(w, [], w)
  {
  }

  lemma FairRound(w: World, round: seq<Event>, most: nat)
    requires Steady(w) && InTime(w, round) && Fair(round, |w.nodes|, most) && !AllFinished(w)
    ensures RoundsLeft(Run(w, round), most) < RoundsLeft(w, most)
  {
    hide Steady, InTime, Run, Acts, AllWork, AllLooks, RoundsLeft, Holding;
    RoundWork(w, round, most);
    FewerRoundsIfNearer(w, round, most);
  }

  lemma FewerRoundsIfNearer(w: World, round: seq<Event>, most: nat)
    requires Fair(round, |w.nodes|, most) && !AllFinished(w)
    requires var w' := Run(w, round);
      && |w'.nodes| == |w.nodes| && AllWork(w', most) <= AllWork(w, most)
      && (AllWork(w', most) == AllWork(w, most) ==> Nearer(w, round, w'))
    ensures RoundsLeft(Run(w, round), most) < RoundsLeft(w, most)
  {
    hide InTime, Run, Acts, AllWork, AllLooks, RoundsLeft, Holding;
    FewerRounds(w, Run(w, round), most);
  }

  /** Every run in time ends, however its steps interleave, once all nodes have acted in that many rounds. */
  lemma {:induction false} FairRounds(w: World, rounds: seq<seq<Event>>, most: nat)
    requires Steady(w) && InTime(w, Flatten(rounds))
    requires forall i :: 0 <= i < |rounds| ==> Fair(rounds[i], |w.nodes|, most)
    requires |rounds| >= RoundsLeft(w, most)
    ensures AllFinished(Run(w, Flatten(rounds)))
    decreases |rounds|
  {
    hide Steady, InTime, Run, Acts, AllWork, AllLooks;
    if rounds == [] {
      hide *;
      NoneLeft(w, most);
    } else {
      var w1 := Run(w, rounds[0]);
      RunJoined(w, rounds[0], Flatten(rounds[1..]));
      RoundWork(w, rounds[0], most);
      if AllFinished(w) {
        StayFinished(w, rounds, most);
      } else {
        FairRound(w, rounds[0], most);
        FairRounds(w1, rounds[1..], most);
      }
    }
  }

  lemma NoneLeft(w: World, most: nat)
    requires RoundsLeft(w, most) == 0
    ensures AllFinished(Run(w, Flatten<Event>([])))
  {
    hide AllWork, AllLooks;
    NoWorkLeft(w, most);
    if AllWork(w, most) > 0 {
      Outweighs(0, AllWork(w, most), 5 * |w.nodes| + 1);
    }
  }

  lemma {:induction false} StayFinished(w: World, rounds: seq<seq<Event>>, most: nat)
    requires Steady(w) && InTime(w, Flatten(rounds)) && AllFinished(w)
    requires forall i :: 0 <= i < |rounds| ==> Fair(rounds[i], |w.nodes|, most)
    ensures AllFinished(Run(w, Flatten(rounds)))
    decreases |rounds|
  {
    hide Steady, InTime, Run, Acts, AllWork, AllFinished;
    if rounds == [] {
      NoRun(w);
    } else {
      RunJoined(w, rounds[0], Flatten(rounds[1..]));
      RoundWork(w, rounds[0], most);
      NoWorkLeft(w, most);
      NoWorkLeft(Run(w, rounds[0]), most);
      StayFinished(Run(w, rounds[0]), rounds[1..], most);
    }
  }

  lemma NoRun(w: World)
    ensures Run(w, []) == w
  {
  }

  // ---------------------------------------------------------- who is stuck

  /** It has prepared to write a lock whose lease is over by now. */
  predicate Late(node: Node, now: nat) { node.stage.Bid? && node.stage.deadline <= now }

  /** It has failed, or would write that lock, since nobody has taken it in between. */
  predicate Stuck(w: World, i: nat)
    requires i < |w.nodes|
  {
    var node := w.nodes[i];
    node.stage.Failed? || (Late(node, w.now) && node.stage.lock == None && node.key !in w.locks)
  }

  /** A node may still come to this key: the core data leads to every list of principals. */
  predicate MayVisit(node: Node, k: Key) {
    !node.stage.Finished? && !node.stage.Failed? && (node.key.Core? || node.key == k || k in node.rest || k in node.skipped)
  }

  /** Stuck nodes to whose keys nobody else will come. */
  ghost predicate Blocked(w: World, s: set<nat>) {
    && s != {}
    && (forall i :: i in s ==> i < |w.nodes| && Stuck(w, i))
    && (forall i, j :: i in s && i < |w.nodes| && j !in s && 0 <= j < |w.nodes| ==> !MayVisit(w.nodes[j], w.nodes[i].key))
  }

  lemma AdvanceVisits(node: Node, k: Key)
    requires AccountsAhead(node)
    ensures MayVisit(Advance(node), k) <==> k in node.rest || k in node.skipped
  {
    if node.rest != [] {
      assert node.rest == [node.rest[0]] + node.rest[1..] && node.rest[0] in node.rest;
    } else if node.skipped != [] {
      assert node.skipped == [node.skipped[0]] + node.skipped[1..] && node.skipped[0] in node.skipped;
    }
  }

  lemma BusyVisits(node: Node, k: Key)
    requires (node.stage.Seen? || node.stage.Bid?) && AccountsAhead(node)
    ensures MayVisit(Busy(node), k) <==> MayVisit(node, k)
  {
    if node.key.Account? {
      hide Advance;
      AdvanceVisits(node.(skipped := node.skipped + [node.key]), k);
    }
  }

  /** Where a node may come to after a step: nowhere else than before, and by no step that does not release the key. */
  lemma StepVisits(w: World, node: Node, ids: seq<nat>, k: Key)
    requires AccountsAhead(node)
    ensures MayVisit(NodeStep(w, node, ids), k) ==> MayVisit(node, k)
    ensures MayVisit(node, k) && (node.stage.Release? ==> k != node.key && (node.key.Core? ==> k in Accounts(ids)))
      ==> MayVisit(NodeStep(w, node, ids), k)
  {
    hide Advance, Busy;
    match node.stage
    case Seen(_) => BusyVisits(node, k);
    case Bid(_, _) => BusyVisits(node, k);
    case Release(_) =>
      if node.key.Core? {
        AdvanceVisits(Node(Try, Core, Accounts(ids), [], Accounts(ids)), k);
      } else {
        AdvanceVisits(node, k);
      }
    case _ =>
  }

  lemma OwnKeyOnly(w: World, node: Node, k: Key)
    requires !MayVisit(node, k)
    ensures k in LocksStep(w, node) <==> k in w.locks
  {
  }

  /** A stuck node can only take a lock that is over at once. */
  lemma StuckActs(w: World, n: nat, ids: seq<nat>)
    requires n < |w.nodes| && Stuck(w, n) && NothingExpired(Step(w, Act(n, ids)))
    ensures Step(w, Act(n, ids)).nodes[n] == w.nodes[n] && w.nodes[n].stage.Failed?
  {
    assert w.nodes[n].stage.Bid? ==> Holding(Step(w, Act(n, ids)).nodes[n]);
  }

  lemma BlockedStep(w: World, e: Event, s: set<nat>)
    requires Invariant(w) && Blocked(w, s) && NothingExpired(Step(w, e))
    ensures Blocked(Step(w, e), s)
  {
    hide Invariant, NodeStep, LocksStep, MayVisit, NothingExpired, AccountsAhead;
    match e
    case Act(n, ids) =>
      if n < |w.nodes| {
        StepOfOne(w, n, ids);
        var node := w.nodes[n];
        if n in s {
          StuckActs(w, n, ids);
          FailedRests(w, node, ids);
        } else {
          forall i | i in s
            ensures w.nodes[i].key in LocksStep(w, node) <==> w.nodes[i].key in w.locks
            ensures !MayVisit(NodeStep(w, node, ids), w.nodes[i].key)
          {
            OwnKeyOnly(w, node, w.nodes[i].key);
            Ahead(w, n);
            StepVisits(w, node, ids, w.nodes[i].key);
          }
        }
      }
    case Fail(n) =>
      if n < |w.nodes| {
        FailedStays(w, n);
      }
    case Tick(_) =>
    case Purge(_) =>
  }

  lemma FailedStays(w: World, n: nat)
    requires n < |w.nodes|
    ensures forall k :: !MayVisit(w.nodes[n].(stage := Failed(w.nodes[n].stage.Mark?)), k)
  {
  }

  lemma FailedRests(w: World, node: Node, ids: seq<nat>)
    requires node.stage.Failed?
    ensures LocksStep(w, node) == w.locks
  {
  }

  /** Nodes that are blocked stay blocked in every run in time. */
  lemma {:induction false} BlockedStays(w: World, events: seq<Event>, s: set<nat>)
    requires Invariant(w) && Blocked(w, s) && InTime(w, events)
    ensures Blocked(Run(w, events), s) && !AllFinished(Run(w, events))
    decreases |events|
  {
    hide Step;
    if events == [] {
      hide Invariant, InTime;
      var i :| i in s;
      assert Stuck(w, i);
    } else {
      hide Invariant, Blocked, NothingExpired, Spared, AllFinished;
      BlockedStep(w, events[0], s);
      StepKeepsInvariant(w, events[0]);
      BlockedStays(Step(w, events[0]), events[1..], s);
    }
  }

  // ------------------------------------------------------- a way to the end

  /** The principals at which nodes stand: a list that leads every node past each of them. */
  function Standing(nodes: seq<Node>): seq<nat> {
    if nodes == [] then []
    else (if nodes[0].key.Account? then [nodes[0].key.id] else []) + Standing(nodes[1..])
  }

  lemma {:induction false} StandingHas(nodes: seq<Node>, i: nat)
    requires i < |nodes| && nodes[i].key.Account?
    ensures nodes[i].key.id in Standing(nodes)
  {
    if i > 0 {
      StandingHas(nodes[1..], i - 1);
    }
  }

  lemma {:induction false} AccountsHas(ids: seq<nat>, id: nat)
    requires id in ids
    ensures Account(id) in Accounts(ids)
  {
    if ids[0] != id {
      AccountsHas(ids[1..], id);
    }
  }

  /** The list names every principal for which there is a late bid. */
  ghost predicate Covers(w: World, ids: seq<nat>) {
    forall i :: 0 <= i < |w.nodes| && Late(w.nodes[i], w.now) ==> w.nodes[i].key.Core? || w.nodes[i].key in Accounts(ids)
  }

  function LateOne(now: nat): Node -> nat { (node: Node) => if Late(node, now) then 1 else 0 }

  function LateBids(w: World): nat { Sum(LateOne(w.now), w.nodes) }

  /** Late bids for keys that are locked fail when their node acts; these have failed already. */
  ghost predicate OnlyStuck(w: World) {
    forall i :: 0 <= i < |w.nodes| && Late(w.nodes[i], w.now) ==> Stuck(w, i)
  }

  /** A node that is late, but not stuck, finds that its lock is not as it saw it. */
  lemma LateFails(w: World, i: nat)
    requires Steady(w) && NothingExpired(w) && i < |w.nodes| && Late(w.nodes[i], w.now) && !Stuck(w, i)
    ensures Lookup(w.locks, w.nodes[i].key) != w.nodes[i].stage.lock
  {
    var node := w.nodes[i];
    if node.key in w.locks && node.stage.lock.Some? {
      assert HeldBySome(w.nodes, node.key);
      var j :| 0 <= j < |w.nodes| && Holding(w.nodes[j]) && w.nodes[j].key == node.key;
      assert Sound(w.nodes[j], w.now, w.locks, w.done) && Sound(node, w.now, w.locks, w.done);
    }
  }

  /** The step of a node that is not stuck is in time, and makes no bid late. */
  lemma FreeStep(w: World, n: nat, ids: seq<nat>)
    requires Steady(w) && NothingExpired(w) && n < |w.nodes| && !Stuck(w, n)
    ensures var w' := Step(w, Act(n, ids));
      NothingExpired(w') && !Late(w'.nodes[n], w'.now)
    ensures Late(w.nodes[n], w.now) ==> LocksStep(w, w.nodes[n]) == w.locks
  {
    hide Invariant, Unfailed, LocksHeld;
    var node, node' := w.nodes[n], NodeStep(w, w.nodes[n], ids);
    if Late(node, w.now) {
      LateFails(w, n);
    }
    StepInTime(w, node, ids);
    hide NodeStep;
  }

  /** The lease of a lock taken in time, and that of a new bid, are not over. */
  lemma StepInTime(w: World, node: Node, ids: seq<nat>)
    requires Holding(node) ==> w.now < node.stage.deadline
    requires Late(node, w.now) ==> Lookup(w.locks, node.key) != node.stage.lock
    ensures var node' := NodeStep(w, node, ids);
      Holding(node') || node'.stage.Bid? ==> w.now < node'.stage.deadline
  {
  }

  /** The step of a node that is not stuck blocks nobody, if late bids for locked keys have been given up before. */
  lemma NobodyBlocked(w: World, n: nat, ids: seq<nat>, s: set<nat>)
    requires Steady(w) && NothingExpired(w) && n < |w.nodes| && !Stuck(w, n)
    requires OnlyStuck(w) || Late(w.nodes[n], w.now)
    requires Covers(w, ids) && Blocked(Step(w, Act(n, ids)), s)
    ensures Blocked(w, s)
  {
    hide Invariant, NodeStep, LocksStep, MayVisit, NothingExpired, Covers, LocksHeld, AccountsAhead;
    var w', node := Step(w, Act(n, ids)), w.nodes[n];
    FreeStep(w, n, ids);
    StepOfOne(w, n, ids);
    assert n !in s;
    forall i | i in s ensures Stuck(w, i) && (MayVisit(node, w.nodes[i].key) ==> MayVisit(w'.nodes[n], w.nodes[i].key)) {
      assert Stuck(w', i) && w'.nodes[i] == w.nodes[i] && Late(w.nodes[i], w.now);
      if MayVisit(node, w.nodes[i].key) {
        OthersKey(w, n, ids, i);
        Ahead(w, n);
        StepVisits(w, node, ids, w.nodes[i].key);
      }
    }
  }

  /** A node that releases its key is not the hope of those that are stuck at other keys. */
  lemma OthersKey(w: World, n: nat, ids: seq<nat>, i: nat)
    requires Invariant(w) && n < |w.nodes| && i < |w.nodes|
    requires Late(w.nodes[i], w.now) && Stuck(w, i) && Covers(w, ids)
    ensures w.nodes[n].stage.Release? ==>
      w.nodes[i].key != w.nodes[n].key && (w.nodes[n].key.Core? ==> w.nodes[i].key in Accounts(ids))
  {
    assert Sound(w.nodes[n], w.now, w.locks, w.done);
  }

  lemma StillCovers(w: World, n: nat, ids: seq<nat>)
    requires Steady(w) && NothingExpired(w) && n < |w.nodes| && !Stuck(w, n) && Covers(w, ids)
    ensures Covers(Step(w, Act(n, ids)), ids)
    ensures var w' := Step(w, Act(n, ids));
      LateBids(w') + (if Late(w.nodes[n], w.now) then 1 else 0) == LateBids(w)
  {
    hide Steady, NodeStep, LocksStep, NothingExpired, Late, Accounts;
    FreeStep(w, n, ids);
    StepOfOne(w, n, ids);
    SumAt(LateOne(w.now), w.nodes, n, NodeStep(w, w.nodes[n], ids));
  }

  /** Who can act: a late node whose key is locked, else a holder, else any node that is neither late nor finished. */
  ghost predicate CanAct(w: World, n: nat) {
    && n < |w.nodes| && !Stuck(w, n) && !w.nodes[n].stage.Finished?
    && (Late(w.nodes[n], w.now) || (OnlyStuck(w) && (Holding(w.nodes[n]) || w.locks == map[])))
  }

  /** If nobody can, either all have finished or those that are stuck are blocked. */
  lemma SomebodyCan(w: World)
    requires Steady(w) && forall n :: !CanAct(w, n)
    ensures AllFinished(w) || exists s :: Blocked(w, s)
  {
    hide Invariant;
    assert OnlyStuck(w) by {
      forall i | 0 <= i < |w.nodes| && Late(w.nodes[i], w.now) ensures Stuck(w, i) {
        assert !CanAct(w, i);
      }
    }
    forall i | 0 <= i < |w.nodes| ensures !Holding(w.nodes[i]) {
      assert !CanAct(w, i);
    }
    NoLocks(w);
    var s := set i: nat | i < |w.nodes| && Stuck(w, i);
    forall i | 0 <= i < |w.nodes| && i !in s ensures w.nodes[i].stage.Finished? {
      assert !CanAct(w, i);
    }
    if s != {} {
      assert Blocked(w, s);
    }
  }

  lemma OneAct(w: World, i: nat, ids: seq<nat>, more: seq<Event>)
    requires i < |w.nodes| && NothingExpired(w) && InTime(Step(w, Act(i, ids)), more)
    ensures InTime(w, [Act(i, ids)] + more) && Run(w, [Act(i, ids)] + more) == Run(Step(w, Act(i, ids)), more)
  {
    hide Step, NothingExpired;
    assert ([Act(i, ids)] + more)[1..] == more;
  }

  /** If nobody is blocked all nodes can finish: late bids are given up as soon as their keys are locked. */
  lemma {:induction false} CanFinish(w: World, ids: seq<nat>) returns (more: seq<Event>)
    requires Steady(w) && NothingExpired(w) && Covers(w, ids) && forall s :: !Blocked(w, s)
    ensures InTime(w, more) && AllFinished(Run(w, more))
    decreases LateBids(w), AllWork(w, |ids|), AllLooks(w)
  {
    hide Step, Invariant, NothingExpired, LocksHeld, Unfailed, Covers, Blocked, LateBids, AllWork, AllLooks, Stuck, OnlyStuck;
    if n :| CanAct(w, n) {
      var w' := Step(w, Act(n, ids));
      NextCan(w, n, ids);
      more := CanFinish(w', ids);
      OneAct(w, n, ids, more);
      more := [Act(n, ids)] + more;
    } else {
      SomebodyCan(w);
      more := [];
    }
  }

  lemma NextCan(w: World, n: nat, ids: seq<nat>)
    requires Steady(w) && NothingExpired(w) && Covers(w, ids) && (forall s :: !Blocked(w, s)) && CanAct(w, n)
    ensures var w' := Step(w, Act(n, ids));
      && Steady(w') && NothingExpired(w') && Covers(w', ids) && (forall s :: !Blocked(w', s))
      && (LateBids(w') < LateBids(w) ||
          (LateBids(w') == LateBids(w) && (AllWork(w', |ids|) < AllWork(w, |ids|) ||
           (AllWork(w', |ids|) == AllWork(w, |ids|) && AllLooks(w') < AllLooks(w)))))
  {
    hide Step, Invariant, NothingExpired, LocksHeld, Covers, Blocked, LateBids, AllWork, AllLooks, OnlyStuck, Late;
    StepIsSteady(w, Act(n, ids));
    FreeStep(w, n, ids);
    StillCovers(w, n, ids);
    WorkOfAll(w, n, ids, |ids|);
    forall s ensures !Blocked(Step(w, Act(n, ids)), s) {
      if Blocked(Step(w, Act(n, ids)), s) {
        NobodyBlocked(w, n, ids, s);
      }
    }
  }

  // ------------------------------------------------------------- the results

  lemma Reached(now: nat, count: nat, events: seq<Event>)
    requires InTime(Start(now, count), events) && NoFailures(events)
    ensures var w := Run(Start(now, count), events);
      Steady(w) && NothingExpired(w)
  {
    var s := Start(now, count);
    StartIsInvariant(now, count);
    hide Run, InTime, Invariant;
    RunIsSteady(s, events);
  }

  /** From a world that is reached in time and without failures, all nodes can finish in time if and only if no nodes
      are blocked. */
  lemma Progress(now: nat, count: nat, events: seq<Event>)
    requires InTime(Start(now, count), events) && NoFailures(events)
    ensures var w := Run(Start(now, count), events);
      (exists more :: InTime(w, more) && AllFinished(Run(w, more))) <==> !exists s :: Blocked(w, s)
  {
    hide Run, InTime, Start, Invariant, NothingExpired, Blocked, AllFinished, Standing;
    var w := Run(Start(now, count), events);
    Reached(now, count, events);
    if s :| Blocked(w, s) {
      forall more | InTime(w, more) ensures !AllFinished(Run(w, more)) {
        BlockedStays(w, more, s);
      }
    } else {
      var ids := Standing(w.nodes);
      StandingCovers(w);
      var more := CanFinish(w, ids);
    }
  }

  lemma StandingCovers(w: World)
    ensures Covers(w, Standing(w.nodes))
  {
    forall i | 0 <= i < |w.nodes| && w.nodes[i].key.Account?
      ensures w.nodes[i].key in Accounts(Standing(w.nodes))
    {
      StandingHas(w.nodes, i);
      AccountsHas(Standing(w.nodes), w.nodes[i].key.id);
    }
  }

  /** Not only can they: whatever the order of the steps, the principals given, the purges and the time that passes, a
      run in time in which all nodes keep acting has finished after so many rounds. */
  lemma FairRunEnds(now: nat, count: nat, events: seq<Event>, rounds: seq<seq<Event>>, most: nat)
    requires InTime(Start(now, count), events) && NoFailures(events)
    requires var w := Run(Start(now, count), events);
      && InTime(w, Flatten(rounds)) && |rounds| >= RoundsLeft(w, most)
      && forall i :: 0 <= i < |rounds| ==> Fair(rounds[i], |w.nodes|, most)
    ensures AllFinished(Run(Run(Start(now, count), events), Flatten(rounds)))
  {
    Reached(now, count, events);
    hide Run, InTime, Start, Steady, Fair;
    FairRounds(Run(Start(now, count), events), rounds, most);
  }

  /** No node is about to write a lock whose lease is over already. */
  ghost predicate BidsLive(w: World) {
    forall i :: 0 <= i < |w.nodes| ==> !Late(w.nodes[i], w.now)
  }

  ghost predicate OnlyActs(events: seq<Event>) {
    forall i :: 0 <= i < |events| ==> events[i].Act?
  }

  lemma {:induction false} ActsAreInTime(w: World, events: seq<Event>)
    requires NothingExpired(w) && BidsLive(w) && OnlyActs(events)
    ensures InTime(w, events)
    decreases |events|
  {
    hide Step, NothingExpired, BidsLive;
    if events != [] {
      ActInTime(w, events[0]);
      ActsAreInTime(Step(w, events[0]), events[1..]);
    }
  }

  lemma ActInTime(w: World, e: Event)
    requires NothingExpired(w) && BidsLive(w) && e.Act?
    ensures NothingExpired(Step(w, e)) && BidsLive(Step(w, e))
  {
    if e.n < |w.nodes| {
      hide NodeStep, LocksStep;
      StepInTime(w, w.nodes[e.n], e.ids);
    }
  }

  /** Where no bid is late, and no more time passes, every such run is in time. */
  lemma QuickRunEnds(now: nat, count: nat, events: seq<Event>, rounds: seq<seq<Event>>, most: nat)
    requires InTime(Start(now, count), events) && NoFailures(events)
    requires var w := Run(Start(now, count), events);
      && BidsLive(w) && OnlyActs(Flatten(rounds)) && |rounds| >= RoundsLeft(w, most)
      && forall i :: 0 <= i < |rounds| ==> Fair(rounds[i], |w.nodes|, most)
    ensures var w := Run(Start(now, count), events);
      InTime(w, Flatten(rounds)) && AllFinished(Run(w, Flatten(rounds)))
  {
    Reached(now, count, events);
    hide Run, InTime, Start, Steady, Fair, NothingExpired, BidsLive, OnlyActs;
    ActsAreInTime(Run(Start(now, count), events), Flatten(rounds));
    FairRounds(Run(Start(now, count), events), rounds, most);
  }

  /** A lone node gets stuck by waiting for as long as its lease between two steps of `try_lock`. */
  lemma BlockedReached(now: nat)
    ensures exists events :: InTime(Start(now, 1), events) && NoFailures(events) && Blocked(Run(Start(now, 1), events), {0})
  {
    var a := Act(0, []);
    var w0 := Start(now, 1);
    var w1 := Step(w0, a);
    var w2 := Step(w1, a);
    var w3 := Step(w2, Tick(300));
    assert NothingExpired(w0) && NothingExpired(w1) && NothingExpired(w2) && InTime(w3, []) && Run(w3, []) == w3;
    assert Stuck(w3, 0);
    assert Blocked(w3, {0});
    hide Step, Blocked, NothingExpired, Start, InTime, Run;
    RunFirst(w2, Tick(300), []);
    RunFirst(w1, a, [Tick(300)] + []);
    RunFirst(w0, a, [a] + ([Tick(300)] + []));
    assert NoFailures([a] + ([a] + ([Tick(300)] + [])));
  }
}
