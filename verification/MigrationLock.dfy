/** The cluster migration protocol (migration/src/v011.rs, repeated by v013.rs): nodes that share lock keys and done
    keys, whose steps interleave in any order, over `try_lock` of store/src/dispatch/lookup.rs. */
module MigrationLock {
  import opened Wrappers

  /** What is migrated: the core data, then each principal. */
  datatype Key = Core | Account(id: nat)

  const DONE_LIFETIME: nat := 86400

  function LeaseOf(k: Key): nat { if k.Core? then 5 * 60 else 3 * 60 }

  /** Where a node stands with its key. The lock it saw, and the expiry it wrote, travel along. */
  datatype Stage =
    | Try
    | Seen(lock: Option<nat>)
    | Bid(lock: Option<nat>, deadline: nat)
    | Check(deadline: nat)
    | Migrate(deadline: nat)
    | Mark(deadline: nat)
    | Release(deadline: nat)
    | Finished
    | Failed(lost: bool)

  /** `rest` and `skipped` are what the account loop has yet to visit, in this round and in the next one;
      `given` remembers the list it started from. */
  datatype Node = Node(stage: Stage, key: Key, rest: seq<Key>, skipped: seq<Key>, given: seq<Key>)

  /** `log` remembers the migrations that were completed. */
  datatype World = World(now: nat, locks: map<Key, nat>, done: map<Key, nat>, nodes: seq<Node>, log: seq<Key>)

  /** `Purge` is the second half of a purge of the store, which deletes the locks that its first half found expired. */
  datatype Event = Act(n: nat, ids: seq<nat>) | Fail(n: nat) | Tick(seconds: nat) | Purge(keys: set<Key>)

  // ------------------------------------------------------------------ the steps

  function Lookup(m: map<Key, nat>, k: Key): Option<nat> { if k in m then Some(m[k]) else None }

  predicate Live(expiry: Option<nat>, now: nat) { expiry.Some? && expiry.value > now }

  /** On to the next principal, or to a round over those that were skipped. */
  function Advance(node: Node): Node {
    if node.rest != [] then Node(Try, node.rest[0], node.rest[1..], node.skipped, node.given)
    else if node.skipped != [] then Node(Try, node.skipped[0], node.skipped[1..], [], node.given)
    else node.(stage := Finished)
  }

  /** The lock is busy: the core loop tries again, the account loop skips the principal. */
  function Busy(node: Node): Node {
    if node.key.Core? then node.(stage := Try) else Advance(node.(skipped := node.skipped + [node.key]))
  }

  /** The account loop starts on a shuffled list. */
  function Begin(node: Node, ids: seq<nat>): Node {
    Advance(Node(Try, Core, Accounts(ids), [], Accounts(ids)))
  }

  function Accounts(ids: seq<nat>): (keys: seq<Key>)
    ensures |keys| == |ids| && forall k :: k in keys ==> k.Account?
  {
    if ids == [] then [] else [Account(ids[0])] + Accounts(ids[1..])
  }

  function NodeStep(w: World, node: Node, ids: seq<nat>): Node {
    match node.stage
    case Try => node.(stage := Seen(Lookup(w.locks, node.key)))
    case Seen(lock) =>
      if Live(lock, w.now) then Busy(node) else node.(stage := Bid(lock, w.now + LeaseOf(node.key)))
    case Bid(lock, deadline) =>
      if Lookup(w.locks, node.key) == lock then node.(stage := Check(deadline)) else Busy(node)
    case Check(deadline) =>
      node.(stage := if Live(Lookup(w.done, node.key), w.now) then Release(deadline) else Migrate(deadline))
    case Migrate(deadline) => node.(stage := Mark(deadline))
    case Mark(deadline) => node.(stage := Release(deadline))
    case Release(_) => if node.key.Core? then Begin(node, ids) else Advance(node)
    case Finished => node
    case Failed(_) => node
  }

  function LocksStep(w: World, node: Node): map<Key, nat> {
    match node.stage
    case Bid(lock, deadline) =>
      if Lookup(w.locks, node.key) == lock then w.locks[node.key := deadline] else w.locks
    case Release(_) => w.locks - {node.key}
    case _ => w.locks
  }

  /** A node that fails, by an error or a crash, leaves its lock behind; it loses its work between migrating and
      marking. */
  function Step(w: World, e: Event): World {
    match e
    case Act(n, ids) =>
      if n < |w.nodes| then
        var node := w.nodes[n];
        World(w.now, LocksStep(w, node),
              if node.stage.Mark? then w.done[node.key := w.now + DONE_LIFETIME] else w.done,
              w.nodes[n := NodeStep(w, node, ids)],
              if node.stage.Migrate? then w.log + [node.key] else w.log)
      else w
    case Fail(n) =>
      if n < |w.nodes| && !w.nodes[n].stage.Finished? && !w.nodes[n].stage.Failed? then
        w.(nodes := w.nodes[n := w.nodes[n].(stage := Failed(w.nodes[n].stage.Mark?))])
      else w
    case Tick(seconds) => w.(now := w.now + seconds)
    case Purge(keys) => w.(locks := w.locks - keys)
  }

  function Start(now: nat, count: nat): World {
    World(now, map[], map[], seq(count, _ => Node(Try, Core, [], [], [])), [])
  }

  function Run(w: World, events: seq<Event>): World
    decreases |events|
  {
    if events == [] then w else Run(Step(w, events[0]), events[1..])
  }

  // -------------------------------------------------------------- what is proved

  predicate Holding(node: Node) {
    node.stage.Check? || node.stage.Migrate? || node.stage.Mark? || node.stage.Release?
  }

  /** No lease and no done key is outlived: what the protocol's lifetimes are chosen for. */
  ghost predicate NothingExpired(w: World) {
    && (forall i :: 0 <= i < |w.nodes| && Holding(w.nodes[i]) ==> w.now < w.nodes[i].stage.deadline)
    && (forall k :: k in w.done ==> w.now < w.done[k])
  }

  /** A purge deletes no lock that was taken between its two halves. */
  ghost predicate Spared(w: World, e: Event) {
    e.Purge? ==> forall i :: 0 <= i < |w.nodes| && Holding(w.nodes[i]) ==> w.nodes[i].key !in e.keys
  }

  /** A run in which no lease and no done key is outlived and purges spare the locks just taken. */
  ghost predicate InTime(w: World, events: seq<Event>)
    decreases |events|
  {
    NothingExpired(w) && (events != [] ==> Spared(w, events[0]) && InTime(Step(w, events[0]), events[1..]))
  }

  function Times(log: seq<Key>, k: Key): (n: nat)
    ensures n > 0 ==> log != []
  {
    if log == [] then 0 else Times(log[..|log| - 1], k) + if log[|log| - 1] == k then 1 else 0
  }

  predicate Marking(node: Node, k: Key) { node.key == k && node.stage.Mark? }

  predicate Lost(node: Node, k: Key) { node.key == k && node.stage.Failed? && node.stage.lost }

  /** Nodes that migrated the key and have not marked it: about to, or never. */
  function Gaps(nodes: seq<Node>, k: Key): nat {
    if nodes == [] then 0
    else Gaps(nodes[1..], k) + if Marking(nodes[0], k) || Lost(nodes[0], k) then 1 else 0
  }

  function Losses(nodes: seq<Node>, k: Key): nat {
    if nodes == [] then 0 else Losses(nodes[1..], k) + if Lost(nodes[0], k) then 1 else 0
  }

  ghost predicate Exclusive(nodes: seq<Node>) {
    forall i, j :: 0 <= i < j < |nodes| && Holding(nodes[i]) && Holding(nodes[j]) ==> nodes[i].key != nodes[j].key
  }

  /** One node: its lock is its own, work is done on what is not yet done, and nothing it was given is forgotten. */
  ghost predicate Sound(node: Node, now: nat, locks: map<Key, nat>, done: map<Key, nat>) {
    && (node.stage.Bid? ==> !Live(node.stage.lock, now))
    && (Holding(node) ==> Lookup(locks, node.key) == Some(node.stage.deadline))
    && (node.stage.Migrate? || node.stage.Mark? ==> node.key !in done)
    && (node.stage.Release? ==> node.key in done)
    && (node.key.Account? || node.stage.Finished? ==> Core in done)
    && (node.key.Core? && !node.stage.Finished? ==> node.given == [] && node.rest == [] && node.skipped == [])
    && (node.stage.Finished? ==> node.rest == [] && node.skipped == [])
    && (forall k :: k in node.rest || k in node.skipped ==> k.Account?)
    && (forall k :: k in node.given ==> Remembered(node, done, k))
  }

  ghost predicate Remembered(node: Node, done: map<Key, nat>, k: Key) {
    k in done || k in node.rest || k in node.skipped || (k == node.key && !node.stage.Finished?)
  }

  ghost predicate Accounted(w: World, k: Key) {
    Times(w.log, k) == Gaps(w.nodes, k) + if k in w.done then 1 else 0
  }

  ghost predicate Invariant(w: World) {
    && Exclusive(w.nodes)
    && (forall i :: 0 <= i < |w.nodes| ==> Sound(w.nodes[i], w.now, w.locks, w.done))
    && (forall k :: Accounted(w, k))
    && (w.log != [] ==> w.log[0] == Core)
  }

  // ----------------------------------------------------------------- the counts

  lemma {:induction false} GapsAt(nodes: seq<Node>, i: nat, node: Node, k: Key)
    requires i < |nodes|
    ensures Gaps(nodes[i := node], k) + (if Marking(nodes[i], k) || Lost(nodes[i], k) then 1 else 0)
         == Gaps(nodes, k) + if Marking(node, k) || Lost(node, k) then 1 else 0
  {
    if i == 0 {
      assert nodes[0 := node][1..] == nodes[1..];
    } else {
      GapsAt(nodes[1..], i - 1, node, k);
      assert nodes[i := node][1..] == nodes[1..][i - 1 := node];
    }
  }

  lemma {:induction false} NoGaps(nodes: seq<Node>, k: Key)
    requires forall i :: 0 <= i < |nodes| ==> nodes[i].stage.Try?
    ensures Gaps(nodes, k) == 0
  {
    if nodes != [] {
      NoGaps(nodes[1..], k);
    }
  }

  lemma TimesMore(log: seq<Key>, more: Key, k: Key)
    ensures Times(log + [more], k) == Times(log, k) + if more == k then 1 else 0
  {
    assert (log + [more])[..|log|] == log;
  }

  /** At most one node is about to mark a key, and none where it is marked already. */
  lemma {:induction false} GapsAreLosses(nodes: seq<Node>, k: Key)
    requires Exclusive(nodes)
    ensures Losses(nodes, k) <= Gaps(nodes, k) <= Losses(nodes, k) + 1
    ensures (forall i :: 0 <= i < |nodes| ==> !Marking(nodes[i], k)) ==> Gaps(nodes, k) == Losses(nodes, k)
  {
    if nodes != [] {
      var rest := nodes[1..];
      assert forall i :: 0 <= i < |rest| ==> rest[i] == nodes[i + 1];
      GapsAreLosses(rest, k);
    }
  }

  // ------------------------------------------------------------------ each step

  lemma AdvanceIsSound(node: Node, now: nat, locks: map<Key, nat>, done: map<Key, nat>)
    requires Core in done
    requires forall k :: k in node.rest || k in node.skipped ==> k.Account?
    requires forall k :: k in node.given ==> k in done || k in node.rest || k in node.skipped
    ensures Sound(Advance(node), now, locks, done) && !Holding(Advance(node))
  {
    var next := Advance(node);
    if node.rest != [] {
      assert node.rest == [node.rest[0]] + node.rest[1..] && node.rest[0].Account?;
    } else if node.skipped != [] {
      assert node.skipped == [node.skipped[0]] + node.skipped[1..] && node.skipped[0].Account?;
    }
    assert forall k :: k in node.given ==> Remembered(next, done, k);
  }

  lemma BusyIsSound(node: Node, now: nat, locks: map<Key, nat>, done: map<Key, nat>)
    requires Sound(node, now, locks, done) && (node.stage.Seen? || node.stage.Bid?)
    ensures Sound(Busy(node), now, locks, done) && !Holding(Busy(node))
  {
    if node.key.Account? {
      hide Advance;
      assert forall k :: k in node.given ==> Remembered(node, done, k);
      AdvanceIsSound(node.(skipped := node.skipped + [node.key]), now, locks, done);
    } else {
      assert forall k :: k in node.given ==> Remembered(node, done, k);
    }
  }

  /** The acting node stays sound, and holds its key afterwards only if it did before or found the lock free. */
  lemma ActorIsSound(w: World, n: nat, ids: seq<nat>)
    requires n < |w.nodes| && NothingExpired(w) && Invariant(w)
    ensures var w' := Step(w, Act(n, ids));
      Sound(w'.nodes[n], w'.now, w'.locks, w'.done)
  {
    hide Exclusive, Accounted, Advance, Busy, Times, Gaps;
    var node, w' := w.nodes[n], Step(w, Act(n, ids));
    assert Sound(node, w.now, w.locks, w.done);
    assert forall k :: k in node.given ==> Remembered(node, w.done, k);
    match node.stage
    case Seen(lock) =>
      if Live(lock, w.now) {
        BusyIsSound(node, w.now, w.locks, w.done);
      }
    case Bid(lock, deadline) =>
      if Lookup(w.locks, node.key) != lock {
        BusyIsSound(node, w.now, w.locks, w.done);
      }
    case Release(_) =>
      if node.key.Core? {
        AdvanceIsSound(Node(Try, Core, Accounts(ids), [], Accounts(ids)), w'.now, w'.locks, w'.done);
      } else {
        AdvanceIsSound(node, w'.now, w'.locks, w'.done);
      }
    case _ =>
      assert forall k :: k in node.given ==> Remembered(w'.nodes[n], w'.done, k);
  }

  /** A lock that a holder in time has written is not free to others. */
  lemma LockIsTaken(w: World, i: nat, n: nat)
    requires i < |w.nodes| && n < |w.nodes| && NothingExpired(w)
    requires Sound(w.nodes[i], w.now, w.locks, w.done) && Sound(w.nodes[n], w.now, w.locks, w.done)
    requires Holding(w.nodes[i]) && w.nodes[n].stage.Bid? && w.nodes[n].key == w.nodes[i].key
    ensures Lookup(w.locks, w.nodes[n].key) != w.nodes[n].stage.lock
  {
  }

  /** Who holds a key after a step held it before, or has just found its lock free. */
  lemma ActorHolds(w: World, n: nat, ids: seq<nat>)
    requires n < |w.nodes|
    ensures var w' := Step(w, Act(n, ids));
      Holding(w'.nodes[n]) ==>
        w'.nodes[n].key == w.nodes[n].key &&
        (Holding(w.nodes[n]) ||
         (w.nodes[n].stage.Bid? && Lookup(w.locks, w.nodes[n].key) == w.nodes[n].stage.lock))
  {
  }

  lemma StillExclusive(w: World, n: nat, ids: seq<nat>)
    requires n < |w.nodes| && NothingExpired(w) && Invariant(w)
    ensures Exclusive(Step(w, Act(n, ids)).nodes)
  {
    hide Accounted, Advance, Busy, Times, Gaps, Sound, NothingExpired;
    ActorHolds(w, n, ids);
    var w' := Step(w, Act(n, ids));
    forall i | 0 <= i < |w.nodes| && i != n && Holding(w.nodes[i]) && Holding(w'.nodes[n])
      ensures w.nodes[i].key != w'.nodes[n].key
    {
      if !Holding(w.nodes[n]) && w.nodes[i].key == w.nodes[n].key {
        LockIsTaken(w, i, n);
      }
    }
    hide Step;
    OnlyOneChanged(w.nodes, w'.nodes, n);
  }

  lemma OnlyOneChanged(nodes: seq<Node>, nodes': seq<Node>, n: nat)
    requires n < |nodes| == |nodes'| && Exclusive(nodes)
    requires forall i :: 0 <= i < |nodes| && i != n ==> nodes'[i] == nodes[i]
    requires forall i :: 0 <= i < |nodes| && i != n && Holding(nodes[i]) && Holding(nodes'[n]) ==>
               nodes[i].key != nodes'[n].key
    ensures Exclusive(nodes')
  {
  }

  /** The other nodes keep their locks: the actor writes only a lock that is free or its own. */
  lemma OthersAreSound(w: World, n: nat, ids: seq<nat>, i: nat)
    requires n < |w.nodes| && i < |w.nodes| && i != n && NothingExpired(w) && Invariant(w)
    ensures var w' := Step(w, Act(n, ids)); Sound(w.nodes[i], w'.now, w'.locks, w'.done)
  {
    hide Accounted, Advance, Busy, Times, Gaps;
    var w' := Step(w, Act(n, ids));
    assert Sound(w.nodes[i], w.now, w.locks, w.done) && Sound(w.nodes[n], w.now, w.locks, w.done);
    if Holding(w.nodes[i]) {
      if w.nodes[n].stage.Bid? && w.nodes[n].key == w.nodes[i].key {
        LockIsTaken(w, i, n);
      }
      assert Lookup(w'.locks, w.nodes[i].key) == Lookup(w.locks, w.nodes[i].key);
    }
    assert forall k :: k in w.done ==> k in w'.done;
    assert forall k :: k in w.nodes[i].given ==> Remembered(w.nodes[i], w.done, k);
    assert forall k :: Remembered(w.nodes[i], w.done, k) ==> Remembered(w.nodes[i], w'.done, k);
  }

  lemma StillAccounted(w: World, n: nat, ids: seq<nat>, k: Key)
    requires n < |w.nodes| && Sound(w.nodes[n], w.now, w.locks, w.done) && Accounted(w, k)
    ensures Accounted(Step(w, Act(n, ids)), k)
  {
    hide Advance, Busy, Times, Gaps;
    var w' := Step(w, Act(n, ids));
    GapsAt(w.nodes, n, w'.nodes[n], k);
    TimesMore(w.log, w.nodes[n].key, k);
    Onward(w, w.nodes[n], ids, k);
  }

  /** A node leaves the gap by marking, and enters it by migrating. */
  lemma Onward(w: World, node: Node, ids: seq<nat>, k: Key)
    ensures var node' := NodeStep(w, node, ids);
      && (Marking(node', k) <==> node.stage.Migrate? && node.key == k)
      && (Lost(node', k) <==> Lost(node, k))
  {
  }

  /** Principals are migrated after the core data. */
  lemma CoreFirst(w: World, n: nat)
    requires n < |w.nodes| && Invariant(w) && w.nodes[n].stage.Migrate?
    ensures (w.log + [w.nodes[n].key])[0] == Core
  {
    assert Sound(w.nodes[n], w.now, w.locks, w.done);
    assert Accounted(w, Core);
  }

  lemma ActKeepsInvariant(w: World, n: nat, ids: seq<nat>)
    requires n < |w.nodes| && NothingExpired(w) && Invariant(w)
    ensures Invariant(Step(w, Act(n, ids)))
  {
    hide Sound, Exclusive, Accounted, NothingExpired, NodeStep, LocksStep;
    var w' := Step(w, Act(n, ids));
    StillExclusive(w, n, ids);
    ActorIsSound(w, n, ids);
    forall i | 0 <= i < |w'.nodes| ensures Sound(w'.nodes[i], w'.now, w'.locks, w'.done) {
      if i != n {
        OthersAreSound(w, n, ids, i);
      }
    }
    forall k ensures Accounted(w', k) {
      StillAccounted(w, n, ids, k);
    }
    if w.nodes[n].stage.Migrate? {
      CoreFirst(w, n);
    }
  }

  lemma FailKeepsInvariant(w: World, n: nat)
    requires Invariant(w)
    ensures Invariant(Step(w, Fail(n)))
  {
    hide Gaps, Times;
    var w' := Step(w, Fail(n));
    if w' != w {
      var node := w.nodes[n];
      assert Sound(node, w.now, w.locks, w.done);
      assert forall k :: k in node.given ==> Remembered(node, w.done, k);
      assert forall k :: Remembered(node, w.done, k) ==> Remembered(w'.nodes[n], w.done, k);
      OnlyOneChanged(w.nodes, w'.nodes, n);
      forall k ensures Accounted(w', k) {
        assert Accounted(w, k);
        GapsAt(w.nodes, n, w'.nodes[n], k);
      }
    }
  }

  lemma TickKeepsInvariant(w: World, seconds: nat)
    requires Invariant(w)
    ensures Invariant(Step(w, Tick(seconds)))
  {
    hide Gaps, Times;
    var w' := Step(w, Tick(seconds));
    forall i | 0 <= i < |w.nodes| ensures Sound(w.nodes[i], w'.now, w.locks, w.done) {
      assert Sound(w.nodes[i], w.now, w.locks, w.done);
      assert forall k :: k in w.nodes[i].given ==> Remembered(w.nodes[i], w.done, k);
    }
    forall k ensures Accounted(w', k) {
      assert Accounted(w, k);
    }
  }

  /** A purge does no harm exactly when nobody holds a key whose lock it deletes. */
  lemma PurgeKeepsInvariant(w: World, keys: set<Key>)
    requires Invariant(w)
    ensures Invariant(Step(w, Purge(keys))) <==> Spared(w, Purge(keys))
  {
    hide Gaps, Times;
    var w' := Step(w, Purge(keys));
    forall i | 0 <= i < |w.nodes|
      ensures Sound(w.nodes[i], w'.now, w'.locks, w'.done) <==> Holding(w.nodes[i]) ==> w.nodes[i].key !in keys
    {
      assert Sound(w.nodes[i], w.now, w.locks, w.done);
      assert forall k :: k in w.nodes[i].given ==> Remembered(w.nodes[i], w.done, k);
    }
    forall k ensures Accounted(w', k) {
      assert Accounted(w, k);
    }
  }

  /** With nothing between its halves a purge does no harm. */
  lemma PurgeAtOnce(w: World, keys: set<Key>)
    requires Invariant(w) && NothingExpired(w)
    requires forall k :: k in keys ==> k in w.locks && w.locks[k] <= w.now
    ensures Spared(w, Purge(keys))
  {
    forall i | 0 <= i < |w.nodes| && Holding(w.nodes[i]) ensures w.nodes[i].key !in keys {
      assert Sound(w.nodes[i], w.now, w.locks, w.done);
    }
  }

  lemma {:induction false} RunKeepsInvariant(w: World, events: seq<Event>)
    requires Invariant(w) && InTime(w, events)
    ensures Invariant(Run(w, events))
    decreases |events|
  {
    hide Invariant, Step, NothingExpired, Spared;
    if events != [] {
      StepKeepsInvariant(w, events[0]);
      RunKeepsInvariant(Step(w, events[0]), events[1..]);
    }
  }

  lemma StepKeepsInvariant(w: World, e: Event)
    requires Invariant(w) && NothingExpired(w) && Spared(w, e)
    ensures Invariant(Step(w, e))
  {
    match e
    case Act(n, ids) =>
      if n < |w.nodes| {
        hide Invariant, NothingExpired;
        ActKeepsInvariant(w, n, ids);
      }
    case Fail(n) => hide Invariant; FailKeepsInvariant(w, n);
    case Tick(seconds) => hide Invariant; TickKeepsInvariant(w, seconds);
    case Purge(keys) => hide Invariant; PurgeKeepsInvariant(w, keys);
  }

  lemma StartIsInvariant(now: nat, count: nat)
    ensures Invariant(Start(now, count))
  {
    var w := Start(now, count);
    forall k ensures Accounted(w, k) {
      NoGaps(w.nodes, k);
    }
  }

  // ------------------------------------------------------------------ the results

  /** Over every run in time, whoever fails and however the steps interleave: no two nodes work on one key at once, and
      the core data comes first. */
  lemma NoTwoAtOnce(now: nat, count: nat, events: seq<Event>, i: nat, j: nat)
    requires InTime(Start(now, count), events)
    requires i < j < |Run(Start(now, count), events).nodes|
    ensures var w := Run(Start(now, count), events);
      Holding(w.nodes[i]) && Holding(w.nodes[j]) ==> w.nodes[i].key != w.nodes[j].key
    ensures var log := Run(Start(now, count), events).log;
      log != [] ==> log[0] == Core
  {
    hide Run, Holding;
    StartIsInvariant(now, count);
    RunKeepsInvariant(Start(now, count), events);
  }

  /** A key is migrated at most once, and once more for each node that failed between migrating and marking it. */
  lemma AtMostOnce(now: nat, count: nat, events: seq<Event>, k: Key)
    requires InTime(Start(now, count), events)
    ensures var w := Run(Start(now, count), events);
      && Losses(w.nodes, k) <= Times(w.log, k) <= Losses(w.nodes, k) + 1
      && (k in w.done ==> Times(w.log, k) == Losses(w.nodes, k) + 1)
  {
    hide Run, Losses, Gaps, Times;
    StartIsInvariant(now, count);
    RunKeepsInvariant(Start(now, count), events);
    var w := Run(Start(now, count), events);
    assert Accounted(w, k);
    GapsAreLosses(w.nodes, k);
    if k in w.done {
      forall i | 0 <= i < |w.nodes| ensures !Marking(w.nodes[i], k) {
        assert Sound(w.nodes[i], w.now, w.locks, w.done);
      }
    }
  }

  /** A node leaves the account loop only when the core data and every principal it was given are done; if nobody
      failed in the gap, each was migrated exactly once, by this node or by another. */
  lemma FinishedMeansDone(now: nat, count: nat, events: seq<Event>, i: nat)
    requires InTime(Start(now, count), events)
    requires i < |Run(Start(now, count), events).nodes|
    requires Run(Start(now, count), events).nodes[i].stage.Finished?
    ensures var w := Run(Start(now, count), events);
      forall k :: k == Core || k in w.nodes[i].given ==>
        k in w.done && Times(w.log, k) == Losses(w.nodes, k) + 1
  {
    hide Run, Losses, Times;
    StartIsInvariant(now, count);
    RunKeepsInvariant(Start(now, count), events);
    var w := Run(Start(now, count), events);
    assert Sound(w.nodes[i], w.now, w.locks, w.done);
    forall k | k == Core || k in w.nodes[i].given
      ensures k in w.done && Times(w.log, k) == Losses(w.nodes, k) + 1
    {
      if k != Core {
        assert Remembered(w.nodes[i], w.done, k);
      }
      AtMostOnce(now, count, events, k);
    }
  }

  /** The lock of a node that failed is free to others after five minutes for the core data, three for a principal. */
  lemma LeaseLasts(w: World, n: nat, m: nat, seconds: nat)
    requires n < |w.nodes| && m < |w.nodes| && n != m && w.nodes[m].key == w.nodes[n].key
    requires w.nodes[n].stage == Seen(None) && w.nodes[m].stage == Try && w.nodes[n].key !in w.locks
    ensures var taken := Step(Step(w, Act(n, [])), Act(n, []));
      var later := Step(Step(taken, Fail(n)), Tick(seconds));
      Step(Step(later, Act(m, [])), Act(m, [])).nodes[m].stage.Bid? <==>
        seconds >= if w.nodes[n].key == Core then 300 else 180
  {
    hide Busy;
    BusyMakesNoBid(w.nodes[m]);
    var w1 := Step(w, Act(n, []));
    var w2 := Step(w1, Act(n, []));
    assert w2.locks == w.locks[w.nodes[n].key := w.now + LeaseOf(w.nodes[n].key)];
    var later := Step(Step(w2, Fail(n)), Tick(seconds));
    assert later.locks == w2.locks && later.nodes[m] == w.nodes[m] && later.now == w.now + seconds;
    var w5 := Step(later, Act(m, []));
    assert w5.nodes[m].stage == Seen(Some(w.now + LeaseOf(w.nodes[n].key)));
    BusyMakesNoBid(w5.nodes[m]);
  }

  lemma BusyMakesNoBid(node: Node)
    ensures !Busy(node).stage.Bid? || node.stage.Bid?
  {
  }

  /** A key that is done counts as done for a day. */
  lemma DoneLasts(w: World, n: nat, m: nat, seconds: nat)
    requires n < |w.nodes| && m < |w.nodes| && n != m && w.nodes[m].key == w.nodes[n].key
    requires w.nodes[n].stage.Mark? && w.nodes[m].stage.Check?
    ensures Step(Step(Step(w, Act(n, [])), Tick(seconds)), Act(m, [])).nodes[m].stage.Migrate? <==> seconds >= 86400
  {
  }

  /** A node takes a lock that is free, or whose lease is over, in four steps, and sets to work. */
  function Entered(w: World, n: nat): World
    requires n < |w.nodes|
  {
    var node := w.nodes[n];
    var deadline := w.now + LeaseOf(node.key);
    w.(locks := w.locks[node.key := deadline], nodes := w.nodes[n := node.(stage := Migrate(deadline))])
  }

  lemma Enters(w: World, n: nat, more: seq<Event>)
    requires n < |w.nodes| && w.nodes[n].stage.Try?
    requires !Live(Lookup(w.locks, w.nodes[n].key), w.now) && !Live(Lookup(w.done, w.nodes[n].key), w.now)
    ensures var e := Act(n, []);
      && Run(w, [e, e, e, e] + more) == Run(Entered(w, n), more)
      && (NothingExpired(w) && InTime(Entered(w, n), more) ==> InTime(w, [e, e, e, e] + more))
  {
    var e := Act(n, []);
    var w1 := Step(w, e);
    var w2 := Step(w1, e);
    var w3 := Step(w2, e);
    assert w3.nodes[n].stage.Check? && w3.done == w.done;
    assert Step(w3, e) == Entered(w, n);
    assert NothingExpired(w) ==> NothingExpired(w1) && NothingExpired(w2) by { assert w1.nodes[n].stage.Seen?; }
    assert NothingExpired(w) ==> NothingExpired(w3) by { assert w3.nodes[n].stage.deadline > w.now; }
    hide Step, Run, Entered, NothingExpired;
    RunFirst(w, e, [e, e, e] + more);
    RunFirst(w1, e, [e, e] + more);
    RunFirst(w2, e, [e] + more);
    RunFirst(w3, e, more);
    Peel(e, more);
  }

  lemma RunFirst(w: World, e: Event, more: seq<Event>)
    ensures Run(w, [e] + more) == Run(Step(w, e), more)
    ensures InTime(w, [e] + more) <==> NothingExpired(w) && Spared(w, e) && InTime(Step(w, e), more)
  {
    hide Step, NothingExpired, Spared;
    assert ([e] + more)[1..] == more;
  }

  lemma Peel(e: Event, more: seq<Event>)
    ensures [e, e, e, e] + more == [e] + ([e, e, e] + more)
    ensures [e, e, e] + more == [e] + ([e, e] + more)
    ensures [e, e] + more == [e] + ([e] + more)
  {
  }

  /** Why leases matter: a core migration that takes five minutes is joined by a second node. */
  lemma OutlivedLease(now: nat)
    ensures exists events :: var w := Run(Start(now, 2), events);
      |w.nodes| == 2 && w.nodes[0].stage.Migrate? && w.nodes[1].stage.Migrate? && w.nodes[0].key == w.nodes[1].key
  {
    hide InTime, NothingExpired, Advance, Begin;
    var a, b := Act(0, []), Act(1, []);
    var w0 := Start(now, 2);
    var w1 := Entered(w0, 0);
    var w2 := Step(w1, Tick(300));
    var w3 := Entered(w2, 1);
    assert Run(w3, []) == w3;
    assert w3.nodes[0].stage.Migrate? && w3.nodes[1].stage.Migrate? && w3.nodes[0].key == w3.nodes[1].key;
    Enters(w2, 1, []);
    RunFirst(w1, Tick(300), [b, b, b, b] + []);
    Enters(w0, 0, [Tick(300)] + ([b, b, b, b] + []));
    hide Run, Step, Entered, Start;
    assert Run(w0, [a, a, a, a] + ([Tick(300)] + ([b, b, b, b] + []))) == w3;
  }

  /** Node 0 takes the core lock, fails and leaves the lock behind until its lease is over. */
  function LeftBehind(now: nat): World {
    World(now + 300, map[Core := now + 300], map[],
          Start(now, 3).nodes[0 := Node(Failed(false), Core, [], [], [])], [])
  }

  lemma LeavesBehind(now: nat)
    ensures var a := Act(0, []);
      var before := [a, a, a, a] + ([Fail(0)] + ([Tick(300)] + []));
      InTime(Start(now, 3), before) && Run(Start(now, 3), before) == LeftBehind(now)
  {
    hide Advance, Begin;
    var s := Start(now, 3);
    var s1 := Entered(s, 0);
    var s2 := Step(s1, Fail(0));
    var w0 := LeftBehind(now);
    assert s2.nodes == w0.nodes && Step(s2, Tick(300)) == w0;
    assert NothingExpired(s) && NothingExpired(s1) && NothingExpired(s2) && InTime(w0, []) && Run(w0, []) == w0;
    Enters(s, 0, [Fail(0)] + ([Tick(300)] + []));
    hide Step, Entered, Start, Run, InTime, NothingExpired, LeftBehind;
    RunFirst(s2, Tick(300), []);
    RunFirst(s1, Fail(0), [Tick(300)] + []);
  }

  /** The purge has found that lock.  Node 1 takes it, the purge deletes it, and node 2 takes it again. */
  lemma TakenTwice(now: nat)
    ensures var (b, c) := (Act(1, []), Act(2, []));
      var w0 := LeftBehind(now);
      var w1 := Step(Run(w0, [b, b, b, b] + []), Purge({Core}));
      var w := Run(w1, [c, c, c, c] + []);
      && InTime(w0, [b, b, b, b] + []) && InTime(w1, [c, c, c, c] + []) && |w.nodes| == 3
      && w.nodes[1].stage.Migrate? && w.nodes[2].stage.Migrate? && w.nodes[1].key == w.nodes[2].key
  {
    var w0 := LeftBehind(now);
    var w1 := Entered(w0, 1);
    var w2 := Step(w1, Purge({Core}));
    var w := Entered(w2, 2);
    assert w1.nodes[1].stage == Migrate(now + 600) && w2.nodes == w1.nodes;
    assert w.nodes[2].stage == Migrate(now + 600);
    assert NothingExpired(w0) && InTime(w1, []) && NothingExpired(w2) && InTime(w, []);
    assert Run(w1, []) == w1 && Run(w, []) == w;
    hide Step, Entered, Start, Run, InTime, NothingExpired, LeftBehind;
    Enters(w0, 1, []);
    Enters(w2, 2, []);
  }

  /** What a purge can do between whose halves a lock is taken: two nodes migrate one key, and no lease is outlived. */
  lemma PurgeRace(now: nat)
    ensures exists before, between, after :: var w0 := Run(Start(now, 3), before);
      var w1 := Step(Run(w0, between), Purge({Core}));
      var w := Run(w1, after);
      && InTime(Start(now, 3), before) && Core in w0.locks && w0.locks[Core] <= w0.now
      && InTime(w0, between) && InTime(w1, after)
      && |w.nodes| == 3 && w.nodes[1].stage.Migrate? && w.nodes[2].stage.Migrate? && w.nodes[1].key == w.nodes[2].key
  {
    LeavesBehind(now);
    TakenTwice(now);
    assert Core in LeftBehind(now).locks && LeftBehind(now).locks[Core] <= LeftBehind(now).now;
    hide Step, Start, Run, InTime, LeftBehind;
  }
}
