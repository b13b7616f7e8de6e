/** Snowflake ids (utils/src/snowflake.rs): 43 bits of milliseconds, 12 bits of a wrapping counter, 9 bits of node,
    drawn by threads that read the clock and the counter in two steps. */
module Snowflake {
  import opened Wrappers
  import opened Modular
  import UtcDate

  const SEQUENCES: nat := 4096
  const NODES: nat := 512
  const FIELDS: nat := 0x20_0000
  const TWO43: nat := 0x800_0000_0000
  const TWO64: nat := 0x1_0000_0000_0000_0000
  const DEFAULT_EPOCH: nat := 1632280000

  /** Durations count nanoseconds; `None` is a clock that stands before the epoch. */
  const SECOND: nat := 1_000_000_000
  const MILLI: nat := 1_000_000

  type U64 = x: nat | x < 0x1_0000_0000_0000_0000

  // ------------------------------------------------------------ the bit fields

  /** A shift left by the length of the two low fields, inside 64 bits. */
  function Shifted(ms: nat): U64 { ms % TWO64 * FIELDS % TWO64 }

  /** The three fields do not overlap, so their disjunction is their sum. */
  function MakeId(ms: nat, sequence: U64, node: U64): (id: U64)
    ensures Milliseconds(id) == ms % TWO43
    ensures Sequence(id) == sequence % SEQUENCES && Node(id) == node % NODES
  {
    FieldsOf(ms, sequence % SEQUENCES, node % NODES);
    Shifted(ms) + sequence % SEQUENCES * NODES + node % NODES
  }

  function Milliseconds(id: U64): nat { id / FIELDS }
  function Sequence(id: U64): nat { id / NODES % SEQUENCES }
  function Node(id: U64): nat { id % NODES }

  lemma ShiftedIs(ms: nat)
    ensures Shifted(ms) == ms % TWO43 * FIELDS
  {
    var word, q, r := ms % TWO64, ms % TWO64 / TWO43, ms % TWO64 % TWO43;
    ModMod(ms, TWO43, FIELDS);
    ModIs(word * FIELDS, TWO64, q, r * FIELDS);
  }

  lemma FieldsOf(ms: nat, sequence: nat, node: nat)
    requires sequence < SEQUENCES && node < NODES
    ensures var id := Shifted(ms) + sequence * NODES + node;
      id < TWO64 && id / FIELDS == ms % TWO43 && id / NODES % SEQUENCES == sequence && id % NODES == node
  {
    ShiftedIs(ms);
    var m := ms % TWO43;
    var id := Shifted(ms) + sequence * NODES + node;
    ModIs(id, FIELDS, m, sequence * NODES + node);
    ModIs(id, NODES, m * SEQUENCES + sequence, node);
    ModIs(m * SEQUENCES + sequence, SEQUENCES, m, sequence);
  }

  /** Two ids are the same number exactly when all three fields agree. */
  lemma SameId(a: U64, b: U64)
    ensures a == b <==> Milliseconds(a) == Milliseconds(b) && Sequence(a) == Sequence(b) && Node(a) == Node(b)
  {
    FromFields(a);
    FromFields(b);
  }

  lemma FromFields(id: U64)
    ensures id == Milliseconds(id) * FIELDS + Sequence(id) * NODES + Node(id)
  {
    ModIs(id / NODES, SEQUENCES, id / FIELDS, id % FIELDS / NODES);
  }

  // -------------------------------------------------------------- the generator

  /** The time that an elapsed duration contributes; a clock before the epoch counts as the epoch. */
  function Reading(elapsed: Option<nat>): nat {
    if elapsed.Some? then elapsed.value / MILLI else 0
  }

  /** `past_id`: the smallest id of the millisecond that lies `period` back. */
  function PastId(elapsed: Option<nat>, period: nat): Option<U64> {
    if elapsed.Some? && period <= elapsed.value then Some(Shifted((elapsed.value - period) / MILLI)) else None
  }

  function ToTimestamp(id: U64): nat { Milliseconds(id) / 1000 + DEFAULT_EPOCH }

  class SnowflakeIdGenerator {
    const nodeId: U64
    var sequence: U64

    constructor WithNodeId(nodeId: U64)
      ensures this.nodeId == nodeId && sequence == 0
    {
      this.nodeId, sequence := nodeId, 0;
    }

    /** `generate`, when no other thread comes between its two steps. */
    method Generate(elapsed: Option<nat>) returns (id: U64)
      modifies this
      ensures id / 0x20_0000 == if elapsed.Some? then elapsed.value / 1_000_000 % 0x800_0000_0000 else 0
      ensures id / 512 % 4096 == old(sequence) % 4096 && id % 512 == nodeId % 512
      ensures sequence == (old(sequence) + 1) % 0x1_0000_0000_0000_0000
    {
      TimeFits(0);
      var ms := Reading(elapsed);
      var ticket := sequence;
      sequence := if sequence == TWO64 - 1 then 0 else sequence + 1;
      id := MakeId(ms, ticket, nodeId);
    }

    /** A clone keeps the node and starts counting again. */
    method Clone() returns (clone: SnowflakeIdGenerator)
      ensures fresh(clone) && clone.nodeId == nodeId && clone.sequence == 0
    {
      clone := new SnowflakeIdGenerator.WithNodeId(nodeId);
    }
  }

  // ----------------------------------------------------- threads that interleave

  datatype Generator = Generator(node: U64, sequence: U64)

  /** A thread inside `generate`, between the clock and the counter. */
  datatype Pending = Pending(generator: nat, ms: nat)

  datatype Issued = Issued(generator: nat, ms: nat, id: U64)

  datatype World = World(generators: seq<Generator>, pending: map<nat, Pending>, issued: seq<Issued>)

  datatype Event =
    | ReadClock(thread: nat, generator: nat, elapsed: Option<nat>)
    | TakeTicket(thread: nat)
    | CloneGenerator(generator: nat)

  /** Threads and clocks do as they like: the clock may even go back. Events that do not apply change nothing. */
  function Step(w: World, e: Event): World {
    match e
    case ReadClock(t, g, elapsed) =>
      if g < |w.generators| then w.(pending := w.pending[t := Pending(g, Reading(elapsed))]) else w
    case TakeTicket(t) =>
      if t in w.pending && w.pending[t].generator < |w.generators| then Draw(w, t) else w
    case CloneGenerator(g) =>
      if g < |w.generators| then w.(generators := w.generators + [Generator(w.generators[g].node, 0)]) else w
  }

  function Draw(w: World, t: nat): World
    requires t in w.pending && w.pending[t].generator < |w.generators|
  {
    var p := w.pending[t];
    var g := w.generators[p.generator];
    var next := if g.sequence == TWO64 - 1 then 0 else g.sequence + 1;
    World(w.generators[p.generator := Generator(g.node, next)],
          map u | u in w.pending && u != t :: w.pending[u],
          w.issued + [Issued(p.generator, p.ms, MakeId(p.ms, g.sequence, g.node))])
  }

  function Start(nodes: seq<U64>): World {
    World(seq(|nodes|, i requires 0 <= i < |nodes| => Generator(nodes[i], 0)), map[], [])
  }

  function Run(w: World, events: seq<Event>): World
    decreases |events|
  {
    if events == [] then w else Step(Run(w, events[..|events| - 1]), events[|events| - 1])
  }

  /** How many ids a generator has given out. */
  ghost function Drawn(issued: seq<Issued>, g: nat): (n: nat)
    ensures n <= |issued|
  {
    if issued == [] then 0
    else Drawn(issued[..|issued| - 1], g) + if issued[|issued| - 1].generator == g then 1 else 0
  }

  /** The place of an id among those of its generator. */
  ghost function Ticket(issued: seq<Issued>, i: nat): nat
    requires i < |issued|
  {
    Drawn(issued[..i], issued[i].generator)
  }

  /** Each id carries its reading, its place, and its generator's node; the counter is the number drawn, wrapped. */
  ghost predicate Counted(w: World) {
    && (forall g :: 0 <= g < |w.generators| ==> w.generators[g].sequence == Drawn(w.issued, g) % TWO64)
    && (forall g {:trigger Drawn(w.issued, g)} :: g >= |w.generators| ==> Drawn(w.issued, g) == 0)
    && (forall i :: 0 <= i < |w.issued| ==> Stamped(w, i))
  }

  ghost predicate Stamped(w: World, i: nat)
    requires i < |w.issued|
  {
    var a := w.issued[i];
    a.generator < |w.generators| &&
    a.id == MakeId(a.ms, Ticket(w.issued, i) % TWO64, w.generators[a.generator].node)
  }

  lemma DrawnMore(issued: seq<Issued>, more: Issued, g: nat)
    ensures Drawn(issued + [more], g) == Drawn(issued, g) + if more.generator == g then 1 else 0
  {
    assert (issued + [more])[..|issued|] == issued;
  }

  lemma TicketKept(issued: seq<Issued>, more: Issued, i: nat)
    requires i < |issued|
    ensures Ticket(issued + [more], i) == Ticket(issued, i)
  {
    assert (issued + [more])[..i] == issued[..i];
  }

  lemma DrawCounts(w: World, t: nat)
    requires Counted(w) && t in w.pending && w.pending[t].generator < |w.generators|
    ensures Counted(Draw(w, t))
  {
    hide MakeId, Drawn;
    var w', k := Draw(w, t), |w.issued|;
    var more := w'.issued[k];
    forall g: nat ensures Drawn(w'.issued, g) == Drawn(w.issued, g) + if more.generator == g then 1 else 0 {
      DrawnMore(w.issued, more, g);
    }
    CounterWraps(Drawn(w.issued, more.generator));
    forall i | 0 <= i < |w'.issued| ensures Stamped(w', i) {
      if i < k {
        assert Stamped(w, i);
        TicketKept(w.issued, more, i);
      } else {
        assert w'.issued[..k] == w.issued;
      }
    }
  }

  lemma CounterWraps(n: nat)
    ensures (n + 1) % TWO64 == if n % TWO64 == TWO64 - 1 then 0 else n % TWO64 + 1
  {
    if n % TWO64 == TWO64 - 1 {
      ModIs(n + 1, TWO64, n / TWO64 + 1, 0);
    } else {
      ModIs(n + 1, TWO64, n / TWO64, n % TWO64 + 1);
    }
  }

  lemma {:induction false} RunCounts(nodes: seq<U64>, events: seq<Event>)
    ensures Counted(Run(Start(nodes), events))
    decreases |events|
  {
    hide MakeId;
    if events == [] {
      assert Drawn([], 0) == 0;
    } else {
      var before := Run(Start(nodes), events[..|events| - 1]);
      RunCounts(nodes, events[..|events| - 1]);
      StepCounts(before, events[|events| - 1]);
    }
  }

  lemma StepCounts(w: World, e: Event)
    requires Counted(w)
    ensures Counted(Step(w, e))
  {
    hide MakeId, Drawn, Draw;
    match e
    case ReadClock(t, g, elapsed) =>
      assert forall i :: 0 <= i < |w.issued| ==> Stamped(w, i) ==> Stamped(Step(w, e), i);
    case TakeTicket(t) =>
      if t in w.pending && w.pending[t].generator < |w.generators| {
        DrawCounts(w, t);
      }
    case CloneGenerator(g) =>
      assert forall i :: 0 <= i < |w.issued| ==> Stamped(w, i) ==> Stamped(Step(w, e), i);
  }

  function Readings(events: seq<Event>): nat {
    if events == [] then 0
    else Readings(events[..|events| - 1]) + if events[|events| - 1].ReadClock? then 1 else 0
  }

  /** One id for a reading: threads that have read the clock are inside `generate` with a generator that exists, and there
      are never more ids and such threads than readings. */
  lemma {:induction false} OneIdEach(nodes: seq<U64>, events: seq<Event>)
    ensures var w := Run(Start(nodes), events);
      && |w.issued| + |w.pending| <= Readings(events)
      && forall t :: t in w.pending ==> w.pending[t].generator < |w.generators|
    decreases |events|
  {
    hide MakeId;
    if events != [] {
      var before := Run(Start(nodes), events[..|events| - 1]);
      OneIdEach(nodes, events[..|events| - 1]);
      PendingAfter(before, events[|events| - 1]);
    }
  }

  lemma PendingAfter(w: World, e: Event)
    requires forall t :: t in w.pending ==> w.pending[t].generator < |w.generators|
    ensures var w' := Step(w, e);
      && |w'.issued| + |w'.pending| <= |w.issued| + |w.pending| + (if e.ReadClock? then 1 else 0)
      && forall t :: t in w'.pending ==> w'.pending[t].generator < |w'.generators|
  {
    hide MakeId;
    var w' := Step(w, e);
    match e
    case ReadClock(t, g, _) =>
      if g < |w.generators| {
        var rest := w.pending - {t};
        assert t in w.pending ==> w.pending == rest[t := w.pending[t]];
        assert w'.pending == rest[t := w'.pending[t]];
        assert t !in w.pending ==> rest == w.pending;
      }
    case TakeTicket(t) =>
      if t in w.pending {
        assert w.pending == w'.pending[t := w.pending[t]] && t !in w'.pending;
      }
    case CloneGenerator(_) =>
  }

  lemma {:induction false} DrawnGrows(issued: seq<Issued>, i: nat, j: nat, g: nat)
    requires i <= j <= |issued|
    ensures Drawn(issued[..i], g) <= Drawn(issued[..j], g)
    decreases j
  {
    if i < j {
      DrawnGrows(issued, i, j - 1, g);
      assert issued[..j][..j - 1] == issued[..j - 1];
    }
  }

  /** Whatever the interleaving: two ids agree exactly when their milliseconds (43 bits), their places among the ids of
      their generators (12 bits) and their nodes (9 bits) do; so one generator repeats itself only after 4096 ids. */
  lemma IdsOverRuns(nodes: seq<U64>, events: seq<Event>, i: nat, j: nat)
    requires i < j < |Run(Start(nodes), events).issued|
    ensures var w := Run(Start(nodes), events);
      var a, b := w.issued[i], w.issued[j];
      && a.generator < |w.generators| && b.generator < |w.generators|
      && (a.id == b.id <==>
          && a.ms % TWO43 == b.ms % TWO43
          && Ticket(w.issued, i) % SEQUENCES == Ticket(w.issued, j) % SEQUENCES
          && w.generators[a.generator].node % NODES == w.generators[b.generator].node % NODES)
      && (a.generator == b.generator ==> Ticket(w.issued, i) < Ticket(w.issued, j))
      && (a.generator == b.generator && a.id == b.id ==> Ticket(w.issued, i) + SEQUENCES <= Ticket(w.issued, j))
  {
    RunCounts(nodes, events);
    hide MakeId, Run, Milliseconds, Sequence, Node, Drawn;
    var w := Run(Start(nodes), events);
    var a, b := w.issued[i], w.issued[j];
    assert Stamped(w, i) && Stamped(w, j);
    SameId(a.id, b.id);
    TicketField(Ticket(w.issued, i));
    TicketField(Ticket(w.issued, j));
    if a.generator == b.generator {
      DrawnGrows(w.issued, i + 1, j, a.generator);
      NextTicket(w.issued, i);
      if a.id == b.id {
        SameResidue(Ticket(w.issued, i), Ticket(w.issued, j));
      }
    }
  }

  lemma TicketField(n: nat)
    ensures n % TWO64 % SEQUENCES == n % SEQUENCES
  {
    ModMod(n, SEQUENCES, TWO64 / SEQUENCES);
  }

  lemma NextTicket(issued: seq<Issued>, i: nat)
    requires i < |issued|
    ensures Drawn(issued[..i + 1], issued[i].generator) == Ticket(issued, i) + 1
  {
    assert issued[..i + 1] == issued[..i] + [issued[i]];
    DrawnMore(issued[..i], issued[i], issued[i].generator);
  }

  lemma SameResidue(m: nat, n: nat)
    requires m < n && m % SEQUENCES == n % SEQUENCES
    ensures m + SEQUENCES <= n
  {
  }

  /** The wide clock fits its field until 2^43 ms (about 278 years) after the epoch. */
  lemma TimeFits(ms: nat)
    requires ms < TWO43
    ensures ms % TWO43 == ms
  {
    ModIs(ms, TWO43, 0, ms);
  }

  /** Within the field's time, generators whose nodes differ in the low nine bits never collide, nor do two ids of
      one generator less than 4096 draws apart. */
  lemma Collisions(nodes: seq<U64>, events: seq<Event>, i: nat, j: nat)
    requires i < j < |Run(Start(nodes), events).issued|
    requires var w := Run(Start(nodes), events); w.issued[i].ms < TWO43 && w.issued[j].ms < TWO43
    ensures var w := Run(Start(nodes), events);
      var a, b := w.issued[i], w.issued[j];
      && a.generator < |w.generators| && b.generator < |w.generators|
      && (w.generators[a.generator].node % NODES != w.generators[b.generator].node % NODES ==> a.id != b.id)
      && (a.generator == b.generator ==>
            (a.id == b.id <==> a.ms == b.ms && (Ticket(w.issued, j) - Ticket(w.issued, i)) % SEQUENCES == 0))
  {
    var w := Run(Start(nodes), events);
    IdsOverRuns(nodes, events, i, j);
    hide Run, Ticket;
    TimeFits(w.issued[i].ms);
    TimeFits(w.issued[j].ms);
    Residues(Ticket(w.issued, i), Ticket(w.issued, j));
  }

  lemma Residues(m: nat, n: nat)
    ensures m % SEQUENCES == n % SEQUENCES <==> (n - m) % SEQUENCES == 0
  {
  }

  /** A clone shares its original's node and restarts its counter: in one millisecond both give out the same id. */
  lemma CloneRepeats(node: U64, elapsed: Option<nat>)
    ensures exists events :: var w := Run(Start([node]), events);
      |w.issued| == 2 && w.issued[0].generator != w.issued[1].generator && w.issued[0].id == w.issued[1].id
  {
    hide MakeId;
    var e0, e1, e2 := CloneGenerator(0), ReadClock(0, 0, elapsed), TakeTicket(0);
    var e3, e4 := ReadClock(1, 1, elapsed), TakeTicket(1);
    var events := [e0, e1, e2, e3, e4];
    var s := Start([node]);
    assert events[..4] == [e0, e1, e2, e3] && events[..4][..3] == [e0, e1, e2];
    assert [e0, e1, e2][..2] == [e0, e1] && [e0, e1][..1] == [e0] && [e0][..0] == [];
    var w2 := Step(Step(s, e0), e1);
    assert Run(s, [e0]) == Step(s, e0) && Run(s, [e0, e1]) == w2;
    var w3 := Step(w2, e2);
    assert w3.issued == [Issued(0, Reading(elapsed), MakeId(Reading(elapsed), 0, node))];
    assert Run(s, [e0, e1, e2]) == w3;
    var w5 := Step(Step(w3, e3), e4);
    assert Run(s, events) == w5;
  }

  // ------------------------------------------------------------------ cut-offs

  /** An id is at or past `past_id` exactly when its millisecond is at or past the cut-off's, whatever its counter
      and node. */
  lemma PastIdBoundary(elapsed: nat, period: nat, ms: nat, sequence: U64, node: U64)
    requires period <= elapsed
    ensures var past := PastId(Some(elapsed), period);
      past.Some? && (MakeId(ms, sequence, node) >= past.value <==> ms % TWO43 >= (elapsed - period) / MILLI % TWO43)
    ensures var past := PastId(Some(elapsed), period);
      ms < TWO43 && elapsed / MILLI < TWO43 ==>
        (MakeId(ms, sequence, node) >= past.value <==> ms >= (elapsed - period) / MILLI)
  {
    var cut := (elapsed - period) / MILLI;
    ShiftedIs(ms);
    ShiftedIs(cut);
    if ms < TWO43 && elapsed / MILLI < TWO43 {
      TimeFits(ms);
      TimeFits(cut);
    }
  }

  /** An id is at or past the cut-off exactly when it was generated in the cut-off's millisecond or later. */
  lemma GeneratedAndPast(t1: nat, t2: nat, period: nat, sequence: U64, node: U64)
    requires period <= t2 && t1 / 1_000_000 < 0x800_0000_0000 && t2 / 1_000_000 < 0x800_0000_0000
    ensures var (id, past) := (MakeId(Reading(Some(t1)), sequence, node), PastId(Some(t2), period));
      past.Some? && (id >= past.value <==> t1 / 1_000_000 >= (t2 - period) / 1_000_000)
  {
    PastIdBoundary(t2, period, t1 / MILLI, sequence, node);
  }

  /** Durations that reach back behind the epoch, and clocks before it, give no cut-off. */
  lemma NoCutOff(elapsed: Option<nat>, period: nat)
    ensures PastId(elapsed, period) == None <==> elapsed == None || elapsed.value < period
  {
  }

  /** `from_duration` and `from_timestamp`: the default epoch's own clock, read a second time by the latter. */
  function FromDuration(now: nat, period: nat): Option<U64> {
    PastId(if now >= DEFAULT_EPOCH * SECOND then Some(now - DEFAULT_EPOCH * SECOND) else None, period)
  }

  function FromTimestamp(first: nat, second: nat, timestamp: U64): Option<U64> {
    if timestamp <= first / SECOND then FromDuration(second, (first / SECOND - timestamp) * SECOND) else None
  }

  /** A timestamp survives the trip through an id, but for the seconds by which the two readings differ; it is
      refused exactly when it lies in the future or so far back that it precedes the epoch. */
  lemma TimestampTrip(first: nat, second: nat, timestamp: U64)
    ensures var id := FromTimestamp(first, second, timestamp);
      var passed: int := second / 1_000_000_000 - first / 1_000_000_000;
      && (id.Some? <==> timestamp <= first / SECOND && timestamp + passed >= 1632280000)
      && (id.Some? && (second - 1632280000 * 1_000_000_000) / 1_000_000 < 0x800_0000_0000 ==>
            ToTimestamp(id.value) == timestamp + passed)
  {
    var id := FromTimestamp(first, second, timestamp);
    if timestamp <= first / SECOND {
      var period := (first / SECOND - timestamp) * SECOND;
      var whole: int := second / SECOND - DEFAULT_EPOCH - first / SECOND + timestamp;
      assert second - DEFAULT_EPOCH * SECOND - period == whole * SECOND + second % SECOND;
      if id.Some? && (second - DEFAULT_EPOCH * SECOND) / MILLI < TWO43 {
        SecondsOf(whole, second % SECOND);
        ShiftedIs(whole * 1000 + second % SECOND / MILLI);
        TimeFits(whole * 1000 + second % SECOND / MILLI);
      }
    }
  }

  lemma SecondsOf(whole: nat, rest: nat)
    requires rest < SECOND
    ensures (whole * SECOND + rest) / MILLI == whole * 1000 + rest / MILLI
    ensures (whole * 1000 + rest / MILLI) / 1000 == whole
  {
  }

  /** The day from which ids count. */
  lemma EpochDay()
    ensures UtcDate.Civil(DEFAULT_EPOCH / 86400 + 719468) == (2021, 9, 22)
  {
    assert DEFAULT_EPOCH / 86400 + 719468 == UtcDate.DayNumber(2021, 9, 22) + 719468;
    UtcDate.CivilOfDay(2021, 9, 22);
  }
}
