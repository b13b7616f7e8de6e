/** Change-log truncation (common/src/core.rs, `delete_changes`) over an ordered key-value store. */
module ChangeLog {
  import opened Wrappers
  import Snowflake

  type U64 = x: nat | x < 0x1_0000_0000_0000_0000

  const MAX_ID: U64 := 0xFFFF_FFFF_FFFF_FFFF

  datatype SyncCollection =
    | Email | Thread | Calendar | AddressBook | FileNode | Identity | EmailSubmission | SieveScript
    | CalendarEventNotification | ShareNotification

  /** The byte of a log (types/src/collection.rs). */
  function Code(c: SyncCollection): nat {
    match c
    case Email => 0
    case Thread => 1
    case Calendar => 2
    case AddressBook => 3
    case FileNode => 4
    case Identity => 5
    case EmailSubmission => 6
    case SieveScript => 7
    case CalendarEventNotification => 8
    case ShareNotification => 9
  }

  /** The log of the items that vanished from a collection. */
  function Vanished(c: SyncCollection): Option<nat> {
    match c
    case Email => Some(251)
    case Calendar => Some(252)
    case AddressBook => Some(253)
    case FileNode => Some(254)
    case _ => None
  }

  /** `SyncCollection::from`, which reads the byte back. */
  function FromCode(code: nat): Option<SyncCollection> {
    match code
    case 0 => Some(Email)
    case 1 => Some(Thread)
    case 2 => Some(Calendar)
    case 3 => Some(AddressBook)
    case 4 => Some(FileNode)
    case 5 => Some(Identity)
    case 6 => Some(EmailSubmission)
    case 7 => Some(SieveScript)
    case 8 => Some(CalendarEventNotification)
    case 9 => Some(ShareNotification)
    case _ => None
  }

  /** The bytes of the logs of vanished items. */
  const VANISHED: seq<(SyncCollection, nat)> := [(Email, 251), (Calendar, 252), (AddressBook, 253), (FileNode, 254)]

  /** Bytes and collections correspond, and no log of vanished items shares its byte with another log. */
  lemma CodesCorrespond(c: SyncCollection, code: nat)
    ensures Code(c) == code <==> FromCode(code) == Some(c)
    ensures Vanished(c) == Some(code) <==> (c, code) in VANISHED
    ensures Vanished(c) == Some(code) ==> FromCode(code) == None
  {
    var all := VANISHED;
    assert all[0] in all && all[1] in all && all[2] in all && all[3] in all;
    assert Vanished(c) != None ==> (c, Vanished(c).value) in all;
  }

  /** The logs that are cut, in the order in which it is done. */
  const CUT: seq<SyncCollection> :=
    [Email, Thread, Identity, EmailSubmission, SieveScript, FileNode, AddressBook, Calendar, CalendarEventNotification]

  datatype LogKey = LogKey(account: nat, collection: nat, changeId: U64)

  type Value = seq<nat>
  type Logs = map<LogKey, Value>

  /** The order of the serialized keys. */
  predicate Before(a: LogKey, b: LogKey) {
    a.account < b.account ||
    (a.account == b.account &&
     (a.collection < b.collection || (a.collection == b.collection && a.changeId < b.changeId)))
  }

  // ------------------------------------------------------------------- the store

  class Store {
    var logs: Logs

    constructor ()
      ensures logs == map[]
    {
      logs := map[];
    }

    /** `delete_range`: from `first` up to, but not including, `last`. */
    method DeleteRange(first: LogKey, last: LogKey)
      modifies this
      ensures logs == map k | k in old(logs) && !(!Before(k, first) && Before(k, last)) :: old(logs)[k]
    {
      logs := map k | k in logs && !(!Before(k, first) && Before(k, last)) :: logs[k];
    }

    method Write(key: LogKey, value: Value)
      modifies this
      ensures logs == old(logs)[key := value]
    {
      logs := logs[key := value];
    }

    /** One step of a descending iteration: the newest entry of a log at or below a bound. */
    method Newest(account: nat, collection: nat, bound: U64) returns (id: Option<U64>)
      ensures id == None ==> forall x :: x in Ids(logs, account, collection) ==> x > bound
      ensures id != None ==> id.value in Ids(logs, account, collection) && id.value <= bound
      ensures id != None ==> forall x :: x in Ids(logs, account, collection) && x > id.value ==> x > bound
    {
      id := None;
      var keys := logs.Keys;
      while keys != {}
        invariant keys <= logs.Keys
        invariant id != None ==> id.value in Ids(logs, account, collection) && id.value <= bound
        invariant forall k :: k in logs && k !in keys && k.account == account && k.collection == collection ==>
          k.changeId > bound || (id != None && k.changeId <= id.value)
        decreases |keys|
      {
        var k: LogKey :| k in keys;
        keys := keys - {k};
        if k.account == account && k.collection == collection && k.changeId <= bound
           && (id == None || k.changeId > id.value) {
          id := Some(k.changeId);
        }
      }
    }

    /** The iteration, newest first, that stops at one entry too many. */
    method Scan(account: nat, c: SyncCollection, max: nat) returns (first: U64, count: nat)
      ensures var ids := Ids(logs, account, Code(c));
        if |ids| > max then count == max + 1 && first in ids && |NewerThan(ids, first)| == max else count == |ids|
    {
      hide NewerThan, Code, Ids;
      ghost var ids := Ids(logs, account, Code(c));
      first, count := 0, 0;
      var bound: Option<U64> := Some(MAX_ID);
      Top(ids);
      while bound != None && count <= max
        invariant count <= max + 1
        invariant bound == None ==> count == |ids|
        invariant bound != None ==> |NewerThan(ids, bound.value)| == count
        invariant count > 0 ==> first in ids && |NewerThan(ids, first)| == count - 1
        decreases bound != None, if bound == None then 0 else bound.value
      {
        var id := Newest(account, Code(c), bound.value);
        if id == None {
          NoneLeft(ids, bound.value);
          bound := None;
        } else {
          NextNewer(ids, id.value, bound.value);
          first, count := id.value, count + 1;
          bound := if first == 0 then None else Some(first - 1);
        }
      }
      if count > 0 {
        RankBelow(ids, first);
      }
    }

    /** The range of a log below a change id. */
    method DeleteOlder(account: nat, collection: nat, id: U64)
      modifies this
      ensures logs == WithoutOlder(old(logs), account, collection, id)
    {
      hide Before;
      OlderRange(account, collection, id);
      DeleteRange(LogKey(account, collection, 0), LogKey(account, collection, id));
    }

    /** The loop's body for one collection. */
    method Cut(account: nat, c: SyncCollection, max: nat)
      modifies this
      ensures logs == Pruned(old(logs), account, max, [c])
    {
      hide Pruned, NewerThan, Ids, WithoutOlder, CutAt, Code, Vanished;
      ghost var before := logs;
      var first, count := Scan(account, c, max);
      if count > max {
        DeleteOlder(account, Code(c), first);
        if Vanished(c) != None {
          DeleteOlder(account, Vanished(c).value, first);
        }
        Write(LogKey(account, Code(c), first), []);
        MarkedIsCut(before, account, c, first);
        CutIsPruned(before, account, c, max, first);
      } else {
        NothingToCut(before, account, c, max);
      }
    }

    /** `delete_changes`, at the time `now` (in nanoseconds since 1970). */
    method DeleteChanges(account: nat, maxEntries: Option<nat>, maxDuration: Option<nat>, now: nat)
      modifies this
      ensures logs == Kept(old(logs), account, maxEntries, Cutoff(maxDuration, now))
    {
      hide Pruned;
      if maxEntries != None {
        PrunedNothing(logs, account, maxEntries.value);
        for i := 0 to |CUT|
          invariant logs == Pruned(old(logs), account, maxEntries.value, CUT[..i])
        {
          Cut(account, CUT[i], maxEntries.value);
          PruneMore(old(logs), account, maxEntries.value, i);
        }
        assert CUT[..|CUT|] == CUT;
      }
      ghost var cut := logs;
      if maxDuration != None {
        var id := Snowflake.FromDuration(now, maxDuration.value);
        var cutoff := if id.Some? then id.value else 0;
        DeleteOlder(account, Code(ShareNotification), cutoff);
      }
      assert logs == Expired(cut, account, Cutoff(maxDuration, now));
    }
  }

  // ------------------------------------------------------------- what is meant

  ghost function Ids(logs: Logs, account: nat, collection: nat): set<U64> {
    set k | k in logs && k.account == account && k.collection == collection :: k.changeId
  }

  ghost function NewerThan(ids: set<U64>, id: U64): set<U64> { set x | x in ids && x > id }

  /** How many changes a collection has had since a change id. */
  ghost function Newer(logs: Logs, account: nat, c: SyncCollection, id: U64): nat {
    |NewerThan(Ids(logs, account, Code(c)), id)|
  }

  /** An entry belongs to a collection's own log or to its log of vanished items. */
  ghost predicate Belongs(k: LogKey, account: nat, c: SyncCollection) {
    k.account == account && (k.collection == Code(c) || Some(k.collection) == Vanished(c))
  }

  /** It is kept if at most `max` changes of the collection are newer. */
  ghost predicate Stays(logs: Logs, account: nat, max: nat, c: SyncCollection, k: LogKey) {
    Belongs(k, account, c) ==> Newer(logs, account, c, k.changeId) <= max
  }

  /** With exactly `max` newer ones, the entry of the log itself becomes the empty marker of the truncation. */
  ghost predicate Marks(logs: Logs, account: nat, max: nat, c: SyncCollection, k: LogKey) {
    k.account == account && k.collection == Code(c) && Newer(logs, account, c, k.changeId) == max
  }

  ghost predicate StaysIn(logs: Logs, account: nat, max: nat, cs: seq<SyncCollection>, k: LogKey) {
    forall c :: c in cs ==> Stays(logs, account, max, c, k)
  }

  ghost predicate MarksIn(logs: Logs, account: nat, max: nat, cs: seq<SyncCollection>, k: LogKey) {
    exists c :: c in cs && Marks(logs, account, max, c, k)
  }

  ghost function Pruned(logs: Logs, account: nat, max: nat, cs: seq<SyncCollection>): Logs {
    map k | k in logs && StaysIn(logs, account, max, cs, k)
      :: if MarksIn(logs, account, max, cs, k) then [] else logs[k]
  }

  function Cutoff(maxDuration: Option<nat>, now: nat): U64 {
    match maxDuration
    case None => 0
    case Some(period) =>
      match Snowflake.FromDuration(now, period)
      case Some(id) => id
      case None => 0
  }

  /** A log without the entries below a change id. */
  ghost function WithoutOlder(logs: Logs, account: nat, collection: nat, id: U64): Logs {
    map k | k in logs && !(k.account == account && k.collection == collection && k.changeId < id) :: logs[k]
  }

  ghost function Expired(logs: Logs, account: nat, cutoff: U64): Logs {
    WithoutOlder(logs, account, Code(ShareNotification), cutoff)
  }

  ghost function Kept(logs: Logs, account: nat, maxEntries: Option<nat>, cutoff: U64): Logs {
    Expired(if maxEntries == None then logs else Pruned(logs, account, maxEntries.value, CUT), account, cutoff)
  }

  // ----------------------------------------------------------------- the count

  lemma Top(ids: set<U64>)
    ensures |NewerThan(ids, MAX_ID)| == 0
  {
    assert NewerThan(ids, MAX_ID) == {};
  }

  lemma NoneLeft(ids: set<U64>, bound: U64)
    requires forall x :: x in ids ==> x > bound
    ensures |NewerThan(ids, bound)| == |ids|
  {
    assert NewerThan(ids, bound) == ids;
  }

  lemma NextNewer(ids: set<U64>, id: U64, bound: U64)
    requires id in ids && id <= bound && forall x :: x in ids && x > id ==> x > bound
    ensures |NewerThan(ids, id)| == |NewerThan(ids, bound)|
    ensures id > 0 ==> |NewerThan(ids, id - 1)| == |NewerThan(ids, bound)| + 1
    ensures id == 0 ==> |ids| == |NewerThan(ids, bound)| + 1
  {
    assert NewerThan(ids, id) == NewerThan(ids, bound);
    if id > 0 {
      assert NewerThan(ids, id - 1) == NewerThan(ids, id) + {id};
    } else {
      assert ids == NewerThan(ids, id) + {id};
    }
  }

  lemma SmallerSet(a: set<U64>, b: set<U64>)
    requires a <= b
    ensures |a| <= |b| && (a != b ==> |a| < |b|)
  {
    if a != b {
      var rest := b - a;
      assert b == a + rest && rest != {};
    }
  }

  /** Counting newer entries tells which side of an entry an id lies. */
  lemma RankCut(ids: set<U64>, first: U64, id: U64)
    requires first in ids
    ensures id >= first <==> |NewerThan(ids, id)| <= |NewerThan(ids, first)|
    ensures id in ids ==> (id == first <==> |NewerThan(ids, id)| == |NewerThan(ids, first)|)
  {
    if id < first {
      assert first in NewerThan(ids, id) && first !in NewerThan(ids, first);
      SmallerSet(NewerThan(ids, first), NewerThan(ids, id));
    } else {
      SmallerSet(NewerThan(ids, id), NewerThan(ids, first));
      if id > first && id in ids {
        assert id in NewerThan(ids, first) && id !in NewerThan(ids, id);
      }
    }
  }

  lemma RankBelow(ids: set<U64>, id: U64)
    ensures |NewerThan(ids, id)| <= |ids| && (id in ids ==> |NewerThan(ids, id)| < |ids|)
  {
    SmallerSet(NewerThan(ids, id), ids);
    assert id !in NewerThan(ids, id);
  }

  // ---------------------------------------------------------------- the ranges

  lemma OlderRange(account: nat, collection: nat, id: U64)
    ensures forall k ::
      (!Before(k, LogKey(account, collection, 0)) && Before(k, LogKey(account, collection, id)))
      <==> (k.account == account && k.collection == collection && k.changeId < id)
  {
  }

  lemma InIds(logs: Logs, k: LogKey)
    ensures k in logs ==> k.changeId in Ids(logs, k.account, k.collection)
  {
  }

  lemma Codes(c: SyncCollection, d: SyncCollection)
    ensures Code(c) <= 9 && (Vanished(c) != None ==> Vanished(c).value > 250)
    ensures Code(c) == Code(d) ==> c == d
    ensures Vanished(c) == Vanished(d) != None ==> c == d
  {
  }

  // ------------------------------------------------------ one collection, and more

  /** What deleting below an id and marking it leaves. */
  ghost function CutAt(logs: Logs, account: nat, c: SyncCollection, first: U64): Logs {
    map k | k in logs && !(Belongs(k, account, c) && k.changeId < first)
      :: if k == LogKey(account, Code(c), first) then [] else logs[k]
  }

  lemma MarkerStays(logs: Logs, account: nat, c: SyncCollection, first: U64)
    requires first in Ids(logs, account, Code(c))
    ensures LogKey(account, Code(c), first) in logs
    ensures Vanished(c) != None ==> Vanished(c).value != Code(c)
  {
    Codes(c, c);
  }

  lemma MarkedIsCut(logs: Logs, account: nat, c: SyncCollection, first: U64)
    requires first in Ids(logs, account, Code(c))
    ensures var own := WithoutOlder(logs, account, Code(c), first);
      var both := if Vanished(c) == None then own else WithoutOlder(own, account, Vanished(c).value, first);
      both[LogKey(account, Code(c), first) := []] == CutAt(logs, account, c, first)
  {
    MarkerStays(logs, account, c, first);
    hide Code, Vanished;
  }

  lemma OneOnly(logs: Logs, account: nat, max: nat, c: SyncCollection, k: LogKey)
    ensures StaysIn(logs, account, max, [c], k) <==> Stays(logs, account, max, c, k)
    ensures MarksIn(logs, account, max, [c], k) <==> Marks(logs, account, max, c, k)
  {
    hide Stays, Marks;
    assert c in [c];
  }

  lemma CutIsPruned(logs: Logs, account: nat, c: SyncCollection, max: nat, first: U64)
    requires first in Ids(logs, account, Code(c)) && |NewerThan(Ids(logs, account, Code(c)), first)| == max
    ensures CutAt(logs, account, c, first) == Pruned(logs, account, max, [c])
  {
    hide NewerThan, Code, Vanished, StaysIn, MarksIn, Ids;
    var ids := Ids(logs, account, Code(c));
    forall k | k in logs
      ensures StaysIn(logs, account, max, [c], k) <==> !(Belongs(k, account, c) && k.changeId < first)
      ensures MarksIn(logs, account, max, [c], k) <==> k == LogKey(account, Code(c), first)
    {
      OneOnly(logs, account, max, c, k);
      RankCut(ids, first, k.changeId);
      InIds(logs, k);
    }
  }

  lemma NothingToCut(logs: Logs, account: nat, c: SyncCollection, max: nat)
    requires |Ids(logs, account, Code(c))| <= max
    ensures Pruned(logs, account, max, [c]) == logs
  {
    hide NewerThan, Code, Vanished, StaysIn, MarksIn, Ids;
    forall k | k in logs
      ensures StaysIn(logs, account, max, [c], k) && !MarksIn(logs, account, max, [c], k)
    {
      OneOnly(logs, account, max, c, k);
      RankBelow(Ids(logs, account, Code(c)), k.changeId);
      InIds(logs, k);
    }
  }

  lemma PrunedNothing(logs: Logs, account: nat, max: nat)
    ensures Pruned(logs, account, max, []) == logs
  {
    hide Stays, Marks;
  }

  /** Logs are cut apart: an entry belongs to one collection at most. */
  lemma BelongsToOne(k: LogKey, account: nat, c: SyncCollection, d: SyncCollection)
    requires Belongs(k, account, c) && Belongs(k, account, d)
    ensures c == d
  {
    Codes(c, d);
    Codes(d, c);
  }

  lemma OtherIdsSame(logs: Logs, account: nat, max: nat, cs: seq<SyncCollection>, c: SyncCollection)
    requires c !in cs
    ensures Ids(Pruned(logs, account, max, cs), account, Code(c)) == Ids(logs, account, Code(c))
  {
    hide Code, Vanished, Newer;
    forall k | k in logs && k.account == account && k.collection == Code(c)
      ensures StaysIn(logs, account, max, cs, k)
    {
      forall d | d in cs ensures Stays(logs, account, max, d, k) {
        if Belongs(k, account, d) {
          BelongsToOne(k, account, c, d);
        }
      }
    }
  }

  lemma AndAnother(logs: Logs, account: nat, max: nat, cs: seq<SyncCollection>, c: SyncCollection, k: LogKey)
    ensures StaysIn(logs, account, max, cs + [c], k)
       <==> StaysIn(logs, account, max, cs, k) && Stays(logs, account, max, c, k)
    ensures MarksIn(logs, account, max, cs + [c], k)
       <==> MarksIn(logs, account, max, cs, k) || Marks(logs, account, max, c, k)
  {
    hide Stays, Marks;
    assert c in cs + [c];
    assert forall d :: d in cs ==> d in cs + [c];
  }

  lemma PruneAnother(logs: Logs, account: nat, max: nat, cs: seq<SyncCollection>, c: SyncCollection)
    requires c !in cs
    ensures Pruned(Pruned(logs, account, max, cs), account, max, [c]) == Pruned(logs, account, max, cs + [c])
  {
    OtherIdsSame(logs, account, max, cs, c);
    hide StaysIn, MarksIn, Ids, Code, Vanished, Belongs;
    var once := Pruned(logs, account, max, cs);
    forall k | k in logs
      ensures StaysIn(logs, account, max, cs + [c], k)
         <==> StaysIn(logs, account, max, cs, k) && StaysIn(once, account, max, [c], k)
      ensures MarksIn(logs, account, max, cs + [c], k)
         <==> MarksIn(logs, account, max, cs, k) || MarksIn(once, account, max, [c], k)
    {
      AndAnother(logs, account, max, cs, c, k);
      OneOnly(once, account, max, c, k);
    }
  }

  lemma PruneMore(logs: Logs, account: nat, max: nat, i: nat)
    requires i < |CUT|
    ensures Pruned(Pruned(logs, account, max, CUT[..i]), account, max, [CUT[i]])
         == Pruned(logs, account, max, CUT[..i + 1])
  {
    hide Pruned;
    Distinct(i);
    assert CUT[..i + 1] == CUT[..i] + [CUT[i]];
    PruneAnother(logs, account, max, CUT[..i], CUT[i]);
  }

  /** All logs are cut but that of the share notifications, which expire instead. */
  lemma AllAreCut(c: SyncCollection)
    ensures c in CUT <==> c != ShareNotification
  {
    var cut := CUT;
    assert cut[0] in cut && cut[1] in cut && cut[2] in cut && cut[3] in cut && cut[4] in cut;
    assert cut[5] in cut && cut[6] in cut && cut[7] in cut && cut[8] in cut;
  }

  lemma Distinct(i: nat)
    requires i < |CUT|
    ensures CUT[i] !in CUT[..i]
  {
  }

  // --------------------------------------------------------------- the results

  /** Cutting twice is cutting once at the smaller limit and the later cut-off; a second run changes nothing. */
  lemma KeptTwice(logs: Logs, account: nat, m: Option<nat>, n: Option<nat>, a: U64, b: U64)
    ensures Kept(Kept(logs, account, m, a), account, n, b)
         == Kept(logs, account, Smaller(m, n), if a < b then b else a)
    ensures Kept(Kept(logs, account, m, a), account, m, a) == Kept(logs, account, m, a)
  {
    KeptAgain(logs, account, m, n, a, b);
    KeptAgain(logs, account, m, m, a, a);
  }

  function Smaller(m: Option<nat>, n: Option<nat>): Option<nat> {
    if m == None then n else if n == None then m else if m.value <= n.value then m else n
  }

  lemma KeptAgain(logs: Logs, account: nat, m: Option<nat>, n: Option<nat>, a: U64, b: U64)
    ensures Kept(Kept(logs, account, m, a), account, n, b)
         == Kept(logs, account, Smaller(m, n), if a < b then b else a)
  {
    hide Pruned, Expired;
    var once := if m == None then logs else Pruned(logs, account, m.value, CUT);
    ExpiredTwice(if n == None then once else Pruned(once, account, n.value, CUT), account, a, b);
    if n != None {
      ExpiredFirst(once, account, n.value, a);
      if m != None {
        PrunedTwice(logs, account, m.value, n.value);
      }
    }
  }

  lemma ExpiredTwice(logs: Logs, account: nat, a: U64, b: U64)
    ensures Expired(Expired(logs, account, a), account, b) == Expired(logs, account, if a < b then b else a)
  {
  }

  lemma NotShared(k: LogKey, account: nat, c: SyncCollection)
    requires c in CUT && Belongs(k, account, c)
    ensures k.collection != Code(ShareNotification)
  {
    Codes(c, ShareNotification);
  }

  lemma ExpiredIds(logs: Logs, account: nat, a: U64, c: SyncCollection)
    requires c in CUT
    ensures Ids(Expired(logs, account, a), account, Code(c)) == Ids(logs, account, Code(c))
  {
    hide Code, Vanished;
    forall k | k in logs && k.account == account && k.collection == Code(c)
      ensures k.collection != Code(ShareNotification)
    {
      NotShared(k, account, c);
    }
  }

  /** The two kinds of cut do not touch each other's logs. */
  lemma ExpiredFirst(logs: Logs, account: nat, max: nat, a: U64)
    ensures Pruned(Expired(logs, account, a), account, max, CUT) == Expired(Pruned(logs, account, max, CUT), account, a)
  {
    hide Ids, Code, Vanished, Belongs;
    var before := Expired(logs, account, a);
    forall k
      ensures StaysIn(before, account, max, CUT, k) <==> StaysIn(logs, account, max, CUT, k)
      ensures MarksIn(before, account, max, CUT, k) <==> MarksIn(logs, account, max, CUT, k)
    {
      forall c | c in CUT
        ensures Stays(before, account, max, c, k) <==> Stays(logs, account, max, c, k)
        ensures Marks(before, account, max, c, k) <==> Marks(logs, account, max, c, k)
      {
        ExpiredIds(logs, account, a, c);
      }
    }
    hide StaysIn, MarksIn;
  }

  /** After a cut, an entry that stayed has the same number of newer changes. */
  lemma NewerSame(logs: Logs, account: nat, max: nat, c: SyncCollection, id: U64)
    requires c in CUT && Newer(logs, account, c, id) <= max
    ensures Newer(Pruned(logs, account, max, CUT), account, c, id) == Newer(logs, account, c, id)
  {
    hide Code, Vanished;
    var ids := Ids(logs, account, Code(c));
    var after := Pruned(logs, account, max, CUT);
    forall k | k in logs && k.account == account && k.collection == Code(c) && k.changeId > id
      ensures k in after
    {
      SmallerSet(NewerThan(ids, k.changeId), NewerThan(ids, id));
      OwnStays(logs, account, max, c, k);
    }
    assert NewerThan(Ids(after, account, Code(c)), id) == NewerThan(ids, id);
  }

  lemma OwnStays(logs: Logs, account: nat, max: nat, c: SyncCollection, k: LogKey)
    requires c in CUT && Belongs(k, account, c)
    ensures StaysIn(logs, account, max, CUT, k) <==> Stays(logs, account, max, c, k)
    ensures MarksIn(logs, account, max, CUT, k) <==> Marks(logs, account, max, c, k)
  {
    hide Newer, Code, Vanished;
    forall d | d in CUT && Belongs(k, account, d) ensures d == c {
      BelongsToOne(k, account, c, d);
    }
  }

  lemma OwnedByNone(logs: Logs, account: nat, max: nat, k: LogKey)
    requires forall c :: c in CUT ==> !Belongs(k, account, c)
    ensures StaysIn(logs, account, max, CUT, k) && !MarksIn(logs, account, max, CUT, k)
  {
    hide Newer, Code, Vanished;
  }

  lemma EachTwice(logs: Logs, account: nat, m: nat, n: nat, k: LogKey)
    ensures var once := Pruned(logs, account, m, CUT);
      var both := if m <= n then m else n;
      && (StaysIn(logs, account, m, CUT, k) && StaysIn(once, account, n, CUT, k)
          <==> StaysIn(logs, account, both, CUT, k))
      && (StaysIn(logs, account, both, CUT, k) ==>
            (MarksIn(logs, account, m, CUT, k) || MarksIn(once, account, n, CUT, k)
             <==> MarksIn(logs, account, both, CUT, k)))
  {
    hide StaysIn, MarksIn, Pruned, Newer, Belongs;
    var once := Pruned(logs, account, m, CUT);
    var both := if m <= n then m else n;
    if c :| c in CUT && Belongs(k, account, c) {
      OwnStays(logs, account, m, c, k);
      OwnStays(once, account, n, c, k);
      OwnStays(logs, account, both, c, k);
      if Newer(logs, account, c, k.changeId) <= m {
        NewerSame(logs, account, m, c, k.changeId);
      }
    } else {
      OwnedByNone(logs, account, m, k);
      OwnedByNone(once, account, n, k);
      OwnedByNone(logs, account, both, k);
    }
  }

  lemma PrunedTwice(logs: Logs, account: nat, m: nat, n: nat)
    ensures Pruned(Pruned(logs, account, m, CUT), account, n, CUT)
         == Pruned(logs, account, if m <= n then m else n, CUT)
  {
    forall k {
      EachTwice(logs, account, m, n, k);
    }
    hide StaysIn, MarksIn;
  }

  lemma {:induction false} Greatest(ids: set<U64>) returns (g: U64)
    requires ids != {}
    ensures g in ids && forall x :: x in ids ==> x <= g
    decreases |ids|
  {
    g :| g in ids;
    var rest := ids - {g};
    if rest != {} {
      var h := Greatest(rest);
      assert forall x :: x in ids ==> x == g || x in rest;
      g := if h > g then h else g;
    }
  }

  /** In a set of more than `max` ids one has exactly `max` newer ones. */
  lemma {:induction false} Ranked(ids: set<U64>, max: nat) returns (m: U64)
    requires |ids| > max
    ensures m in ids && |NewerThan(ids, m)| == max
    decreases max
  {
    var g := Greatest(ids);
    if max == 0 {
      m := g;
      assert NewerThan(ids, m) == {};
    } else {
      m := Ranked(ids - {g}, max - 1);
      assert NewerThan(ids, m) == NewerThan(ids - {g}, m) + {g};
    }
  }

  /** A collection with more than `max` changes keeps the newest `max` as they were, and the next older one as an
      empty marker; all that is older goes, in its log and in the log of vanished items. */
  lemma NewestStay(logs: Logs, account: nat, max: nat, cutoff: U64, c: SyncCollection) returns (marker: U64)
    requires c != ShareNotification && |Ids(logs, account, Code(c))| > max
    ensures var after := Kept(logs, account, Some(max), cutoff);
      && LogKey(account, Code(c), marker) in logs
      && |NewerThan(Ids(logs, account, Code(c)), marker)| == max
      && (forall k :: Belongs(k, account, c) ==> (k in after <==> k in logs && k.changeId >= marker))
      && (forall k :: Belongs(k, account, c) && k in after ==>
            after[k] == if k == LogKey(account, Code(c), marker) then [] else logs[k])
  {
    hide Ids, NewerThan, Code, Vanished, StaysIn, MarksIn;
    AllAreCut(c);
    var ids := Ids(logs, account, Code(c));
    marker := Ranked(ids, max);
    MarkerStays(logs, account, c, marker);
    var after := Kept(logs, account, Some(max), cutoff);
    forall k | Belongs(k, account, c)
      ensures k in after <==> k in logs && k.changeId >= marker
      ensures k in after ==> after[k] == if k == LogKey(account, Code(c), marker) then [] else logs[k]
    {
      OwnStays(logs, account, max, c, k);
      NotShared(k, account, c);
      RankCut(ids, marker, k.changeId);
      InIds(logs, k);
    }
  }

  /** A collection within the limit, and every log that is not cut, stay as they are. */
  lemma RestStays(logs: Logs, account: nat, max: nat, cutoff: U64, k: LogKey)
    requires forall c :: c != ShareNotification && Belongs(k, account, c) ==> |Ids(logs, account, Code(c))| <= max
    requires k.account == account && k.collection == Code(ShareNotification) ==> k.changeId >= cutoff
    ensures var after := Kept(logs, account, Some(max), cutoff);
      (k in after <==> k in logs) && (k in logs ==> after[k] == logs[k])
  {
    hide Ids, NewerThan, Code, Vanished, StaysIn, MarksIn, Belongs;
    forall c ensures c in CUT <==> c != ShareNotification {
      AllAreCut(c);
    }
    if k in logs {
      if c :| c in CUT && Belongs(k, account, c) {
        OwnStays(logs, account, max, c, k);
        RankBelow(Ids(logs, account, Code(c)), k.changeId);
        InIds(logs, k);
      } else {
        OwnedByNone(logs, account, max, k);
      }
    }
  }

  /** Of the share notifications those remain whose millisecond is not before the cut-off (see `PastIdBoundary`). */
  lemma SharesExpire(logs: Logs, account: nat, maxEntries: Option<nat>, now: nat, period: nat, k: LogKey)
    requires k.account == account && k.collection == Code(ShareNotification) && k in logs
    ensures var elapsed: int := now - 1632280000 * 1_000_000_000;
      elapsed / 1_000_000 < 0x800_0000_0000 ==>
        (k in Kept(logs, account, maxEntries, Cutoff(Some(period), now)) <==>
         (period <= elapsed ==> k.changeId / 0x20_0000 >= (elapsed - period) / 1_000_000))
  {
    hide Belongs, Newer;
    var elapsed: int := now - Snowflake.DEFAULT_EPOCH * Snowflake.SECOND;
    if 0 <= elapsed && elapsed / Snowflake.MILLI < Snowflake.TWO43 && period <= elapsed {
      Snowflake.ShiftedIs((elapsed - period) / Snowflake.MILLI);
      Snowflake.TimeFits((elapsed - period) / Snowflake.MILLI);
    }
    if maxEntries != None {
      forall c | c in CUT ensures !Belongs(k, account, c) {
        if Belongs(k, account, c) {
          NotShared(k, account, c);
        }
      }
      OwnedByNone(logs, account, maxEntries.value, k);
    }
  }
}
