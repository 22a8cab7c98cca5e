// AuthFailureLimiter: a fixed table of recent failures, against a map without a size limit.
module FailureLimiting {
  import opened Machine

  const LIMIT: nat := 3
  const WINDOW_US: int := 60_000_000
  const COOLDOWN_US: int := 10_000_000
  const SLOTS: nat := 64

  // A key's fingerprint together with the address it came from.
  datatype Pair = Pair(key: Text, ip: Word32)

  datatype Record = Record(failures: nat, last: Word64, blockedUntil: Word64)

  datatype Entry = Entry(pair: Pair, record: Record, occupied: bool)

  const NO_RECORD := Record(0, 0, 0)
  const EMPTY := Entry(Pair([], 0), NO_RECORD, false)

  type Table = seq<Entry>

  predicate Holds(e: Entry, p: Pair)
  {
    e.occupied && e.pair == p
  }

  // One more failure on a record.
  function Charged(r: Record, now: Word64): Record
  {
    if r.failures + 1 >= LIMIT then Record(0, now, U64(now + COOLDOWN_US))
    else Record(r.failures + 1, now, r.blockedUntil)
  }

  // A record that is no longer of use: the clock stepped back, or the failure is too long ago.
  predicate Stale(r: Record, now: Word64)
  {
    now < r.last || now - r.last > WINDOW_US
  }

  function ChargedEntry(e: Entry, p: Pair, now: Word64): Entry
  {
    var record := if !Holds(e, p) || Stale(e.record, now) then NO_RECORD else e.record;
    Entry(p, Charged(record, now), true)
  }

  // ---------------------------------------------------------------------------------------------
  // The three ways a slot is chosen.

  // The first slot from i on that holds p, or |t|.
  function Find(t: Table, p: Pair, i: nat): (k: nat)
    requires i <= |t|
    ensures i <= k <= |t|
    ensures k < |t| ==> Holds(t[k], p)
    ensures forall j | i <= j < k :: !Holds(t[j], p)
    decreases |t| - i
  {
    if i == |t| || Holds(t[i], p) then i else Find(t, p, i + 1)
  }

  // The first free slot from i on, or |t|.
  function FirstFree(t: Table, i: nat): (k: nat)
    requires i <= |t|
    ensures i <= k <= |t|
    ensures k < |t| ==> !t[k].occupied
    ensures forall j | i <= j < k :: t[j].occupied
    decreases |t| - i
  {
    if i == |t| || !t[i].occupied then i else FirstFree(t, i + 1)
  }

  // The first of the slots below n whose last failure is the longest ago.
  function Oldest(t: Table, n: nat): (k: nat)
    requires 0 < n <= |t|
    ensures k < n
    ensures forall j | 0 <= j < n :: t[k].record.last <= t[j].record.last
    ensures forall j | 0 <= j < k :: t[k].record.last < t[j].record.last
  {
    if n == 1 then 0
    else
      var k := Oldest(t, n - 1);
      if t[n - 1].record.last < t[k].record.last then n - 1 else k
  }

  function Slot(t: Table, p: Pair): (k: nat)
    requires t != []
    ensures k < |t|
  {
    if Find(t, p, 0) < |t| then Find(t, p, 0)
    else if FirstFree(t, 0) < |t| then FirstFree(t, 0)
    else Oldest(t, |t|)
  }

  predicate Allows(t: Table, p: Pair, now: Word64)
  {
    var k := Find(t, p, 0);
    k == |t| || now >= t[k].record.blockedUntil
  }

  function AfterFailure(t: Table, p: Pair, now: Word64): (r: Table)
    requires t != []
    ensures |r| == |t|
  {
    t[Slot(t, p) := ChargedEntry(t[Slot(t, p)], p, now)]
  }

  function AfterSuccess(t: Table, p: Pair): (r: Table)
    ensures |r| == |t|
  {
    var k := Find(t, p, 0);
    if k == |t| then t else t[k := EMPTY]
  }

  function Cleared(): (t: Table)
    ensures |t| == SLOTS
    ensures forall i | 0 <= i < |t| :: t[i] == EMPTY
  {
    seq(SLOTS, _ => EMPTY)
  }

  class AuthFailureLimiter {
    const entries: array<Entry>

    ghost predicate Valid()
    {
      entries.Length == SLOTS
    }

    constructor ()
      ensures Valid() && fresh(entries)
      ensures entries[..] == Cleared()
    {
      entries := new Entry[SLOTS](_ => EMPTY);
    }

    method Allow(key: Text, ip: Word32, now: Word64) returns (allowed: bool)
      ensures allowed == Allows(entries[..], Pair(key, ip), now)
    {
      var i := 0;
      while i < entries.Length
        invariant 0 <= i <= entries.Length
        invariant Find(entries[..], Pair(key, ip), 0) == Find(entries[..], Pair(key, ip), i)
      {
        if entries[i].occupied && entries[i].pair.ip == ip && entries[i].pair.key == key {
          return now >= entries[i].record.blockedUntil;
        }
        i := i + 1;
      }
      return true;
    }

    // The scan of RecordFailure: it keeps a best slot so far and stops early at a match.
    method Select(p: Pair) returns (selected: nat)
      requires Valid()
      ensures selected == Slot(entries[..], p)
    {
      ghost var t := entries[..];
      var best: Option<nat> := None;
      var i := 0;
      while i < entries.Length
        invariant 0 <= i <= entries.Length && t == entries[..]
        invariant Find(t, p, 0) == Find(t, p, i)
        invariant best.None? <==> i == 0
        invariant best.Some? ==> best.value < i
        invariant best.Some? && !t[best.value].occupied ==> FirstFree(t, 0) == best.value
        invariant best.Some? && t[best.value].occupied ==>
                    FirstFree(t, 0) >= i && best.value == Oldest(t, i)
      {
        if entries[i].occupied && entries[i].pair == p {
          return i;
        }
        if !entries[i].occupied {
          if best.None? || entries[best.value].occupied {
            best := Some(i);
          }
        } else if best.None?
               || (entries[best.value].occupied && entries[i].record.last < entries[best.value].record.last) {
          best := Some(i);
        }
        i := i + 1;
      }
      return best.value;
    }

    method RecordFailure(key: Text, ip: Word32, now: Word64)
      requires Valid()
      modifies entries
      ensures entries[..] == AfterFailure(old(entries[..]), Pair(key, ip), now)
    {
      var p := Pair(key, ip);
      var k := Select(p);
      if !entries[k].occupied || entries[k].pair != p || now < entries[k].record.last
         || now - entries[k].record.last > WINDOW_US {
        entries[k] := EMPTY.(pair := p, occupied := true);
      }
      var e := entries[k];
      e := e.(record := e.record.(last := now, failures := e.record.failures + 1));
      if e.record.failures >= LIMIT {
        e := e.(record := e.record.(failures := 0, blockedUntil := U64(now + COOLDOWN_US)));
      }
      entries[k] := e;
    }

    method RecordSuccess(key: Text, ip: Word32)
      requires Valid()
      modifies entries
      ensures entries[..] == AfterSuccess(old(entries[..]), Pair(key, ip))
    {
      var p := Pair(key, ip);
      var i := 0;
      while i < entries.Length
        invariant 0 <= i <= entries.Length
        invariant entries[..] == old(entries[..])
        invariant Find(entries[..], p, 0) == Find(entries[..], p, i)
      {
        if entries[i].occupied && entries[i].pair == p {
          entries[i] := EMPTY;
          return;
        }
        i := i + 1;
      }
    }

    method Clear()
      requires Valid()
      modifies entries
      ensures entries[..] == Cleared()
    {
      forall i | 0 <= i < entries.Length {
        entries[i] := EMPTY;
      }
    }
  }

  // ---------------------------------------------------------------------------------------------
  // The reference: a map without a size limit, one record per pair.

  type Book = map<Pair, Record>

  predicate BookAllows(b: Book, p: Pair, now: Word64)
  {
    p !in b || now >= b[p].blockedUntil
  }

  datatype Op =
    | Failure(pair: Pair, now: Word64)
    | Success(pair: Pair)
    | Clear

  function Noted(b: Book, op: Op): Book
  {
    match op
    case Failure(p, now) => b[p := Charged(if p !in b || Stale(b[p], now) then NO_RECORD else b[p], now)]
    case Success(p) => b - {p}
    case Clear => map[]
  }

  function NotedAll(b: Book, ops: seq<Op>): Book
  {
    if ops == [] then b else Noted(NotedAll(b, ops[..|ops| - 1]), ops[|ops| - 1])
  }

  function Applied(t: Table, op: Op): (r: Table)
    requires |t| == SLOTS
    ensures |r| == SLOTS
  {
    match op
    case Failure(p, now) => AfterFailure(t, p, now)
    case Success(p) => AfterSuccess(t, p)
    case Clear => Cleared()
  }

  function Run(ops: seq<Op>): (t: Table)
    ensures |t| == SLOTS
  {
    if ops == [] then Cleared() else Applied(Run(ops[..|ops| - 1]), ops[|ops| - 1])
  }

  // No pair is in two slots, whatever has happened.
  ghost predicate Distinct(t: Table)
  {
    forall i, j | 0 <= i < j < |t| && t[i].occupied && t[j].occupied :: t[i].pair != t[j].pair
  }

  lemma {:induction false} NoPairTwice(ops: seq<Op>)
    ensures Distinct(Run(ops))
  {
    if ops != [] {
      var front := ops[..|ops| - 1];
      NoPairTwice(front);
      match ops[|ops| - 1]
      case Failure(p, now) => FailureKeepsDistinct(Run(front), p, now);
      case Success(p) =>
      case Clear =>
    }
  }

  lemma FailureKeepsDistinct(t: Table, p: Pair, now: Word64)
    requires t != [] && Distinct(t)
    ensures Distinct(AfterFailure(t, p, now))
    ensures forall i | 0 <= i < |t| && i != Slot(t, p) :: !Holds(t[i], p)
  {
    forall i | 0 <= i < |t| && i != Slot(t, p) ensures !Holds(t[i], p) {
      assert Find(t, p, 0) == |t| || Holds(t[Slot(t, p)], p);
    }
  }

  // The pairs of the first n slots.
  ghost function PairsIn(t: Table, n: nat): (s: set<Pair>)
    requires n <= |t|
  {
    if n == 0 then {} else PairsIn(t, n - 1) + {t[n - 1].pair}
  }

  lemma {:induction false} SlotOfPair(t: Table, n: nat, p: Pair) returns (i: nat)
    requires n <= |t| && p in PairsIn(t, n)
    ensures i < n && t[i].pair == p
  {
    if t[n - 1].pair == p {
      i := n - 1;
    } else {
      i := SlotOfPair(t, n - 1, p);
    }
  }

  lemma {:induction false} PairOfSlot(t: Table, n: nat, i: nat)
    requires i < n <= |t|
    ensures t[i].pair in PairsIn(t, n)
  {
    if i < n - 1 {
      PairOfSlot(t, n - 1, i);
    }
  }

  lemma {:induction false} NotAmongSlots(t: Table, n: nat, p: Pair)
    requires n <= |t|
    requires forall i | 0 <= i < n :: t[i].occupied && !Holds(t[i], p)
    ensures p !in PairsIn(t, n)
  {
    if n > 0 {
      NotAmongSlots(t, n - 1, p);
      assert !Holds(t[n - 1], p);
    }
  }

  lemma {:induction false} FullTableHoldsAsManyPairs(t: Table, n: nat)
    requires n <= |t| && Distinct(t)
    requires forall i | 0 <= i < n :: t[i].occupied
    ensures |PairsIn(t, n)| == n
  {
    if n > 0 {
      FullTableHoldsAsManyPairs(t, n - 1);
      NotAmongSlots(t, n - 1, t[n - 1].pair);
    }
  }

  // Table and map say the same about every pair.
  ghost predicate Agrees(t: Table, b: Book)
  {
    && Distinct(t)
    && (forall i | 0 <= i < |t| && t[i].occupied :: t[i].pair in b && b[t[i].pair] == t[i].record)
    && (forall p | p in b :: Find(t, p, 0) < |t|)
  }

  // The pairs of the map fit the table at every step of the run.
  ghost predicate Fits(ops: seq<Op>)
  {
    ops != [] ==>
      var front, op := ops[..|ops| - 1], ops[|ops| - 1];
      var b := NotedAll(map[], front);
      Fits(front) && (op.Failure? && op.pair !in b ==> |b| < SLOTS)
  }

  lemma RoomForNewPair(t: Table, b: Book, p: Pair)
    requires t != [] && Agrees(t, b) && p !in b && |b| < |t|
    ensures !t[Slot(t, p)].occupied
  {
    if forall i | 0 <= i < |t| :: t[i].occupied {
      FullTableHoldsAsManyPairs(t, |t|);
      forall q | q in PairsIn(t, |t|) ensures q in b {
        var i := SlotOfPair(t, |t|, q);
      }
      SubsetIsSmaller(PairsIn(t, |t|), b.Keys);
    }
  }

  lemma FailureAgrees(t: Table, b: Book, p: Pair, now: Word64)
    requires t != [] && Agrees(t, b) && (p in b || |b| < |t|)
    ensures Agrees(AfterFailure(t, p, now), Noted(b, Failure(p, now)))
  {
    var k, r, c := Slot(t, p), AfterFailure(t, p, now), Noted(b, Failure(p, now));
    if p !in b { RoomForNewPair(t, b, p); }
    FailureKeepsDistinct(t, p, now);
    assert Holds(t[k], p) <==> p in b;
    forall i | 0 <= i < |r| && r[i].occupied ensures r[i].pair in c && c[r[i].pair] == r[i].record {
      if i != k { assert !Holds(t[i], p); }
    }
    forall q | q in c ensures Find(r, q, 0) < |r| {
      if q == p {
        assert Holds(r[k], p);
      } else {
        assert Holds(t[Find(t, q, 0)], q);
        assert Holds(r[Find(t, q, 0)], q);
      }
    }
  }

  lemma SuccessAgrees(t: Table, b: Book, p: Pair)
    requires Agrees(t, b)
    ensures Agrees(AfterSuccess(t, p), Noted(b, Success(p)))
  {
    var k, r, c := Find(t, p, 0), AfterSuccess(t, p), Noted(b, Success(p));
    forall i | 0 <= i < |r| && r[i].occupied ensures r[i].pair in c && c[r[i].pair] == r[i].record {
      assert r[i].pair != p by { if k < |t| && i < k { assert !Holds(t[i], p); } }
    }
    forall q | q in c ensures Find(r, q, 0) < |r| {
      assert Holds(t[Find(t, q, 0)], q);
      assert Holds(r[Find(t, q, 0)], q);
    }
  }

  // While the pairs fit, the table is the map, on every run.
  lemma {:induction false} TableAgreesWithMap(ops: seq<Op>)
    requires Fits(ops)
    ensures Agrees(Run(ops), NotedAll(map[], ops))
  {
    if ops != [] {
      var front := ops[..|ops| - 1];
      TableAgreesWithMap(front);
      match ops[|ops| - 1]
      case Failure(p, now) => FailureAgrees(Run(front), NotedAll(map[], front), p, now);
      case Success(p) => SuccessAgrees(Run(front), NotedAll(map[], front), p);
      case Clear =>
    }
  }

  lemma AllowAgreesWithMap(ops: seq<Op>, p: Pair, now: Word64)
    requires Fits(ops)
    ensures Allows(Run(ops), p, now) == BookAllows(NotedAll(map[], ops), p, now)
  {
    TableAgreesWithMap(ops);
  }

  // The pairs that ever failed in the run.
  ghost function FailedPairs(ops: seq<Op>): set<Pair>
  {
    set i | 0 <= i < |ops| && ops[i].Failure? :: ops[i].pair
  }

  lemma {:induction false} BookOfFailedPairs(ops: seq<Op>)
    ensures NotedAll(map[], ops).Keys <= FailedPairs(ops)
  {
    if ops != [] {
      BookOfFailedPairs(ops[..|ops| - 1]);
      assert forall i | 0 <= i < |ops| - 1 :: ops[..|ops| - 1][i] == ops[i];
    }
  }

  // In particular they fit when no more distinct pairs than slots ever fail.
  lemma {:induction false} FewPairsFit(ops: seq<Op>)
    requires |FailedPairs(ops)| <= 64
    ensures Fits(ops)
  {
    if ops != [] {
      var front, op := ops[..|ops| - 1], ops[|ops| - 1];
      assert FailedPairs(front) <= FailedPairs(ops) by {
        assert forall i | 0 <= i < |front| :: front[i] == ops[i];
      }
      SubsetIsSmaller(FailedPairs(front), FailedPairs(ops));
      FewPairsFit(front);
      var b := NotedAll(map[], front);
      if op.Failure? && op.pair !in b {
        BookOfFailedPairs(front);
        assert b.Keys + {op.pair} <= FailedPairs(ops);
        SubsetIsSmaller(b.Keys + {op.pair}, FailedPairs(ops));
        assert |b.Keys + {op.pair}| == |b| + 1;
      }
    }
  }

  // ---------------------------------------------------------------------------------------------
  // Eviction.

  ghost predicate FailedNoEarlier(ops: seq<Op>, p: Pair, since: Word64)
  {
    exists k :: 0 <= k < |ops| && ops[k].Failure? && ops[k].pair == p && ops[k].now >= since
  }

  ghost predicate TimesRise(ops: seq<Op>)
  {
    forall i, j | 0 <= i < j < |ops| && ops[i].Failure? && ops[j].Failure? :: ops[i].now <= ops[j].now
  }

  // The latest failure of the pair in the run was at this time.
  ghost predicate LastFailed(ops: seq<Op>, p: Pair, at: Word64)
  {
    && Failure(p, at) in ops
    && forall k | 0 <= k < |ops| && ops[k].Failure? && ops[k].pair == p :: ops[k].now <= at
  }

  // Every slot in use remembers the latest failure of its pair.
  ghost predicate Remembers(t: Table, ops: seq<Op>)
  {
    forall i | 0 <= i < |t| && t[i].occupied :: LastFailed(ops, t[i].pair, t[i].record.last)
  }

  lemma TimesRiseBefore(ops: seq<Op>, op: Op)
    requires TimesRise(ops + [op])
    ensures TimesRise(ops)
    ensures op.Failure? ==> forall k | 0 <= k < |ops| && ops[k].Failure? :: ops[k].now <= op.now
  {
    var all := ops + [op];
    assert all[|ops|] == op && forall k | 0 <= k < |ops| :: all[k] == ops[k];
  }

  // An operation that is no failure of the pair leaves its latest failure; one that is becomes it.
  lemma LastFailedAfter(ops: seq<Op>, op: Op, p: Pair, at: Word64)
    requires TimesRise(ops + [op])
    ensures LastFailed(ops, p, at) && op != Failure(p, at) && !(op.Failure? && op.pair == p) ==>
              LastFailed(ops + [op], p, at)
    ensures op == Failure(p, at) ==> LastFailed(ops + [op], p, at)
  {
    TimesRiseBefore(ops, op);
    assert op in ops + [op];
  }

  lemma {:induction false} RunRemembers(ops: seq<Op>)
    requires TimesRise(ops)
    ensures Remembers(Run(ops), ops)
  {
    if ops != [] {
      hide Slot, ChargedEntry, LastFailed;
      var front, op := ops[..|ops| - 1], ops[|ops| - 1];
      assert ops == front + [op];
      TimesRiseBefore(front, op);
      RunRemembers(front);
      NoPairTwice(front);
      var t, r := Run(front), Run(ops);
      if op.Failure? { FailureKeepsDistinct(t, op.pair, op.now); }
      forall i | 0 <= i < SLOTS && r[i].occupied ensures LastFailed(ops, r[i].pair, r[i].record.last) {
        LastFailedAfter(front, op, r[i].pair, r[i].record.last);
        ChargedIsStamped(t[i], if op.Failure? then op.pair else t[i].pair, if op.Failure? then op.now else 0);
      }
    }
  }

  lemma ChargedIsStamped(e: Entry, p: Pair, now: Word64)
    ensures var c := ChargedEntry(e, p, now); c.pair == p && c.record.last == now && c.occupied
  {
  }

  lemma NewFailureIsLatest(ops: seq<Op>, p: Pair, now: Word64, gone: Pair, at: Word64)
    requires TimesRise(ops + [Failure(p, now)]) && LastFailed(ops, gone, at)
    ensures FailedNoEarlier(ops + [Failure(p, now)], p, at)
  {
    var all := ops + [Failure(p, now)];
    var i :| 0 <= i < |ops| && ops[i] == Failure(gone, at);
    assert all[i] == ops[i] && all[|ops|] == Failure(p, now);
  }

  lemma FailedBefore(ops: seq<Op>, p: Pair, now: Word64, q: Pair, last: Word64, at: Word64)
    requires LastFailed(ops, q, last) && at <= last
    ensures FailedNoEarlier(ops + [Failure(p, now)], q, at)
  {
    var j :| 0 <= j < |ops| && ops[j] == Failure(q, last);
    assert (ops + [Failure(p, now)])[j] == ops[j];
  }

  // A failure throws another pair out only when as many other pairs as the table has slots have
  // failed no earlier than the latest failure of the one that goes.
  lemma EvictionIsEarned(ops: seq<Op>, p: Pair, now: Word64)
    requires TimesRise(ops + [Failure(p, now)])
    requires var e := Run(ops)[Slot(Run(ops), p)]; e.occupied && e.pair != p
    ensures var gone := Run(ops)[Slot(Run(ops), p)].pair;
            exists others: set<Pair>, at: Word64 :: |others| == 64 && gone !in others && LastFailed(ops, gone, at)
              && forall q | q in others :: FailedNoEarlier(ops + [Failure(p, now)], q, at)
  {
    hide Run, PairsIn, Distinct, Find, FirstFree, Oldest, FailedNoEarlier, LastFailed;
    var t, all := Run(ops), ops + [Failure(p, now)];
    var k := Slot(t, p);
    var e := t[k];
    TimesRiseBefore(ops, Failure(p, now));
    NoPairTwice(ops);
    RunRemembers(ops);
    assert Find(t, p, 0) == |t| && FirstFree(t, 0) == |t|;
    FullTableHoldsAsManyPairs(t, |t|);
    var others := PairsIn(t, |t|) - {e.pair} + {p};
    forall q | q in others ensures FailedNoEarlier(all, q, e.record.last) {
      if q == p {
        NewFailureIsLatest(ops, p, now, e.pair, e.record.last);
      } else {
        var i := SlotOfPair(t, |t|, q);
        FailedBefore(ops, p, now, q, t[i].record.last, e.record.last);
      }
    }
    NotAmongSlots(t, |t|, p);
    PairOfSlot(t, |t|, k);
  }

  // ---------------------------------------------------------------------------------------------
  // What the records mean.

  predicate Releases(op: Op, p: Pair)
  {
    op == Clear || op == Success(p)
  }

  // A pause once imposed lasts: whatever fails meanwhile, and only a success of the pair itself or
  // clearing the table ends it early.
  lemma {:induction false} PauseLasts(b: Book, p: Pair, ops: seq<Op>, now: Word64)
    requires p in b && now < b[p].blockedUntil <= b[p].last + COOLDOWN_US
    requires forall i | 0 <= i < |ops| :: !Releases(ops[i], p)
    requires forall i | 0 <= i < |ops| && ops[i].Failure? :: b[p].last <= ops[i].now <= now
    requires TimesRise(ops) && now + COOLDOWN_US < TWO64
    ensures var c := NotedAll(b, ops);
            && p in c && now < c[p].blockedUntil <= c[p].last + COOLDOWN_US
            && (c[p] == b[p] || exists i :: 0 <= i < |ops| && ops[i] == Failure(p, c[p].last))
            && !BookAllows(c, p, now)
  {
    if ops != [] {
      var front, op := ops[..|ops| - 1], ops[|ops| - 1];
      PauseLasts(b, p, front, now);
      var c := NotedAll(b, front);
      if op.Failure? && op.pair == p {
        assert c[p].last <= op.now;
        assert ops[|ops| - 1] == Failure(p, op.now);
      } else {
        assert NotedAll(b, ops)[p] == c[p];
        if c[p] != b[p] {
          var i :| 0 <= i < |front| && front[i] == Failure(p, c[p].last);
          assert ops[i] == front[i];
        }
      }
    }
  }

  // When the pair failed, since it was last released.
  function FailureTimes(ops: seq<Op>, p: Pair): seq<Word64>
  {
    if ops == [] then []
    else
      var before, op := FailureTimes(ops[..|ops| - 1], p), ops[|ops| - 1];
      if Releases(op, p) then []
      else if op.Failure? && op.pair == p then before + [op.now]
      else before
  }

  // How many failures at the end follow one another within the window.
  function Streak(times: seq<Word64>): (n: nat)
    ensures n <= |times|
    ensures n == 0 <==> times == []
  {
    var n := |times|;
    if n == 0 then 0
    else if n == 1 || times[n - 1] < times[n - 2] || times[n - 1] - times[n - 2] > WINDOW_US then 1
    else Streak(times[..n - 1]) + 1
  }

  // When the pause ends that the last full round of failures in the streak began, or 0.
  function PauseEnd(times: seq<Word64>): Word64
  {
    var n := Streak(times);
    if n < LIMIT then 0 else U64(times[|times| - 1 - n % LIMIT] + COOLDOWN_US)
  }

  // The record of a pair, said in the times of its failures: the count of a streak starts again with
  // every pause, so every third failure of a streak begins one.
  ghost predicate RecordTells(b: Book, p: Pair, times: seq<Word64>)
  {
    if times == [] then p !in b
    else p in b && b[p] == Record(Streak(times) % LIMIT, times[|times| - 1], PauseEnd(times))
  }

  lemma OneMoreFailure(times: seq<Word64>, now: Word64)
    ensures Streak(times + [now]) ==
              if times == [] || Stale(Record(0, times[|times| - 1], 0), now) then 1 else Streak(times) + 1
  {
    assert (times + [now])[..|times|] == times;
  }

  lemma FailureTells(b: Book, p: Pair, times: seq<Word64>, now: Word64)
    requires RecordTells(b, p, times)
    ensures RecordTells(Noted(b, Failure(p, now)), p, times + [now])
  {
    hide Streak;
    OneMoreFailure(times, now);
    var n := Streak(times);
    if Streak(times + [now]) == n + 1 && (n + 1) % LIMIT != 0 && n >= LIMIT {
      var k := |times| - 1 - n % LIMIT;
      assert (times + [now])[k] == times[k];
      assert |times + [now]| - 1 - (n + 1) % LIMIT == k;
    }
  }

  lemma {:induction false} RunTells(ops: seq<Op>, p: Pair)
    ensures RecordTells(NotedAll(map[], ops), p, FailureTimes(ops, p))
  {
    if ops != [] {
      hide RecordTells, Streak;
      var front, op := ops[..|ops| - 1], ops[|ops| - 1];
      RunTells(front, p);
      if op.Failure? && op.pair == p {
        FailureTells(NotedAll(map[], front), p, FailureTimes(front, p), op.now);
      } else {
        OthersTell(NotedAll(map[], front), p, FailureTimes(front, p), op);
      }
    } else {
      assert RecordTells(map[], p, []);
    }
  }

  lemma OthersTell(b: Book, p: Pair, times: seq<Word64>, op: Op)
    requires RecordTells(b, p, times) && !(op.Failure? && op.pair == p)
    ensures RecordTells(Noted(b, op), p, if Releases(op, p) then [] else times)
  {
    hide Streak, PauseEnd;
  }

  // On every run, whoever else fails, a pair is blocked exactly until the pause is over that the last
  // third, sixth, ninth ... failure of its present streak began.
  lemma BlockedIff(ops: seq<Op>, p: Pair, now: Word64)
    requires Fits(ops)
    ensures var times := FailureTimes(ops, p);
            !Allows(Run(ops), p, now) <==> Streak(times) >= LIMIT && now < PauseEnd(times)
  {
    hide Allows, Run, Streak, NotedAll, FailureTimes;
    AllowAgreesWithMap(ops, p, now);
    RunTells(ops, p);
  }

  // A failure of a pair that is not paused begins a pause exactly when it makes the streak a multiple
  // of three (and the end of the pause does not wrap).
  lemma FailureBlocksIff(ops: seq<Op>, p: Pair, now: Word64)
    requires Fits(ops + [Failure(p, now)]) && Allows(Run(ops), p, now)
    ensures var times := FailureTimes(ops, p) + [now];
            !Allows(Run(ops + [Failure(p, now)]), p, now)
            <==> Streak(times) % LIMIT == 0 && now + COOLDOWN_US < TWO64
  {
    hide Allows, Run, Streak, Fits, NotedAll;
    var all, times := ops + [Failure(p, now)], FailureTimes(ops, p);
    assert all[..|all| - 1] == ops;
    assert FailureTimes(all, p) == times + [now];
    FitsBefore(ops, Failure(p, now));
    BlockedIff(ops, p, now);
    BlockedIff(all, p, now);
    OneMoreFailure(times, now);
    var n := Streak(times + [now]);
    if n % LIMIT == 0 {
      assert PauseEnd(times + [now]) == U64((times + [now])[|times|] + COOLDOWN_US);
    } else if n >= LIMIT {
      PauseGoesOn(times, now);
    }
  }

  lemma FitsBefore(ops: seq<Op>, op: Op)
    requires Fits(ops + [op])
    ensures Fits(ops)
  {
    assert (ops + [op])[..|ops|] == ops;
  }

  // Between two rounds the end of the pause is the one of the round before.
  lemma PauseGoesOn(times: seq<Word64>, now: Word64)
    requires Streak(times + [now]) >= LIMIT && Streak(times + [now]) % LIMIT != 0
    ensures Streak(times) >= LIMIT && PauseEnd(times + [now]) == PauseEnd(times)
  {
    hide Streak;
    OneMoreFailure(times, now);
    var n := Streak(times);
    var k := |times| - 1 - n % LIMIT;
    assert |times + [now]| - 1 - (n + 1) % LIMIT == k && (times + [now])[k] == times[k];
  }

  // ---------------------------------------------------------------------------------------------
  // The table itself, however many pairs fail.

  predicate InTable(ops: seq<Op>, p: Pair)
  {
    Find(Run(ops), p, 0) < SLOTS
  }

  // When the pair failed since it last entered the table: a release or an eviction forgets the rest.
  function TimesInTable(ops: seq<Op>, p: Pair): seq<Word64>
  {
    if ops == [] || !InTable(ops, p) then []
    else
      var before, op := TimesInTable(ops[..|ops| - 1], p), ops[|ops| - 1];
      if op.Failure? && op.pair == p then before + [op.now] else before
  }

  // The entry of a pair, if it has one, told by those times.
  ghost predicate EntryTells(t: Table, p: Pair, times: seq<Word64>)
  {
    var k := Find(t, p, 0);
    if times == [] then k == |t|
    else k < |t| && t[k].record == Record(Streak(times) % LIMIT, times[|times| - 1], PauseEnd(times))
  }

  lemma FoundIsHeld(t: Table, p: Pair, k: nat)
    requires k < |t| && Distinct(t) && Holds(t[k], p)
    ensures Find(t, p, 0) == k
  {
  }

  lemma FailureEntryTells(t: Table, p: Pair, times: seq<Word64>, now: Word64)
    requires t != [] && Distinct(t) && EntryTells(t, p, times)
    ensures EntryTells(AfterFailure(t, p, now), p, times + [now])
  {
    hide Streak, PauseEnd, Oldest, FirstFree, Find, Distinct;
    FailureKeepsDistinct(t, p, now);
    var k, r := Slot(t, p), AfterFailure(t, p, now);
    FoundIsHeld(r, p, k);
    var b: Book := if times == [] then map[] else map[p := t[Find(t, p, 0)].record];
    FailureTells(b, p, times, now);
    assert r[k].record == Noted(b, Failure(p, now))[p];
  }

  // Where another pair stays in the table, its entry stays as it is.
  lemma OtherEntryStays(t: Table, op: Op, p: Pair)
    requires |t| == SLOTS && Distinct(t) && !(op.Failure? && op.pair == p)
    requires Find(Applied(t, op), p, 0) < SLOTS
    ensures Find(t, p, 0) < SLOTS
    ensures Applied(t, op)[Find(Applied(t, op), p, 0)] == t[Find(t, p, 0)]
  {
    hide Slot;
    var k := Find(Applied(t, op), p, 0);
    FoundIsHeld(t, p, k);
  }

  // On every run, past its capacity too, the table tells of each pair what it did since it last entered: a
  // pair that takes the place of another starts afresh.
  lemma {:induction false} TableTells(ops: seq<Op>, p: Pair)
    ensures EntryTells(Run(ops), p, TimesInTable(ops, p))
  {
    if ops != [] {
      hide Streak, PauseEnd, Distinct, AfterFailure, AfterSuccess, Applied, Find;
      var front, op := ops[..|ops| - 1], ops[|ops| - 1];
      TableTells(front, p);
      NoPairTwice(front);
      NoPairTwice(ops);
      if op.Failure? && op.pair == p {
        FailureEntryTells(Run(front), p, TimesInTable(front, p), op.now);
        assert Run(ops) == AfterFailure(Run(front), p, op.now) by { UnfoldFailure(Run(front), op); }
      } else if InTable(ops, p) {
        OtherEntryStays(Run(front), op, p);
      }
    } else {
      EmptyTable(p);
    }
  }

  lemma UnfoldFailure(t: Table, op: Op)
    requires |t| == SLOTS && op.Failure?
    ensures Applied(t, op) == AfterFailure(t, op.pair, op.now)
  {
    hide AfterFailure;
  }

  lemma EmptyTable(p: Pair)
    ensures Find(Cleared(), p, 0) == SLOTS
  {
  }

  // On every run a pair is blocked exactly while it is in the table and the pause is not over that the last
  // third, sixth, ninth ... failure of its streak there began.
  lemma AllowsIff(ops: seq<Op>, p: Pair, now: Word64)
    ensures var times := TimesInTable(ops, p);
            !Allows(Run(ops), p, now) <==> Streak(times) >= 3 && now < PauseEnd(times)
  {
    hide Run, Streak, TimesInTable, Find;
    TableTells(ops, p);
  }

  // The table is full, and the entry of this pair is the first of those whose last failure is the longest ago.
  ghost predicate GivesWay(t: Table, p: Pair)
  {
    var k := Find(t, p, 0);
    && k < |t|
    && (forall i | 0 <= i < |t| :: t[i].occupied && t[k].record.last <= t[i].record.last)
    && (forall i | 0 <= i < k :: t[k].record.last < t[i].record.last)
  }

  // Who is in the table: a pair enters it with a failure, and leaves it when it is released or gives way
  // to a pair that has no entry.
  lemma InTableIff(ops: seq<Op>, op: Op, p: Pair)
    ensures InTable(ops + [op], p) <==>
              || (op.Failure? && op.pair == p)
              || (&& InTable(ops, p) && !Releases(op, p)
                  && !(op.Failure? && !InTable(ops, op.pair) && GivesWay(Run(ops), p)))
  {
    hide Run;
    var all, t := ops + [op], Run(ops);
    assert all[..|ops|] == ops;
    NoPairTwice(ops);
    RunOfOneMore(ops, op);
    match op
    case Clear => EmptyTable(p);
    case Success(q) => ReleasedLeaves(t, q, p);
    case Failure(q, now) =>
      if q == p { EntersTable(ops, p, now); } else { FailureLeaves(t, q, now, p); }
  }

  lemma RunOfOneMore(ops: seq<Op>, op: Op)
    ensures Run(ops + [op]) == Applied(Run(ops), op)
  {
    hide Applied;
    assert (ops + [op])[..|ops|] == ops;
  }

  lemma ReleasedLeaves(t: Table, q: Pair, p: Pair)
    requires Distinct(t)
    ensures Find(AfterSuccess(t, q), p, 0) < |t| <==> Find(t, p, 0) < |t| && p != q
  {
    hide Find;
    var r, k := AfterSuccess(t, q), Find(t, p, 0);
    if k < |t| && p != q { assert Holds(r[k], p); }
  }

  lemma FailureLeaves(t: Table, q: Pair, now: Word64, p: Pair)
    requires t != [] && Distinct(t) && p != q
    ensures Find(AfterFailure(t, q, now), p, 0) < |t|
            <==> Find(t, p, 0) < |t| && !(Find(t, q, 0) == |t| && GivesWay(t, p))
  {
    hide Find, FirstFree, Oldest;
    var r, k, slot := AfterFailure(t, q, now), Find(t, p, 0), Slot(t, q);
    assert forall i | 0 <= i < |t| && i != slot :: r[i] == t[i];
    assert r[slot].pair == q;
    if k < |t| && k != slot {
      assert Holds(r[k], p);
      assert GivesWay(t, p) && Find(t, q, 0) == |t| ==> FirstFree(t, 0) == |t|;
    }
  }

  // A pair that is not in the table enters it with one failure, whosever place it takes, and is allowed.
  lemma NewcomerStartsAfresh(ops: seq<Op>, p: Pair, now: Word64)
    requires !InTable(ops, p)
    ensures var t := Run(ops + [Failure(p, now)]);
            && InTable(ops + [Failure(p, now)], p)
            && t[Find(t, p, 0)].record == Record(1, now, 0)
            && Allows(t, p, now)
  {
    var all := ops + [Failure(p, now)];
    assert all[..|ops|] == ops;
    hide Run, Find;
    TableTells(all, p);
    EntersTable(ops, p, now);
    assert TimesInTable(all, p) == [] + [now];
    OneMoreFailure([], now);
  }

  lemma EntersTable(ops: seq<Op>, p: Pair, now: Word64)
    ensures InTable(ops + [Failure(p, now)], p)
  {
    hide Find, Slot;
    var all := ops + [Failure(p, now)];
    assert all[..|ops|] == ops;
    NoPairTwice(all);
    var t := Run(all);
    FoundIsHeld(t, p, Slot(Run(ops), p));
  }

  // The failures of one pair at these times.
  function Failures(p: Pair, times: seq<Word64>): (ops: seq<Op>)
    ensures |ops| == |times|
  {
    if times == [] then [] else Failures(p, times[..|times| - 1]) + [Failure(p, times[|times| - 1])]
  }

  lemma {:induction false} FailuresAreTimed(p: Pair, times: seq<Word64>)
    ensures FailureTimes(Failures(p, times), p) == times
    ensures FailedPairs(Failures(p, times)) <= {p}
  {
    if times != [] {
      var front := times[..|times| - 1];
      FailuresAreTimed(p, front);
      var ops := Failures(p, times);
      assert ops[..|ops| - 1] == Failures(p, front);
      forall i | 0 <= i < |ops| && ops[i].Failure? ensures ops[i].pair == p {
        if i < |front| {
          assert ops[i] == Failures(p, front)[i];
          assert ops[i].pair in FailedPairs(Failures(p, front));
        }
      }
    }
  }

  // So a minute is counted from the failure before, and a pause starts the count again: failures at 0, 50
  // and 100 seconds block although they span more than a minute, at 0, 10 and 100 seconds they do not, and
  // neither do the last three of 0, 1, 2, 13 and 14 seconds although they lie within one. The minute itself
  // is within the window, and the pause is ten seconds.
  lemma MinuteIsCountedFromTheLast(p: Pair)
    ensures !Allows(Run(Failures(p, [0, 50_000_000, 100_000_000])), p, 100_000_000)
    ensures Allows(Run(Failures(p, [0, 10_000_000, 100_000_000])), p, 100_000_000)
    ensures Allows(Run(Failures(p, [0, 1_000_000, 2_000_000, 13_000_000, 14_000_000])), p, 14_000_000)
    ensures !Allows(Run(Failures(p, [0, 60_000_000, 120_000_000])), p, 129_999_999)
    ensures Allows(Run(Failures(p, [0, 60_000_000, 120_000_000])), p, 130_000_000)
    ensures Allows(Run(Failures(p, [0, 60_000_001, 120_000_000])), p, 120_000_000)
  {
    hide Allows, Run, Streak, PauseEnd, Failures, FailureTimes;
    OnePairBlockedIff(p, [0, 50_000_000, 100_000_000], 100_000_000);
    OnePairBlockedIff(p, [0, 10_000_000, 100_000_000], 100_000_000);
    OnePairBlockedIff(p, [0, 1_000_000, 2_000_000, 13_000_000, 14_000_000], 14_000_000);
    OnePairBlockedIff(p, [0, 60_000_000, 120_000_000], 129_999_999);
    OnePairBlockedIff(p, [0, 60_000_000, 120_000_000], 130_000_000);
    OnePairBlockedIff(p, [0, 60_000_001, 120_000_000], 120_000_000);
    TheseStreaks();
  }

  lemma OnePairBlockedIff(p: Pair, times: seq<Word64>, now: Word64)
    ensures !Allows(Run(Failures(p, times)), p, now) <==> Streak(times) >= LIMIT && now < PauseEnd(times)
  {
    hide Allows, Run, Streak, PauseEnd, Failures;
    FailuresAreTimed(p, times);
    SubsetIsSmaller(FailedPairs(Failures(p, times)), {p});
    FewPairsFit(Failures(p, times));
    BlockedIff(Failures(p, times), p, now);
  }

  lemma TheseStreaks()
    ensures Streak([0, 50_000_000, 100_000_000]) == 3 && PauseEnd([0, 50_000_000, 100_000_000]) == 110_000_000
    ensures Streak([0, 10_000_000, 100_000_000]) == 1
    ensures PauseEnd([0, 1_000_000, 2_000_000, 13_000_000, 14_000_000]) == 12_000_000
    ensures Streak([0, 60_000_000, 120_000_000]) == 3 && PauseEnd([0, 60_000_000, 120_000_000]) == 130_000_000
    ensures Streak([0, 60_000_001, 120_000_000]) == 2
  {
    hide Streak;
    ThreeInARow(0, 60_000_000, 120_000_000);
    ThreeInARow(0, 60_000_001, 120_000_000);
    ThreeInARow(0, 50_000_000, 100_000_000);
    ThreeInARow(0, 10_000_000, 100_000_000);
    ThreeInARow(0, 1_000_000, 2_000_000);
    var a, b: seq<Word64> := [0, 1_000_000, 2_000_000], [0, 1_000_000, 2_000_000, 13_000_000];
    OneMoreFailure(a, 13_000_000);
    OneMoreFailure(b, 14_000_000);
    assert a + [13_000_000] == b && b + [14_000_000] == [0, 1_000_000, 2_000_000, 13_000_000, 14_000_000];
  }

  lemma ThreeInARow(t1: Word64, t2: Word64, t3: Word64)
    requires t1 <= t2 <= t3
    ensures Streak([t1, t2, t3]) == if t3 - t2 > WINDOW_US then 1 else if t2 - t1 > WINDOW_US then 2 else 3
  {
    assert [t1, t2, t3][..2] == [t1, t2] && [t1, t2][..1] == [t1];
  }
}
