/**
 Concurrent reads: a fetch releases the lock between its lookup and its insert, so
 any other section may run in between. Every interleaving is a run of the state
 machine below (crates/hxy-core/src/cache.rs).
 */
module CacheInterleavings {
  import opened Splices
  import opened LruChunks
  import opened ByteCacheModel

  datatype ReadOutcome = Delivered(bytes: Bytes) | PastEnd(sourceLen: nat) | SourceFailed

  datatype Phase =
    | Looking
    | Unlocked
    | Holding(bytes: Bytes)
    | Finished(outcome: ReadOutcome)

  /** One `read_with` in progress: the chunk it is at and the bytes collected so far. */
  datatype Reader = Reader(
    source: nat, start: nat, end: nat, attribution: Attribution, chunk: nat, out: Bytes, phase: Phase)

  datatype System = System(cache: Cache, readers: map<nat, Reader>)

  datatype Event =
    | Start(tid: nat, source: nat, start: nat, end: nat, attribution: Attribution)
    | LookupStep(tid: nat)
    | ReadStep(tid: nat, fails: bool)
    | InsertStep(tid: nat)
    | PeekStep(key: ChunkKey)
    | Refetch(source: nat, chunk: nat, attribution: Attribution)
    | ChangeLimit(limit: nat)
    | CloseSource(source: nat)
    | InvalidateKeys(keys: seq<ChunkKey>)

  function Begin(src: Sources, source: nat, start: nat, end: nat, attribution: Attribution): Reader
    requires source in src
  {
    var len := |src[source]|;
    var phase :=
      if end > len then Finished(PastEnd(len))
      else if start >= end then Finished(Delivered([]))
      else Looking;
    Reader(source, start, end, attribution, start / CHUNK_SIZE, [], phase)
  }

  /** The part of a chunk that a range takes. */
  function TakeFrom(bytes: Bytes, chunk: nat, start: nat, end: nat): Bytes {
    var chunkStart := chunk * CHUNK_SIZE;
    var chunkEnd := chunkStart + |bytes|;
    var from := (if start >= chunkStart then start else chunkStart) - chunkStart;
    var to := (if end <= chunkEnd then end else chunkEnd) - chunkStart;
    if from <= to <= |bytes| then bytes[from..to] else []
  }

  /** A chunk has arrived: take its part and go on, or finish after the last one. */
  function Advance(r: Reader, bytes: Bytes): Reader {
    var out := r.out + TakeFrom(bytes, r.chunk, r.start, r.end);
    if r.end > 0 && r.chunk == (r.end - 1) / CHUNK_SIZE
    then r.(out := out, phase := Finished(Delivered(out)))
    else r.(out := out, chunk := r.chunk + 1, phase := Looking)
  }

  function Next(src: Sources, sys: System, ev: Event): System {
    match ev
    case Start(tid, source, start, end, attribution) =>
      if source in src && start <= end
      then sys.(readers := sys.readers[tid := Begin(src, source, start, end, attribution)])
      else sys
    case LookupStep(tid) =>
      if tid !in sys.readers || !sys.readers[tid].phase.Looking? then sys
      else
        var r := sys.readers[tid];
        var (cache, found) := Lookup(sys.cache, ChunkKey(r.source, r.chunk));
        var r' := if found.Some? then Advance(r, found.value) else r.(phase := Unlocked);
        System(cache, sys.readers[tid := r'])
    case ReadStep(tid, fails) =>
      if tid !in sys.readers || !sys.readers[tid].phase.Unlocked? then sys
      else
        var r := sys.readers[tid];
        if fails then sys.(readers := sys.readers[tid := r.(phase := Finished(SourceFailed))])
        else if r.source in src && r.chunk * CHUNK_SIZE < |src[r.source]|
        then sys.(readers := sys.readers[tid := r.(phase := Holding(ChunkOf(src[r.source], r.chunk)))])
        else sys
    case InsertStep(tid) =>
      if tid !in sys.readers || !sys.readers[tid].phase.Holding? then sys
      else
        var r := sys.readers[tid];
        var (cache, bytes) :=
          Insert(sys.cache, Entry(ChunkKey(r.source, r.chunk), r.phase.bytes, r.attribution));
        System(cache, sys.readers[tid := Advance(r, bytes)])
    case PeekStep(key) => sys.(cache := Lookup(sys.cache, key).0)
    case Refetch(source, chunk, attribution) =>
      if source in src && chunk * CHUNK_SIZE < |src[source]|
      then
        sys.(cache := Store(sys.cache, Entry(ChunkKey(source, chunk), ChunkOf(src[source], chunk), attribution)))
      else sys
    case ChangeLimit(limit) => sys.(cache := SetLimit(sys.cache, limit))
    case CloseSource(source) => sys.(cache := DropSource(sys.cache, source))
    case InvalidateKeys(keys) => sys.(cache := DropKeys(sys.cache, keys))
  }

  function Run(src: Sources, sys: System, events: seq<Event>): System
    decreases |events|
  {
    if events == [] then sys else Run(src, Next(src, sys, events[0]), events[1..])
  }

  // ---------------------------------------------------------- transparency

  /** Every cached chunk is the source's; keys occur once. Holds whatever the totals say. */
  predicate Honest(chunks: Lru, src: Sources) {
    Distinct(chunks) && Truthful(src, chunks)
  }

  /** A reader has collected the true bytes up to its chunk, and finishes only with the truth. */
  predicate ReaderOk(src: Sources, r: Reader) {
    r.source in src && r.start <= r.end &&
    var bytes := src[r.source];
    match r.phase
    case Finished(Delivered(got)) => r.end <= |bytes| && got == bytes[r.start..r.end]
    case Finished(PastEnd(len)) => len == |bytes| && r.end > len
    case Finished(SourceFailed) => r.end <= |bytes|
    case Looking => CollectedOk(bytes, r)
    case Unlocked => CollectedOk(bytes, r)
    case Holding(got) => CollectedOk(bytes, r) && got == ChunkOf(bytes, r.chunk)
  }

  /** A reader in progress is at a chunk of its range and has everything in front of it. */
  predicate CollectedOk(bytes: Bytes, r: Reader) {
    && r.start < r.end <= |bytes|
    && r.start / CHUNK_SIZE <= r.chunk <= (r.end - 1) / CHUNK_SIZE
    && r.out == bytes[r.start..ReachedBefore(r)]
  }

  function ReachedBefore(r: Reader): nat {
    if r.chunk * CHUNK_SIZE <= r.start then r.start else r.chunk * CHUNK_SIZE
  }

  ghost predicate SystemOk(src: Sources, sys: System) {
    Honest(sys.cache.chunks, src) && forall tid :: tid in sys.readers ==> ReaderOk(src, sys.readers[tid])
  }

  lemma BeginOk(src: Sources, source: nat, start: nat, end: nat, attribution: Attribution)
    requires source in src && start <= end
    ensures ReaderOk(src, Begin(src, source, start, end, attribution))
  {
  }

  lemma DeliveredIsExact(src: Sources, r: Reader)
    requires ReaderOk(src, r) && r.phase.Finished? && r.phase.outcome.Delivered?
    ensures r.end <= |src[r.source]| && r.phase.outcome.bytes == src[r.source][r.start..r.end]
  {
  }

  lemma AdvanceOk(src: Sources, r: Reader, got: Bytes)
    requires ReaderOk(src, r) && !r.phase.Finished?
    requires r.chunk * CHUNK_SIZE < |src[r.source]| && got == ChunkOf(src[r.source], r.chunk)
    ensures ReaderOk(src, Advance(r, got))
  {
    hide TakeFrom;
    var bytes, from := src[r.source], ReachedBefore(r);
    var to := if r.end <= ChunkEnd(|bytes|, r.chunk) then r.end else ChunkEnd(|bytes|, r.chunk);
    TakeIsSlice(bytes, r, got, from, to);
    assert bytes[r.start..from] + bytes[from..to] == bytes[r.start..to];
  }

  /** What is taken from a chunk is the range's part of it. */
  lemma TakeIsSlice(bytes: Bytes, r: Reader, got: Bytes, from: nat, to: nat)
    requires CollectedOk(bytes, r) && r.chunk * CHUNK_SIZE < |bytes| && got == ChunkOf(bytes, r.chunk)
    requires from == ReachedBefore(r)
    requires to == if r.end <= ChunkEnd(|bytes|, r.chunk) then r.end else ChunkEnd(|bytes|, r.chunk)
    ensures from <= to <= |bytes| && TakeFrom(got, r.chunk, r.start, r.end) == bytes[from..to]
  {
    var chunkStart := r.chunk * CHUNK_SIZE;
    SliceOfSlice(bytes, chunkStart, |got|, from - chunkStart, to - chunkStart);
  }

  lemma PutHonest(chunks: Lru, cap: nat, src: Sources, e: Entry)
    requires Honest(chunks, src) && TrueEntry(src, e)
    ensures Honest(Put(chunks, cap, e), src)
  {
    var i := IndexOf(chunks, e.key);
    if i < |chunks| {
      RemoveAtContents(chunks, i);
      PushContents(RemoveAt(chunks, i), e);
    } else if chunks != [] && |chunks| >= cap {
      SuffixHolds(chunks, 1, e.key);
      PushContents(chunks[1..], e);
    } else {
      PushContents(chunks, e);
    }
  }

  lemma {:induction false} EvictHonest(c: Cache, src: Sources, incoming: nat)
    requires Honest(c.chunks, src)
    ensures Honest(EvictFor(c, incoming).chunks, src)
    decreases |c.chunks|
  {
    if c.used + incoming > c.limit && c.chunks != [] {
      RemoveAtContents(c.chunks, 0);
      EvictHonest(Dropped(c, 0), src, incoming);
    }
  }

  lemma InsertNewHonest(c: Cache, src: Sources, e: Entry)
    requires Honest(c.chunks, src) && TrueEntry(src, e)
    ensures Honest(InsertNew(c, e).chunks, src)
  {
    EvictHonest(c, src, |e.bytes|);
    PutHonest(EvictFor(c, |e.bytes|).chunks, c.cap, src, e);
    EvictKeepsCap(c, |e.bytes|);
  }

  lemma {:induction false} EvictKeepsCap(c: Cache, incoming: nat)
    ensures EvictFor(c, incoming).cap == c.cap
    decreases |c.chunks|
  {
    if c.used + incoming > c.limit && c.chunks != [] {
      EvictKeepsCap(Dropped(c, 0), incoming);
    }
  }

  lemma PromoteHonest(chunks: Lru, src: Sources, i: nat)
    requires Honest(chunks, src) && i < |chunks|
    ensures Honest(Promote(chunks, i), src)
  {
    PromoteContents(chunks, i);
    forall j | 0 <= j < |chunks| ensures TrueEntry(src, Promote(chunks, i)[j]) {
      assert Promote(chunks, i)[j] in chunks;
    }
  }

  lemma RemoveHonest(chunks: Lru, src: Sources, i: nat)
    requires Honest(chunks, src) && i < |chunks|
    ensures Honest(RemoveAt(chunks, i), src)
  {
    RemoveAtContents(chunks, i);
  }

  lemma {:induction false} DropKeysHonest(c: Cache, src: Sources, keys: seq<ChunkKey>)
    requires Honest(c.chunks, src)
    ensures Honest(DropKeys(c, keys).chunks, src)
    decreases |keys|
  {
    if keys != [] {
      DropKeysHonest(c, src, keys[..|keys| - 1]);
      var d, key := DropKeys(c, keys[..|keys| - 1]), keys[|keys| - 1];
      if IndexOf(d.chunks, key) < |d.chunks| {
        RemoveHonest(d.chunks, src, IndexOf(d.chunks, key));
      }
    }
  }

  lemma LookupHonest(c: Cache, src: Sources, key: ChunkKey)
    requires Honest(c.chunks, src)
    ensures Honest(Lookup(c, key).0.chunks, src)
    ensures Lookup(c, key).1.Some? ==>
      key.source in src && key.chunk * CHUNK_SIZE < |src[key.source]|
      && Lookup(c, key).1.value == ChunkOf(src[key.source], key.chunk)
  {
    var i := IndexOf(c.chunks, key);
    if i < |c.chunks| {
      PromoteHonest(c.chunks, src, i);
      assert TrueEntry(src, c.chunks[i]);
    }
  }

  lemma InsertHonest(c: Cache, src: Sources, e: Entry)
    requires Honest(c.chunks, src) && TrueEntry(src, e)
    ensures Honest(Insert(c, e).0.chunks, src) && Insert(c, e).1 == e.bytes
  {
    var i := IndexOf(c.chunks, e.key);
    if i < |c.chunks| {
      PromoteHonest(c.chunks, src, i);
      assert TrueEntry(src, c.chunks[i]);
    } else {
      InsertNewHonest(c.(misses := c.misses + 1), src, e);
    }
  }

  lemma StoreHonest(c: Cache, src: Sources, e: Entry)
    requires Honest(c.chunks, src) && TrueEntry(src, e)
    ensures Honest(Store(c, e).chunks, src)
  {
    hide Honest, InsertNew;
    var i := IndexOf(c.chunks, e.key);
    if i < |c.chunks| {
      RemoveHonest(c.chunks, src, i);
    }
    InsertNewHonest(if i < |c.chunks| then Dropped(c, i) else c, src, e);
  }

  lemma SetLimitHonest(c: Cache, src: Sources, limit: nat)
    requires Honest(c.chunks, src)
    ensures Honest(SetLimit(c, limit).chunks, src)
  {
    EvictHonest(c.(limit := limit), src, 0);
  }

  lemma CacheEventOk(src: Sources, sys: System, ev: Event)
    requires SystemOk(src, sys)
    requires ev.PeekStep? || ev.Refetch? || ev.ChangeLimit? || ev.CloseSource? || ev.InvalidateKeys?
    ensures SystemOk(src, Next(src, sys, ev))
  {
    hide Honest, ReaderOk;
    var c := sys.cache;
    match ev
    case PeekStep(key) => LookupHonest(c, src, key);
    case Refetch(source, chunk, attribution) =>
      if source in src && chunk * CHUNK_SIZE < |src[source]| {
        StoreHonest(c, src, Entry(ChunkKey(source, chunk), ChunkOf(src[source], chunk), attribution));
      }
    case ChangeLimit(limit) => SetLimitHonest(c, src, limit);
    case CloseSource(source) => DropKeysHonest(c, src, KeysOf(c.chunks, source));
    case InvalidateKeys(keys) => DropKeysHonest(c, src, keys);
  }

  /** A lookup by a reader in progress. */
  lemma LookupStepOk(src: Sources, sys: System, tid: nat)
    requires SystemOk(src, sys) && tid in sys.readers && sys.readers[tid].phase.Looking?
    ensures SystemOk(src, Next(src, sys, LookupStep(tid)))
  {
    hide Honest, Lookup;
    var r := sys.readers[tid];
    var key := ChunkKey(r.source, r.chunk);
    LookupHonest(sys.cache, src, key);
    if Lookup(sys.cache, key).1.Some? {
      AdvanceOk(src, r, Lookup(sys.cache, key).1.value);
    }
  }

  /** An insert by a reader in progress. */
  lemma InsertStepOk(src: Sources, sys: System, tid: nat)
    requires SystemOk(src, sys) && tid in sys.readers && sys.readers[tid].phase.Holding?
    ensures SystemOk(src, Next(src, sys, InsertStep(tid)))
  {
    hide Honest, Insert;
    var r := sys.readers[tid];
    var e := Entry(ChunkKey(r.source, r.chunk), r.phase.bytes, r.attribution);
    InsertHonest(sys.cache, src, e);
    AdvanceOk(src, r, e.bytes);
  }

  lemma NextOk(src: Sources, sys: System, ev: Event)
    requires SystemOk(src, sys)
    ensures SystemOk(src, Next(src, sys, ev))
  {
    hide Honest, Lookup, Insert, Advance;
    match ev
    case Start(_, _, _, _, _) =>
    case LookupStep(tid) =>
      if tid in sys.readers && sys.readers[tid].phase.Looking? {
        LookupStepOk(src, sys, tid);
      }
    case ReadStep(_, _) =>
    case InsertStep(tid) =>
      if tid in sys.readers && sys.readers[tid].phase.Holding? {
        InsertStepOk(src, sys, tid);
      }
    case _ => CacheEventOk(src, sys, ev);
  }

  /**
   Whatever sections interleave, a finished read over an unchanging source has
   delivered exactly the source's bytes, or reported its end exactly when the range
   passes it, or passed on the source's own failure.
   */
  lemma {:induction false} EveryInterleavingIsTransparent(src: Sources, sys: System, events: seq<Event>)
    requires SystemOk(src, sys)
    ensures SystemOk(src, Run(src, sys, events))
    decreases |events|
  {
    if events != [] {
      NextOk(src, sys, events[0]);
      EveryInterleavingIsTransparent(src, Next(src, sys, events[0]), events[1..]);
    }
  }

  /** Said for one reader of a run that starts from an empty cache. */
  lemma FinishedReadsAreTrue(src: Sources, limit: nat, events: seq<Event>, tid: nat)
    requires var sys := Run(src, System(Empty(limit), map[]), events);
      tid in sys.readers && sys.readers[tid].phase.Finished?
    ensures var r := Run(src, System(Empty(limit), map[]), events).readers[tid];
      && r.source in src && r.start <= r.end
      && (r.end > |src[r.source]| <==> r.phase.outcome == PastEnd(|src[r.source]|))
      && (r.end <= |src[r.source]| ==>
            r.phase.outcome == Delivered(src[r.source][r.start..r.end]) || r.phase.outcome == SourceFailed)
  {
    EveryInterleavingIsTransparent(src, System(Empty(limit), map[]), events);
  }

  predicate Failed(sys: System, tid: nat) {
    tid in sys.readers && sys.readers[tid].phase == Finished(SourceFailed)
  }

  /** A read fails only because its own read of the source failed. */
  lemma {:induction false} FailuresComeFromTheSource(src: Sources, sys: System, events: seq<Event>, tid: nat)
    requires !Failed(sys, tid) && Failed(Run(src, sys, events), tid)
    ensures ReadStep(tid, true) in events
    decreases |events|
  {
    if events != [] && events[0] != ReadStep(tid, true) {
      assert !Failed(Next(src, sys, events[0]), tid);
      FailuresComeFromTheSource(src, Next(src, sys, events[0]), events[1..], tid);
    }
  }

  // ------------------------------------------------------------- progress

  /** How many more sections of its own a reader can need. */
  function Pending(r: Reader): nat {
    var chunksLeft := if r.end > 0 && r.chunk <= (r.end - 1) / CHUNK_SIZE then (r.end - 1) / CHUNK_SIZE - r.chunk else 0;
    match r.phase
    case Looking => 3 * chunksLeft + 3
    case Unlocked => 3 * chunksLeft + 2
    case Holding(_) => 3 * chunksLeft + 1
    case Finished(_) => 0
  }

  /** The section a reader is waiting to run. */
  predicate IsTurnOf(tid: nat, r: Reader, ev: Event) {
    match r.phase
    case Looking => ev == LookupStep(tid)
    case Unlocked => ev == ReadStep(tid, true) || ev == ReadStep(tid, false)
    case Holding(_) => ev == InsertStep(tid)
    case Finished(_) => false
  }

  predicate Restarts(tid: nat, ev: Event) {
    ev.Start? && ev.tid == tid
  }

  /** Its own turn brings a reader closer to its end; whatever else runs leaves it alone. */
  lemma NextProgresses(src: Sources, sys: System, ev: Event, tid: nat)
    requires SystemOk(src, sys) && tid in sys.readers && !Restarts(tid, ev)
    ensures var next := Next(src, sys, ev);
      tid in next.readers
      && (if IsTurnOf(tid, sys.readers[tid], ev)
          then Pending(next.readers[tid]) < Pending(sys.readers[tid])
          else next.readers[tid] == sys.readers[tid])
  {
    hide Honest, Lookup, Insert, Store, SetLimit, DropSource, DropKeys, TakeFrom, ChunkOf;
    assert ReaderOk(src, sys.readers[tid]);
  }

  /** Reader `tid` gets its turn somewhere among these events, whatever it waits for, and is not restarted. */
  predicate GivesTurn(tid: nat, round: seq<Event>) {
    && LookupStep(tid) in round && InsertStep(tid) in round
    && (ReadStep(tid, false) in round || ReadStep(tid, true) in round)
    && forall ev <- round :: !Restarts(tid, ev)
  }

  lemma TurnComes(tid: nat, r: Reader, round: seq<Event>)
    requires GivesTurn(tid, round) && !r.phase.Finished?
    ensures exists ev <- round :: IsTurnOf(tid, r, ev)
  {
    var read := if ReadStep(tid, false) in round then ReadStep(tid, false) else ReadStep(tid, true);
    var turn := if r.phase.Looking? then LookupStep(tid) else if r.phase.Unlocked? then read else InsertStep(tid);
    assert turn in round && IsTurnOf(tid, r, turn);
  }

  /** A stretch that holds a reader's turn brings it closer to its end. */
  lemma {:induction false} TurnIsTaken(src: Sources, sys: System, events: seq<Event>, tid: nat)
    requires SystemOk(src, sys) && tid in sys.readers
    requires forall ev <- events :: !Restarts(tid, ev)
    ensures var after := Run(src, sys, events);
      tid in after.readers
      && Pending(after.readers[tid]) <= Pending(sys.readers[tid])
      && ((exists ev <- events :: IsTurnOf(tid, sys.readers[tid], ev)) ==>
            Pending(after.readers[tid]) < Pending(sys.readers[tid]))
    decreases |events|
  {
    hide Next, Pending, IsTurnOf, SystemOk;
    if events != [] {
      NextOk(src, sys, events[0]);
      NextProgresses(src, sys, events[0], tid);
      TurnIsTaken(src, Next(src, sys, events[0]), events[1..], tid);
      assert events == [events[0]] + events[1..];
    }
  }

  function Flatten(rounds: seq<seq<Event>>): seq<Event> {
    if rounds == [] then [] else rounds[0] + Flatten(rounds[1..])
  }

  lemma {:induction false} RunSplit(src: Sources, sys: System, a: seq<Event>, b: seq<Event>)
    ensures Run(src, sys, a + b) == Run(src, Run(src, sys, a), b)
    decreases |a|
  {
    if a == [] {
      assert a + b == b;
    } else {
      assert (a + b)[1..] == a[1..] + b;
      RunSplit(src, Next(src, sys, a[0]), a[1..], b);
    }
  }

  /**
   Every read finishes under a fair schedule: once it has been given a turn as often as it needs sections, three
   for each chunk, whatever ran in between.
   */
  lemma {:induction false} FairReadsFinish(src: Sources, sys: System, rounds: seq<seq<Event>>, tid: nat)
    requires SystemOk(src, sys) && tid in sys.readers
    requires forall round <- rounds :: GivesTurn(tid, round)
    requires |rounds| >= Pending(sys.readers[tid])
    ensures var after := Run(src, sys, Flatten(rounds)); tid in after.readers && after.readers[tid].phase.Finished?
    decreases |rounds|
  {
    hide Next, SystemOk;
    if rounds == [] {
      assert Flatten(rounds) == [];
    } else {
      var round, r := rounds[0], sys.readers[tid];
      assert GivesTurn(tid, round);
      RunSplit(src, sys, round, Flatten(rounds[1..]));
      EveryInterleavingIsTransparent(src, sys, round);
      TurnIsTaken(src, sys, round, tid);
      if !r.phase.Finished? {
        TurnComes(tid, r, round);
      }
      FairReadsFinish(src, Run(src, sys, round), rounds[1..], tid);
    }
  }

  /** At most three sections for each chunk a range touches. */
  lemma PendingAtFirst(src: Sources, source: nat, start: nat, end: nat, attribution: Attribution)
    requires source in src && start < end
    ensures Pending(Begin(src, source, start, end, attribution))
            <= 3 * ((end - 1) / CHUNK_SIZE - start / CHUNK_SIZE + 1)
  {
  }

  // ---------------------------------------------------------- accounting

  /** A limit it sets is large enough for the sources. */
  predicate LeavesRoom(src: Sources, ev: Event) {
    ev.ChangeLimit? ==> Roomy(|src|, ev.limit)
  }

  lemma NextKeepsAccounts(src: Sources, sys: System, ev: Event)
    requires SystemOk(src, sys) && Good(sys.cache, src) && Roomy(|src|, sys.cache.limit) && LeavesRoom(src, ev)
    ensures Good(Next(src, sys, ev).cache, src) && Roomy(|src|, Next(src, sys, ev).cache.limit)
  {
    hide Roomy, Good, Lookup, Insert, Store, SetLimit, DropSource, DropKeys;
    var c := sys.cache;
    match ev
    case Start(_, _, _, _, _) =>
    case LookupStep(tid) =>
      if tid in sys.readers {
        LookupGood(c, src, ChunkKey(sys.readers[tid].source, sys.readers[tid].chunk));
      }
    case ReadStep(_, _) =>
    case InsertStep(tid) =>
      if tid in sys.readers && sys.readers[tid].phase.Holding? {
        var r := sys.readers[tid];
        InsertGood(c, src, Entry(ChunkKey(r.source, r.chunk), r.phase.bytes, r.attribution));
      }
    case PeekStep(key) => LookupGood(c, src, key);
    case Refetch(source, chunk, attribution) =>
      if source in src && chunk * CHUNK_SIZE < |src[source]| {
        StoreGood(c, src, Entry(ChunkKey(source, chunk), ChunkOf(src[source], chunk), attribution));
      }
    case ChangeLimit(limit) => SetLimitGood(c, src, limit);
    case CloseSource(source) => DropSourceGood(c, src, source);
    case InvalidateKeys(keys) => DropKeysGood(c, src, keys);
  }

  /**
   While the sources leave room, as 16 always do, at every lock release of every interleaving the totals are
   exact, no bucket is zero, the total is within a limit of at least one chunk, and no chunk was evicted behind
   the accounting.
   */
  lemma {:induction false} EveryInterleavingKeepsAccounts(src: Sources, sys: System, events: seq<Event>)
    requires SystemOk(src, sys) && Good(sys.cache, src) && Roomy(|src|, sys.cache.limit)
    requires forall ev <- events :: LeavesRoom(src, ev)
    ensures var c := Run(src, sys, events).cache; Good(c, src) && (c.limit >= CHUNK_SIZE ==> c.used <= c.limit)
    decreases |events|
  {
    if events == [] {
      if sys.cache.limit >= CHUNK_SIZE {
        WithinTheLimit(sys.cache, src);
      }
    } else {
      NextOk(src, sys, events[0]);
      NextKeepsAccounts(src, sys, events[0]);
      EveryInterleavingKeepsAccounts(src, Next(src, sys, events[0]), events[1..]);
    }
  }
}
