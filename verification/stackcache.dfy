/** The stack deduplication cache of stack.go: a hash-chained map from fingerprint to an
    ordered list of weak references, with a fast path under the read lock, a double-checked
    insert under the write lock, and compaction of dead references.

    Weak references are entry ids; `live` is the set of ids whose target the collector has
    not reclaimed (`weak.Pointer.Value() != nil`). The store keeps every entry ever made, so
    a dead id still resolves, but nothing may read a dead entry through the cache. */
module StackCache {
  import opened Wrappers
  import opened Frames
  import opened Capture

  type EntryId = nat

  /** A `stackCacheEntry`: its own copy of the frames, fixed for good, and the formatted
      text behind the once-gate (`None` until the gate has run). */
  datatype Entry = Entry(pc: seq<Word>, formatted: Option<string>)

  /** The cache state: `stackCache`, the objects its weak pointers point at, the liveness
      of those objects, and the next fresh object identity. */
  datatype Cache = Cache(
    buckets: map<Word, seq<EntryId>>,
    store: map<EntryId, Entry>,
    live: set<EntryId>,
    nextId: EntryId)

  /** The chain stored under `h`, empty when the key is absent (`stackCache[h]` with `!ok`). */
  function Bucket(c: Cache, h: Word): seq<EntryId> {
    if h in c.buckets then c.buckets[h] else []
  }

  /** `weakEntry.Value() != nil && stackMatches(ptr.pc, pcs)`. */
  predicate LiveMatch(id: EntryId, store: map<EntryId, Entry>, live: set<EntryId>, pcs: seq<Word>) {
    id in live && id in store && store[id].pc == pcs
  }

  /** No chain holds two live references whose targets carry the same frames. */
  ghost predicate NoLiveDuplicates(chain: seq<EntryId>, store: map<EntryId, Entry>, live: set<EntryId>) {
    forall i, j :: 0 <= i < j < |chain| && chain[i] in live && chain[j] in live ==>
      chain[i] in store && chain[j] in store && store[chain[i]].pc != store[chain[j]].pc
  }

  /** Only objects that exist can be alive, and every existing object has an older identity. */
  ghost predicate Allocated(c: Cache) {
    && c.live <= c.store.Keys
    && (forall id :: id in c.store ==> id < c.nextId)
  }

  /** Every reference sits in the bucket of its target's fingerprint. */
  ghost predicate Resolves(c: Cache) {
    forall h, id :: h in c.buckets && id in c.buckets[h] ==>
      id in c.store && Fingerprint(c.store[id].pc) == h
  }

  /** Every live entry is reachable from the bucket of its fingerprint. */
  ghost predicate Reachable(c: Cache)
    requires c.live <= c.store.Keys
  {
    forall id :: id in c.live ==> id in Bucket(c, Fingerprint(c.store[id].pc))
  }

  /** No bucket holds two live references to entries with equal frames. */
  ghost predicate Deduplicated(c: Cache) {
    forall h :: h in c.buckets ==> NoLiveDuplicates(c.buckets[h], c.store, c.live)
  }

  /** The cache invariant. */
  ghost predicate Valid(c: Cache) {
    Allocated(c) && Resolves(c) && Reachable(c) && Deduplicated(c)
  }

  /** The cache at program start: `make(map[uintptr][]weak.Pointer[stackCacheEntry])`. */
  const EmptyCache := Cache(map[], map[], {}, 0)

  lemma EmptyCacheValid()
    ensures Valid(EmptyCache)
  {
  }

  /** What other goroutines and the garbage collector may do to the cache between two
      steps of one caller: objects keep their frames, formatted text once set stays,
      identities are never reused, and an object that was dead does not come back. */
  ghost predicate MayInterfere(c: Cache, d: Cache) {
    && c.nextId <= d.nextId
    && (forall id :: id in c.store ==>
          id in d.store && d.store[id].pc == c.store[id].pc
          && (c.store[id].formatted.Some? ==> d.store[id].formatted == c.store[id].formatted))
    && (forall id :: id in d.live ==> id in c.live || c.nextId <= id)
  }

  /** A garbage-collection pass: the objects in `dead` are reclaimed. */
  function Collect(c: Cache, dead: set<EntryId>): (r: Cache)
    ensures Valid(c) ==> Valid(r)
    ensures MayInterfere(c, r)
    ensures r.live !! dead
  {
    c.(live := c.live - dead)
  }

  lemma InterferenceTransitive(a: Cache, b: Cache, c: Cache)
    requires MayInterfere(a, b) && MayInterfere(b, c)
    ensures MayInterfere(a, c)
  {
  }

  /** The scan of a chain, fast path and rescan alike: the first live reference whose
      target's frames equal `pcs`. */
  function FirstLiveMatch(chain: seq<EntryId>, store: map<EntryId, Entry>, live: set<EntryId>, pcs: seq<Word>): (r: Option<EntryId>)
    ensures r.Some? ==> r.value in chain && LiveMatch(r.value, store, live, pcs)
    ensures r.Some? ==> exists k :: 0 <= k < |chain| && chain[k] == r.value &&
                          forall i :: 0 <= i < k ==> !LiveMatch(chain[i], store, live, pcs)
    ensures r.None? <==> forall i :: 0 <= i < |chain| ==> !LiveMatch(chain[i], store, live, pcs)
    decreases |chain|
  {
    if |chain| == 0 then None
    else if LiveMatch(chain[0], store, live, pcs) then Some(chain[0])
    else
      var r := FirstLiveMatch(chain[1..], store, live, pcs);
      assert forall i :: 1 <= i < |chain| ==> chain[i] == chain[1..][i - 1];
      r
  }

  /** `a` is `b` with some elements left out, the rest in their original order. */
  ghost predicate Subsequence<T>(a: seq<T>, b: seq<T>)
    decreases |b|
  {
    if |a| == 0 then true
    else if |b| == 0 then false
    else if a[0] == b[0] then Subsequence(a[1..], b[1..])
    else Subsequence(a, b[1..])
  }

  /** Write-path compaction: the chain with its dead references dropped. */
  function Compact(chain: seq<EntryId>, live: set<EntryId>): seq<EntryId>
    decreases |chain|
  {
    if |chain| == 0 then []
    else (if chain[0] in live then [chain[0]] else []) + Compact(chain[1..], live)
  }

  /** Compaction keeps exactly the live references of the chain, each as often as the
      chain holds it, in their original relative order. */
  lemma {:induction false} CompactKeepsLiveInOrder(chain: seq<EntryId>, live: set<EntryId>)
    ensures Subsequence(Compact(chain, live), chain)
    ensures forall id :: id in Compact(chain, live) <==> id in chain && id in live
    ensures forall id :: multiset(Compact(chain, live))[id] == if id in live then multiset(chain)[id] else 0
    decreases |chain|
  {
    if |chain| > 0 {
      CompactKeepsLiveInOrder(chain[1..], live);
      assert chain == [chain[0]] + chain[1..];
      var rest := Compact(chain[1..], live);
      if chain[0] in live {
        assert Compact(chain, live) == [chain[0]] + rest;
        assert Compact(chain, live)[1..] == rest;
      } else {
        assert Compact(chain, live) == rest;
        if |rest| > 0 {
          assert rest[0] in rest;
        }
      }
    }
  }

  /** Compaction keeps deduplication: the live references left are those of the chain. */
  lemma {:induction false} CompactKeepsNoDuplicates(chain: seq<EntryId>, store: map<EntryId, Entry>, live: set<EntryId>)
    requires NoLiveDuplicates(chain, store, live)
    ensures NoLiveDuplicates(Compact(chain, live), store, live)
    decreases |chain|
  {
    if |chain| > 0 {
      var rest := chain[1..];
      assert NoLiveDuplicates(rest, store, live) by {
        forall i, j | 0 <= i < j < |rest| && rest[i] in live && rest[j] in live
          ensures rest[i] in store && rest[j] in store && store[rest[i]].pc != store[rest[j]].pc
        {
          assert rest[i] == chain[i + 1] && rest[j] == chain[j + 1];
        }
      }
      CompactKeepsNoDuplicates(rest, store, live);
      CompactKeepsLiveInOrder(rest, live);
      var cr := Compact(rest, live);
      if chain[0] in live {
        var r := [chain[0]] + cr;
        forall i, j | 0 <= i < j < |r| && r[i] in live && r[j] in live
          ensures r[i] in store && r[j] in store && store[r[i]].pc != store[r[j]].pc
        {
          if i == 0 {
            assert r[j] == cr[j - 1];
            assert r[j] in rest;
            var k :| 0 <= k < |rest| && rest[k] == r[j];
            assert chain[k + 1] == r[j];
          } else {
            assert r[i] == cr[i - 1] && r[j] == cr[j - 1];
          }
        }
      }
    }
  }

  /** Rewriting bucket `h` with its compacted chain keeps the invariant. */
  lemma CompactionKeepsValid(race: Cache, h: Word)
    requires Valid(race)
    ensures Valid(race.(buckets := race.buckets[h := Compact(Bucket(race, h), race.live)]))
  {
    var chain := Bucket(race, h);
    var active := Compact(chain, race.live);
    var c1 := race.(buckets := race.buckets[h := active]);
    CompactKeepsLiveInOrder(chain, race.live);
    assert Bucket(c1, h) == active;
    assert Resolves(c1);
    assert Reachable(c1) by {
      forall id | id in c1.live
        ensures id in Bucket(c1, Fingerprint(c1.store[id].pc))
      {
        if Fingerprint(race.store[id].pc) == h {
          assert id in chain;
        } else {
          assert Bucket(c1, Fingerprint(c1.store[id].pc)) == Bucket(race, Fingerprint(race.store[id].pc));
        }
      }
    }
    assert Deduplicated(c1) by {
      assert NoLiveDuplicates(chain, race.store, race.live);
      CompactKeepsNoDuplicates(chain, race.store, race.live);
    }
  }

  /** Appending a fresh entry for frames that no live reference of the chain carries, after
      compacting the chain, keeps the invariant. */
  lemma InsertKeepsValid(race: Cache, h: Word, pcs: seq<Word>)
    requires Valid(race)
    requires Fingerprint(pcs) == h
    requires FirstLiveMatch(Bucket(race, h), race.store, race.live, pcs).None?
    ensures Valid(Insert(race, h, Compact(Bucket(race, h), race.live), pcs))
  {
    var active := Compact(Bucket(race, h), race.live);
    CompactionKeepsValid(race, h);
    var c1 := race.(buckets := race.buckets[h := active]);
    assert c1.buckets[h] == active;
    CompactKeepsLiveInOrder(Bucket(race, h), race.live);
    forall i | 0 <= i < |active|
      ensures !LiveMatch(active[i], c1.store, c1.live, pcs)
    {
      assert active[i] in Bucket(race, h);
    }
    assert Insert(c1, h, c1.buckets[h], pcs) == Insert(race, h, active, pcs) by {
      assert c1.buckets[h := active + [race.nextId]] == race.buckets[h := active + [race.nextId]];
    }
    InsertResolves(c1, h, pcs);
    InsertReachable(c1, h, pcs);
    InsertDeduplicated(c1, h, pcs);
  }

  lemma InsertResolves(c1: Cache, h: Word, pcs: seq<Word>)
    requires Allocated(c1) && Resolves(c1)
    requires Fingerprint(pcs) == h && h in c1.buckets
    ensures Resolves(Insert(c1, h, c1.buckets[h], pcs))
  {
    var id := c1.nextId;
    var c2 := Insert(c1, h, c1.buckets[h], pcs);
    assert forall h' :: h' in c1.buckets ==> id !in c1.buckets[h'] by {
      forall h' | h' in c1.buckets ensures id !in c1.buckets[h'] {
        assert forall x :: x in c1.buckets[h'] ==> x in c1.store;
      }
    }
    forall h', id' | h' in c2.buckets && id' in c2.buckets[h']
      ensures id' in c2.store && Fingerprint(c2.store[id'].pc) == h'
    {
      if id' != id {
        assert c2.store[id'] == c1.store[id'];
        if h' == h {
          assert id' in c1.buckets[h];
        } else {
          assert id' in c1.buckets[h'];
        }
      } else {
        assert h' == h;
      }
    }
  }

  lemma InsertReachable(c1: Cache, h: Word, pcs: seq<Word>)
    requires Allocated(c1) && Reachable(c1)
    requires Fingerprint(pcs) == h && h in c1.buckets
    ensures Allocated(Insert(c1, h, c1.buckets[h], pcs))
    ensures Reachable(Insert(c1, h, c1.buckets[h], pcs))
  {
    var id := c1.nextId;
    var c2 := Insert(c1, h, c1.buckets[h], pcs);
    forall id' | id' in c2.live
      ensures id' in Bucket(c2, Fingerprint(c2.store[id'].pc))
    {
      if id' != id {
        assert id' in Bucket(c1, Fingerprint(c1.store[id'].pc));
      }
    }
  }

  lemma InsertDeduplicated(c1: Cache, h: Word, pcs: seq<Word>)
    requires Allocated(c1) && Resolves(c1) && Deduplicated(c1)
    requires h in c1.buckets
    requires forall i :: 0 <= i < |c1.buckets[h]| ==> !LiveMatch(c1.buckets[h][i], c1.store, c1.live, pcs)
    ensures Deduplicated(Insert(c1, h, c1.buckets[h], pcs))
  {
    var id := c1.nextId;
    var active := c1.buckets[h];
    var c2 := Insert(c1, h, active, pcs);
    var b := active + [id];
    assert NoLiveDuplicates(active, c1.store, c1.live);
    assert NoLiveDuplicates(b, c2.store, c2.live) by {
      forall i, j | 0 <= i < j < |b| && b[i] in c2.live && b[j] in c2.live
        ensures b[i] in c2.store && b[j] in c2.store && c2.store[b[i]].pc != c2.store[b[j]].pc
      {
        assert b[i] == active[i] && b[i] in c1.buckets[h];
        assert b[i] in c1.store && b[i] < c1.nextId;
        assert b[i] in c1.live;
        assert !LiveMatch(active[i], c1.store, c1.live, pcs);
        if j < |active| {
          assert b[j] == active[j];
        } else {
          assert b[j] == id;
        }
      }
    }
    forall h' | h' in c2.buckets
      ensures NoLiveDuplicates(c2.buckets[h'], c2.store, c2.live)
    {
      if h' != h {
        var ch := c2.buckets[h'];
        assert NoLiveDuplicates(ch, c1.store, c1.live);
        forall i, j | 0 <= i < j < |ch| && ch[i] in c2.live && ch[j] in c2.live
          ensures ch[i] in c2.store && ch[j] in c2.store && c2.store[ch[i]].pc != c2.store[ch[j]].pc
        {
          assert ch[i] in c1.buckets[h'] && ch[j] in c1.buckets[h'];
          assert ch[i] in c1.store && ch[i] < c1.nextId && ch[j] in c1.store && ch[j] < c1.nextId;
          assert ch[i] in c1.live && ch[j] in c1.live;
        }
      }
    }
  }

  /** Appends a reference to a fresh entry holding its own copy of `pcs` to the bucket. */
  function Insert(race: Cache, h: Word, active: seq<EntryId>, pcs: seq<Word>): Cache {
    var id := race.nextId;
    Cache(race.buckets[h := active + [id]], race.store[id := Entry(pcs, None)], race.live + {id}, id + 1)
  }

  /** How a lookup was served: fast path under the read lock, a live match found on the
      rescan under the write lock (another goroutine won the race), or a fresh insert. */
  datatype Path = FastHit | LostRace | Inserted

  datatype Lookup = Lookup(cache: Cache, entry: EntryId, path: Path)

  /** The rescan under the write lock found `winner`, inserted by another goroutine while
      this caller held no lock: the compacted bucket is stored and the winner returned. */
  function KeepWinner(race: Cache, pcs: seq<Word>, winner: EntryId): (r: Lookup)
    requires Valid(race)
    requires LiveMatch(winner, race.store, race.live, pcs)
    ensures Valid(r.cache)
    ensures r.entry == winner
    ensures r.cache.store == race.store && r.cache.live == race.live && r.cache.nextId == race.nextId
    ensures r.cache.buckets - {Fingerprint(pcs)} == race.buckets - {Fingerprint(pcs)}
    ensures r.cache.buckets[Fingerprint(pcs)] == Compact(Bucket(race, Fingerprint(pcs)), race.live)
  {
    var h := Fingerprint(pcs);
    CompactionKeepsValid(race, h);
    var c1 := race.(buckets := race.buckets[h := Compact(Bucket(race, h), race.live)]);
    assert c1.buckets - {h} == race.buckets - {h};
    Lookup(c1, winner, LostRace)
  }

  /** No live entry holds the frames: the compacted bucket gets a reference to a fresh entry
      that owns its own copy of the frames, appended at the end. */
  function InsertFresh(race: Cache, pcs: seq<Word>): (r: Lookup)
    requires Valid(race)
    requires forall id :: !LiveMatch(id, race.store, race.live, pcs)
    ensures Valid(r.cache)
    ensures r.entry == race.nextId && r.entry !in race.store
    ensures r.cache.nextId == race.nextId + 1
    ensures r.cache.store == race.store[r.entry := Entry(pcs, None)]
    ensures r.cache.live == race.live + {r.entry}
    ensures r.cache.buckets - {Fingerprint(pcs)} == race.buckets - {Fingerprint(pcs)}
    ensures r.cache.buckets[Fingerprint(pcs)] == Compact(Bucket(race, Fingerprint(pcs)), race.live) + [r.entry]
  {
    var h := Fingerprint(pcs);
    InsertKeepsValid(race, h, pcs);
    var c2 := Insert(race, h, Compact(Bucket(race, h), race.live), pcs);
    assert c2.buckets - {h} == race.buckets - {h};
    Lookup(c2, race.nextId, Inserted)
  }

  /** The write phase of `getOrCreateStack`, under the write lock, on the state `race`
      that the caller finds when it gets the lock: rescan and compact the bucket, then
      either return the live match another goroutine inserted or append a fresh entry. */
  function WritePhase(race: Cache, pcs: seq<Word>): (r: Lookup)
    requires Valid(race)
    ensures Valid(r.cache)
    ensures LiveMatch(r.entry, r.cache.store, r.cache.live, pcs)
    ensures r.path != FastHit
    ensures r.path == Inserted <==> forall id :: !LiveMatch(id, race.store, race.live, pcs)
    ensures r.path == LostRace ==>
      LiveMatch(r.entry, race.store, race.live, pcs) && r == KeepWinner(race, pcs, r.entry)
    ensures r.path == Inserted ==> r == InsertFresh(race, pcs)
  {
    var h := Fingerprint(pcs);
    var found := FirstLiveMatch(Bucket(race, h), race.store, race.live, pcs);
    if found.Some? then
      KeepWinner(race, pcs, found.value)
    else
      assert forall id :: !LiveMatch(id, race.store, race.live, pcs);
      InsertFresh(race, pcs)
  }

  /** `getOrCreateStack` after capture and hashing. The read phase looks at `c`; the write
      phase happens on `race`, the state other goroutines and the collector have left by
      the time the write lock is held. */
  function GetOrCreate(c: Cache, race: Cache, pcs: seq<Word>): (r: Lookup)
    requires Valid(c) && Valid(race) && MayInterfere(c, race)
    // the invariant is kept and the result is the one live entry holding exactly `pcs`
    ensures Valid(r.cache)
    ensures LiveMatch(r.entry, r.cache.store, r.cache.live, pcs)
    ensures r.entry in Bucket(r.cache, Fingerprint(pcs))
    ensures forall id :: LiveMatch(id, r.cache.store, r.cache.live, pcs) ==> id == r.entry
    // the call is itself a legal interference for everybody else
    ensures MayInterfere(c, r.cache)
    // fast path exactly when some live entry already held the frames; it changes nothing
    ensures r.path == FastHit <==> exists id :: LiveMatch(id, c.store, c.live, pcs)
    ensures r.path == FastHit ==> r.cache == c
    // otherwise the write phase runs on `race`
    ensures r.path != FastHit ==> r == WritePhase(race, pcs)
  {
    var h := Fingerprint(pcs);
    var fast := FirstLiveMatch(Bucket(c, h), c.store, c.live, pcs);
    if fast.Some? then
      ValidUnique(c, pcs);
      Lookup(c, fast.value, FastHit)
    else
      assert forall id :: !LiveMatch(id, c.store, c.live, pcs);
      var r := WritePhase(race, pcs);
      ValidUnique(r.cache, pcs);
      assert MayInterfere(race, r.cache);
      InterferenceTransitive(c, race, r.cache);
      r
  }

  /** Deduplication across the whole cache: two live entries with the same frames are the
      same entry. */
  lemma ValidUnique(c: Cache, pcs: seq<Word>)
    requires Valid(c)
    ensures forall a, b :: LiveMatch(a, c.store, c.live, pcs) && LiveMatch(b, c.store, c.live, pcs) ==> a == b
  {
    forall a, b | LiveMatch(a, c.store, c.live, pcs) && LiveMatch(b, c.store, c.live, pcs)
      ensures a == b
    {
      var chain := Bucket(c, Fingerprint(pcs));
      assert a in chain && b in chain;
      var i :| 0 <= i < |chain| && chain[i] == a;
      var j :| 0 <= j < |chain| && chain[j] == b;
      assert NoLiveDuplicates(chain, c.store, c.live);
      if i < j || j < i {
        assert false;
      }
    }
  }

  /** A second capture of the same frames, with no intervening insertion and the first
      entry still held, takes the fast path and returns the very same entry. */
  lemma RepeatedCaptureShares(c: Cache, pcs: seq<Word>, dead: set<EntryId>)
    requires Valid(c)
    requires GetOrCreate(c, c, pcs).entry !in dead
    ensures var first := GetOrCreate(c, c, pcs);
            var after := Collect(first.cache, dead);
            var second := GetOrCreate(after, after, pcs);
            second.path == FastHit && second.entry == first.entry && second.cache == after
  {
    var first := GetOrCreate(c, c, pcs);
    var after := Collect(first.cache, dead);
    assert LiveMatch(first.entry, after.store, after.live, pcs);
  }

  /** Two different frame sequences captured one after the other get two different
      entries, both live afterwards, each holding its own frames; when the two
      fingerprints collide, both references sit in the same bucket. */
  lemma DistinctStacksDistinctEntries(c: Cache, p1: seq<Word>, p2: seq<Word>)
    requires Valid(c)
    requires p1 != p2
    ensures var r1 := GetOrCreate(c, c, p1);
            var r2 := GetOrCreate(r1.cache, r1.cache, p2);
            && r1.entry != r2.entry
            && LiveMatch(r1.entry, r2.cache.store, r2.cache.live, p1)
            && LiveMatch(r2.entry, r2.cache.store, r2.cache.live, p2)
            && (Fingerprint(p1) == Fingerprint(p2) ==>
                  r1.entry in Bucket(r2.cache, Fingerprint(p1)) && r2.entry in Bucket(r2.cache, Fingerprint(p1)))
  {
    var r1 := GetOrCreate(c, c, p1);
    var r2 := GetOrCreate(r1.cache, r1.cache, p2);
    assert r1.entry in r2.cache.live by {
      if r2.path != FastHit {
        assert r2 == InsertFresh(r1.cache, p2);
      }
    }
  }

  /** The fast-path loop: walk the chain, skip dead references, return the first live entry
      whose frames match. */
  method ScanChain(chain: seq<EntryId>, store: map<EntryId, Entry>, live: set<EntryId>, pcs: seq<Word>)
    returns (found: Option<EntryId>)
    ensures found == FirstLiveMatch(chain, store, live, pcs)
  {
    var i := 0;
    while i < |chain|
      invariant 0 <= i <= |chain|
      invariant FirstLiveMatch(chain[i..], store, live, pcs) == FirstLiveMatch(chain, store, live, pcs)
    {
      assert chain[i..][1..] == chain[i + 1..];
      var id := chain[i];
      if id in live && id in store {
        var same := StackMatches(store[id].pc, pcs);
        if same {
          return Some(id);
        }
      }
      i := i + 1;
    }
    return None;
  }

  /** The write-lock loop: filter the live references into a new chain in their order,
      remembering the first live entry whose frames match. */
  method RescanChain(chain: seq<EntryId>, store: map<EntryId, Entry>, live: set<EntryId>, pcs: seq<Word>)
    returns (active: seq<EntryId>, found: Option<EntryId>)
    ensures active == Compact(chain, live)
    ensures found == FirstLiveMatch(chain, store, live, pcs)
  {
    active := [];
    found := None;
    var i := 0;
    while i < |chain|
      invariant 0 <= i <= |chain|
      invariant active + Compact(chain[i..], live) == Compact(chain, live)
      invariant found.None? ==> FirstLiveMatch(chain[i..], store, live, pcs) == FirstLiveMatch(chain, store, live, pcs)
      invariant found.Some? ==> found == FirstLiveMatch(chain, store, live, pcs)
    {
      var id := chain[i];
      ChainStep(chain, i, store, live, pcs);
      if id in live {
        assert active + Compact(chain[i..], live) == (active + [id]) + Compact(chain[i + 1..], live);
        active := active + [id];
        if found.None? && id in store {
          var same := StackMatches(store[id].pc, pcs);
          if same {
            found := Some(id);
          }
        }
      }
      i := i + 1;
    }
    assert chain[i..] == [];
  }

  /** One step along a chain, for both scans. */
  lemma ChainStep(chain: seq<EntryId>, i: nat, store: map<EntryId, Entry>, live: set<EntryId>, pcs: seq<Word>)
    requires i < |chain|
    ensures Compact(chain[i..], live) == (if chain[i] in live then [chain[i]] else []) + Compact(chain[i + 1..], live)
    ensures FirstLiveMatch(chain[i..], store, live, pcs) ==
      if LiveMatch(chain[i], store, live, pcs) then Some(chain[i]) else FirstLiveMatch(chain[i + 1..], store, live, pcs)
  {
    assert chain[i..][1..] == chain[i + 1..];
  }

  /** The process-wide state the capture path touches. */
  datatype Runtime = Runtime(cache: Cache, pool: Pool)

  /** What one call of `getOrCreateStack` cannot see in advance: the call stack that
      `runtime.Callers` walks (after the skipped frames), and the cache as the other
      goroutines and the collector leave it by the time the write lock is held. */
  datatype CallSite = CallSite(stack: seq<Word>, race: Cache)

  /** The part of `getOrCreateStack` under the write lock, as written: rescan and compact
      the chain, store the compacted chain, then return the winner or append a fresh entry. */
  method WriteLocked(race: Cache, pcs: seq<Word>, hash: Word) returns (r: Lookup)
    requires Valid(race)
    requires hash == Fingerprint(pcs)
    ensures r == WritePhase(race, pcs)
  {
    var active, found := RescanChain(Bucket(race, hash), race.store, race.live, pcs);
    var compacted := race.(buckets := race.buckets[hash := active]);
    if found.Some? {
      return Lookup(compacted, found.value, LostRace);
    }
    var id := race.nextId;
    var inserted := Cache(compacted.buckets[hash := active + [id]],
                          race.store[id := Entry(pcs, None)], race.live + {id}, id + 1);
    assert inserted.buckets == race.buckets[hash := active + [id]];
    return Lookup(inserted, id, Inserted);
  }

  /** One whole `getOrCreateStack` call on the process state: acquire a buffer, capture,
      look up or insert, release the buffer. Returns the entry and the new state. */
  function CaptureStack(rt: Runtime, site: CallSite): (r: (EntryId, Runtime))
    requires Valid(rt.cache) && Valid(site.race) && MayInterfere(rt.cache, site.race)
    ensures Valid(r.1.cache) && MayInterfere(rt.cache, r.1.cache)
    ensures r.0 in r.1.cache.live && r.0 in r.1.cache.store
    ensures r.1.cache.store[r.0].pc <= site.stack
    ensures |r.1.pool.free| == if |rt.pool.free| == 0 then 1 else |rt.pool.free|
  {
    var got := Acquire(rt.pool);
    var captured := CaptureFrames(site.stack, got.capacity);
    var found := GetOrCreate(rt.cache, site.race, captured.pcs);
    (found.entry, Runtime(found.cache, Release(got.rest, captured.bufferLength)))
  }

  /** `getOrCreateStack`, step by step: take a buffer from the pool, capture (growing once),
      hash, scan the bucket under the read lock, rescan and compact under the write lock,
      insert if still missing, and put the buffer back on every return path. */
  method GetOrCreateStack(rt: Runtime, site: CallSite) returns (entry: EntryId, rt': Runtime)
    requires Valid(rt.cache) && Valid(site.race) && MayInterfere(rt.cache, site.race)
    ensures (entry, rt') == CaptureStack(rt, site)
    // the entry is live and holds the captured frames: a prefix of the call stack, the
    // whole stack whenever it is shorter than twice the pooled buffer
    ensures entry in rt'.cache.live && entry in rt'.cache.store
    ensures rt'.cache.store[entry].pc <= site.stack
    ensures PoolValid(rt.pool) && |site.stack| < 2 * InitialBufferLength ==>
      rt'.cache.store[entry].pc == site.stack
    // one buffer out, one buffer back
    ensures |rt'.pool.free| == if |rt.pool.free| == 0 then 1 else |rt.pool.free|
    ensures PoolValid(rt.pool) ==> PoolValid(rt'.pool)
  {
    var got := Acquire(rt.pool);
    var captured := CaptureFrames(site.stack, got.capacity);
    var pcs := captured.pcs;
    var hash := HashFrames(pcs);

    // read phase
    var fast := ScanChain(Bucket(rt.cache, hash), rt.cache.store, rt.cache.live, pcs);
    if fast.Some? {
      entry := fast.value;
      rt' := Runtime(rt.cache, Release(got.rest, captured.bufferLength));
      return;
    }

    // write phase
    var r := WriteLocked(site.race, pcs, hash);
    entry := r.entry;
    rt' := Runtime(r.cache, Release(got.rest, captured.bufferLength));
  }
}
