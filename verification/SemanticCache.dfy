/**
 * The semantic response cache: per tenant, an index of embeddings with its own expiry, and one separately expiring
 * response per index entry. Each operation reads the clock once.
 */
module SemanticCache {
  import opened Rounding
  import opened Wrappers

  type Embedding = seq<real>

  type EntryId = string

  type Metadata = map<string, string>

  datatype IndexEntry = IndexEntry(embedding: Embedding, model: string, cachedAt: real)

  datatype Response = Response(text: string, model: string, preview: string, cachedAt: real, metadata: Metadata)

  /** A stored value is visible strictly before its expiry. */
  datatype Expiring<T> = Expiring(value: T, expiresAt: real)

  datatype EntryKey = EntryKey(tenant: string, id: EntryId)

  type Index = map<EntryId, IndexEntry>

  datatype Cache = Cache(indexes: map<string, Expiring<Index>>, entries: map<EntryKey, Expiring<Response>>)

  function LiveIndex(c: Cache, tenant: string, now: real): Index {
    if tenant in c.indexes && now < c.indexes[tenant].expiresAt then c.indexes[tenant].value else map[]
  }

  function LiveEntry(c: Cache, key: EntryKey, now: real): Option<Response> {
    if key in c.entries && now < c.entries[key].expiresAt then Some(c.entries[key].value) else None
  }

  // ---- Operations on cache values ----

  datatype StoreCall = StoreCall(tenant: string, id: EntryId, embedding: Embedding, prompt: string, response: string,
                                 model: string, metadata: Metadata, ttl: real, at: real)

  function KeyOf(call: StoreCall): EntryKey {
    EntryKey(call.tenant, call.id)
  }

  function Preview(prompt: string): string {
    if |prompt| <= 200 then prompt else prompt[..200]
  }

  function IndexPart(call: StoreCall): IndexEntry {
    IndexEntry(call.embedding, call.model, call.at)
  }

  function EntryPart(call: StoreCall): Response {
    Response(call.response, call.model, Preview(call.prompt), call.at, call.metadata)
  }

  /** Index first, with twice the lifetime; then the response. */
  function Stored(c: Cache, call: StoreCall): Cache {
    Cache(c.indexes[call.tenant := Expiring(LiveIndex(c, call.tenant, call.at)[call.id := IndexPart(call)],
                                            call.at + 2.0 * call.ttl)],
          c.entries[KeyOf(call) := Expiring(EntryPart(call), call.at + call.ttl)])
  }

  /** Deleting the last field of an index deletes the index. */
  function WithoutField(c: Cache, tenant: string, id: EntryId): Cache {
    if tenant !in c.indexes then c
    else
      var rest := c.indexes[tenant].value - {id};
      if rest == map[] then c.(indexes := c.indexes - {tenant})
      else c.(indexes := c.indexes[tenant := Expiring(rest, c.indexes[tenant].expiresAt)])
  }

  function Without(entries: map<EntryKey, Expiring<Response>>, tenant: string, ids: set<EntryId>):
    map<EntryKey, Expiring<Response>>
  {
    map key | key in entries && !(key.tenant == tenant && key.id in ids) :: entries[key]
  }

  function Invalidated(c: Cache, tenant: string, now: real): Cache {
    Cache(c.indexes - {tenant}, Without(c.entries, tenant, LiveIndex(c, tenant, now).Keys))
  }

  // ---- Lookup ----

  datatype Query = Query(embedding: Embedding, model: string, threshold: real)

  /** Dot product of two vectors, cut to the shorter one. */
  function Dot(a: Embedding, b: Embedding): real {
    if a == [] || b == [] then 0.0 else a[0] * b[0] + Dot(a[1..], b[1..])
  }

  lemma OneDimension(x: real, y: real)
    ensures Dot([x], [y]) == x * y
    ensures forall a :: Dot(a, []) == Dot([], a) == 0.0
  {
  }

  /** The product is taken componentwise and added up. */
  lemma {:induction false} DotAdds(a1: Embedding, a2: Embedding, b1: Embedding, b2: Embedding)
    requires |a1| == |b1|
    ensures Dot(a1 + a2, b1 + b2) == Dot(a1, b1) + Dot(a2, b2)
  {
    if a1 == [] {
      assert a1 + a2 == a2 && b1 + b2 == b2;
    } else {
      assert (a1 + a2)[1..] == a1[1..] + a2 && (b1 + b2)[1..] == b1[1..] + b2;
      DotAdds(a1[1..], a2, b1[1..], b2);
    }
  }

  // ---- Normalised vectors ----

  function SquareSum(a: Embedding): (sum: real)
    ensures sum >= 0.0
  {
    if a == [] then 0.0 else SquareSum(a[..|a| - 1]) + a[|a| - 1] * a[|a| - 1]
  }

  predicate Normalised(a: Embedding) {
    SquareSum(a) == 1.0
  }

  lemma {:induction false} DotOfSelf(a: Embedding)
    ensures Dot(a, a) == SquareSum(a)
  {
    if a != [] {
      var init, last := a[..|a| - 1], a[|a| - 1..];
      assert a == init + last;
      DotOfSelf(init);
      DotAdds(init, last, init, last);
      OneDimension(a[|a| - 1], a[|a| - 1]);
    }
  }

  lemma ZeroProduct(d: real, e: real)
    requires d * e == 0.0
    ensures d == 0.0 || e == 0.0
  {
  }

  lemma EqualSquares(x: real, y: real)
    requires 2.0 * (x * y) == x * x + y * y
    ensures (x - y) * (x - y) == 0.0
  {
  }

  lemma TwiceProduct(x: real, y: real)
    ensures 2.0 * (x * y) <= x * x + y * y
    ensures 2.0 * (x * y) == x * x + y * y ==> x == y
  {
    if 2.0 * (x * y) == x * x + y * y {
      EqualSquares(x, y);
      ZeroProduct(x - y, x - y);
    }
  }

  lemma DotAppend(a: Embedding, b: Embedding, x: real, y: real) returns (product: real)
    requires |a| == |b|
    ensures product == x * y && Dot(a + [x], b + [y]) == Dot(a, b) + product
  {
    DotAdds(a, [x], b, [y]);
    OneDimension(x, y);
    product := Dot([x], [y]);
  }

  lemma SquareSumAppend(a: Embedding, x: real) returns (square: real)
    ensures square == x * x && SquareSum(a + [x]) == SquareSum(a) + square
  {
    assert (a + [x])[..|a|] == a;
    square := x * x;
  }

  /** What a pair of further components contributes. */
  lemma Contributions(a: Embedding, b: Embedding, x: real, y: real) returns (xx: real, yy: real, xy: real)
    requires |a| == |b|
    ensures SquareSum(a + [x]) == SquareSum(a) + xx && SquareSum(b + [y]) == SquareSum(b) + yy
    ensures Dot(a + [x], b + [y]) == Dot(a, b) + xy
    ensures 2.0 * xy <= xx + yy && (2.0 * xy == xx + yy ==> x == y)
  {
    xx := SquareSumAppend(a, x);
    yy := SquareSumAppend(b, y);
    xy := DotAppend(a, b, x, y);
    TwiceProduct(x, y);
  }

  lemma {:induction false} TwiceDot(a: Embedding, b: Embedding)
    requires |a| == |b|
    ensures 2.0 * Dot(a, b) <= SquareSum(a) + SquareSum(b)
    ensures 2.0 * Dot(a, b) == SquareSum(a) + SquareSum(b) ==> a == b
  {
    if a != [] {
      var n := |a| - 1;
      var xx, yy, xy := Contributions(a[..n], b[..n], a[n], b[n]);
      TwiceDot(a[..n], b[..n]);
      assert a == a[..n] + [a[n]] && b == b[..n] + [b[n]];
    }
  }

  /** Normalised vectors of one length have similarity at most 1, and 1 exactly when they are the same. */
  lemma SimilarityIsAtMostOne(a: Embedding, b: Embedding)
    requires |a| == |b| && Normalised(a) && Normalised(b)
    ensures Dot(a, b) <= 1.0
    ensures Dot(a, b) == 1.0 <==> a == b
  {
    TwiceDot(a, b);
    DotOfSelf(a);
  }

  function Similarity(q: Query, e: IndexEntry): real {
    Dot(q.embedding, e.embedding)
  }

  /** The model filter applies only when both sides name a model; a similarity must be positive and reach the threshold. */
  predicate Eligible(q: Query, e: IndexEntry) {
    && !(q.model != "" && e.model != "" && e.model != q.model)
    && Similarity(q, e) > 0.0
    && Similarity(q, e) >= q.threshold
  }

  ghost predicate IsBest(index: Index, q: Query, id: EntryId) {
    && id in index && Eligible(q, index[id])
    && forall other :: other in index && Eligible(q, index[other]) ==> Similarity(q, index[other]) <= Similarity(q, index[id])
  }

  datatype Outcome = Miss | StaleMiss(id: EntryId) | Hit(id: EntryId, response: Response, similarity: real)

  /** The possible outcomes of one lookup; entries of equal similarity may be met in any order. */
  ghost predicate LookupStep(c: Cache, tenant: string, q: Query, now: real, outcome: Outcome, next: Cache) {
    var index := LiveIndex(c, tenant, now);
    match outcome
    case Miss => next == c && forall id :: id in index ==> !Eligible(q, index[id])
    case StaleMiss(id) =>
      IsBest(index, q, id) && LiveEntry(c, EntryKey(tenant, id), now) == None && next == WithoutField(c, tenant, id)
    case Hit(id, response, similarity) =>
      IsBest(index, q, id) && LiveEntry(c, EntryKey(tenant, id), now) == Some(response) && next == c
      && similarity == Round4(Similarity(q, index[id]))
  }

  /** The query of the same text: its embedding, the same model, any threshold up to 1. */
  predicate AsksFor(q: Query, e: IndexEntry) {
    q.embedding == e.embedding && Normalised(e.embedding) && q.model == e.model && q.threshold <= 1.0
  }

  lemma OwnEntryIsEligible(q: Query, e: IndexEntry)
    requires AsksFor(q, e)
    ensures Eligible(q, e) && Similarity(q, e) == 1.0
  {
    DotOfSelf(e.embedding);
  }

  /** Right after a store, and until the response expires, the same question is never a miss; alone in the cache, it is a hit. */
  lemma StoredIsFound(c: Cache, call: StoreCall, q: Query, now: real, outcome: Outcome, next: Cache)
    requires call.ttl > 0.0 && call.at <= now < call.at + call.ttl
    requires AsksFor(q, IndexEntry(call.embedding, call.model, call.at))
    requires LookupStep(Stored(c, call), call.tenant, q, now, outcome, next)
    ensures outcome != Miss
    ensures c == Cache(map[], map[]) ==>
      outcome == Hit(call.id, Response(call.response, call.model, Preview(call.prompt), call.at, call.metadata), 1.0)
  {
    OwnEntryIsEligible(q, IndexPart(call));
    var index := LiveIndex(Stored(c, call), call.tenant, now);
    assert call.id in index && index[call.id] == IndexPart(call);
    WholeIsUnrounded(1);
  }

  /** Among normalised embeddings of one length, the best match of a stored embedding carries that very embedding. */
  lemma OwnEmbeddingWins(index: Index, q: Query, own: EntryId, best: EntryId)
    requires own in index && AsksFor(q, index[own]) && IsBest(index, q, best)
    requires forall id :: id in index ==> |index[id].embedding| == |q.embedding| && Normalised(index[id].embedding)
    ensures index[best].embedding == q.embedding && Similarity(q, index[best]) == 1.0
  {
    OwnEntryIsEligible(q, index[own]);
    SimilarityIsAtMostOne(q.embedding, index[best].embedding);
  }

  /** The preview is the longest beginning of the prompt with at most 200 characters. */
  lemma PreviewIsBeginning(prompt: string)
    ensures Preview(prompt) <= prompt
    ensures |Preview(prompt)| <= 200 && (Preview(prompt) != prompt ==> |Preview(prompt)| == 200)
  {
  }

  /** A store makes its response readable for the lifetime and its index for twice that, and concerns nothing else. */
  lemma StoredLives(c: Cache, call: StoreCall, later: real)
    ensures LiveEntry(Stored(c, call), EntryKey(call.tenant, call.id), later)
         == if later < call.at + call.ttl
            then Some(Response(call.response, call.model, Preview(call.prompt), call.at, call.metadata)) else None
    ensures LiveIndex(Stored(c, call), call.tenant, later)
         == if later < call.at + 2.0 * call.ttl
            then LiveIndex(c, call.tenant, call.at)[call.id := IndexEntry(call.embedding, call.model, call.at)] else map[]
    ensures forall key :: key != EntryKey(call.tenant, call.id) ==> LiveEntry(Stored(c, call), key, later) == LiveEntry(c, key, later)
    ensures forall t :: t != call.tenant ==> LiveIndex(Stored(c, call), t, later) == LiveIndex(c, t, later)
  {
  }

  /** Cleaning up a stale entry takes it out of the index at every instant, and concerns nothing else. */
  lemma CleanUpRemovesOne(c: Cache, tenant: string, id: EntryId, later: real)
    ensures LiveIndex(WithoutField(c, tenant, id), tenant, later) == LiveIndex(c, tenant, later) - {id}
    ensures forall t :: t != tenant ==> LiveIndex(WithoutField(c, tenant, id), t, later) == LiveIndex(c, t, later)
    ensures WithoutField(c, tenant, id).entries == c.entries
  {
  }

  // ---- Repeating a lookup ----

  /** An indexed entry that the query accepts and whose response has not expired. */
  ghost predicate Answers(c: Cache, tenant: string, q: Query, now: real, id: EntryId) {
    var index := LiveIndex(c, tenant, now);
    id in index && Eligible(q, index[id]) && LiveEntry(c, EntryKey(tenant, id), now).Some?
  }

  ghost predicate Repeats(caches: seq<Cache>, outcomes: seq<Outcome>, tenant: string, q: Query, now: real) {
    |caches| == |outcomes| + 1
    && forall i :: 0 <= i < |outcomes| ==> LookupStep(caches[i], tenant, q, now, outcomes[i], caches[i + 1])
  }

  lemma StaleMissShrinks(c: Cache, tenant: string, q: Query, now: real, id: EntryId, next: Cache)
    requires LookupStep(c, tenant, q, now, StaleMiss(id), next)
    ensures LiveIndex(next, tenant, now) == LiveIndex(c, tenant, now) - {id}
    ensures |LiveIndex(next, tenant, now)| == |LiveIndex(c, tenant, now)| - 1
    ensures forall other :: Answers(next, tenant, q, now, other) <==> Answers(c, tenant, q, now, other)
  {
  }

  /**
   * With the clock held still, every stale miss removes exactly one index entry; within |index| + 1 tries some lookup is
   * not a stale miss, and it is a hit if and only if an unexpired acceptable entry existed, one of maximal similarity.
   */
  lemma {:induction false} RepeatedLookupSettles(
    caches: seq<Cache>, outcomes: seq<Outcome>, tenant: string, q: Query, now: real) returns (k: nat)
    requires Repeats(caches, outcomes, tenant, q, now)
    requires |outcomes| > |LiveIndex(caches[0], tenant, now)|
    ensures k <= |LiveIndex(caches[0], tenant, now)| && k < |outcomes|
    ensures |LiveIndex(caches[k], tenant, now)| == |LiveIndex(caches[0], tenant, now)| - k
    ensures (forall i :: 0 <= i < k ==> outcomes[i].StaleMiss?) && !outcomes[k].StaleMiss?
    ensures outcomes[k].Hit? <==> exists id :: Answers(caches[0], tenant, q, now, id)
    ensures outcomes[k].Hit? ==>
      && Answers(caches[0], tenant, q, now, outcomes[k].id)
      && LiveEntry(caches[0], EntryKey(tenant, outcomes[k].id), now) == Some(outcomes[k].response)
      && forall other :: Answers(caches[0], tenant, q, now, other) ==>
           var index := LiveIndex(caches[0], tenant, now);
           Similarity(q, index[other]) <= Similarity(q, index[outcomes[k].id])
    decreases |outcomes|
  {
    assert LookupStep(caches[0], tenant, q, now, outcomes[0], caches[1]);
    match outcomes[0] {
      case Miss =>
        k := 0;
      case Hit(id, response, _) =>
        k := 0;
        assert Answers(caches[0], tenant, q, now, id);
      case StaleMiss(id) =>
        StaleMissShrinks(caches[0], tenant, q, now, id, caches[1]);
        assert forall i :: 0 <= i < |outcomes| - 1 ==>
          LookupStep(caches[1..][i], tenant, q, now, outcomes[1..][i], caches[1..][i + 1]);
        var j := RepeatedLookupSettles(caches[1..], outcomes[1..], tenant, q, now);
        k := j + 1;
    }
  }

  // ---- Runs ----

  datatype Event =
    | StoreEvent(call: StoreCall)
    | LookupEvent(tenant: string, query: Query, outcome: Outcome, now: real)
    | InvalidateEvent(tenant: string, now: real)

  function TimeOf(e: Event): real {
    match e
    case StoreEvent(call) => call.at
    case LookupEvent(_, _, _, now) => now
    case InvalidateEvent(_, now) => now
  }

  ghost predicate Step(c: Cache, e: Event, next: Cache) {
    match e
    case StoreEvent(call) => next == Stored(c, call)
    case LookupEvent(tenant, q, outcome, now) => LookupStep(c, tenant, q, now, outcome, next)
    case InvalidateEvent(tenant, now) => next == Invalidated(c, tenant, now)
  }

  /** A run from the empty cache, with a clock that never goes back and lifetimes between ttl and twice ttl. */
  ghost predicate IsRun(caches: seq<Cache>, events: seq<Event>, ttl: real) {
    && |caches| == |events| + 1 && caches[0] == Cache(map[], map[])
    && (forall i :: 0 <= i < |events| ==> Step(caches[i], events[i], caches[i + 1]))
    && (forall i, j :: 0 <= i < j < |events| ==> TimeOf(events[i]) <= TimeOf(events[j]))
    && (forall i :: 0 <= i < |events| && events[i].StoreEvent? ==> ttl <= events[i].call.ttl <= 2.0 * ttl)
  }

  /** The latest store call for an entry. */
  function LastCall(events: seq<Event>, key: EntryKey): Option<StoreCall> {
    if events == [] then None
    else
      var e := events[|events| - 1];
      if e.StoreEvent? && KeyOf(e.call) == key then Some(e.call) else LastCall(events[..|events| - 1], key)
  }

  /** The entry is listed in an index that outlives it, and both parts come from the given store call. */
  ghost predicate Indexed(c: Cache, key: EntryKey, call: Option<StoreCall>) {
    && key in c.entries && key.tenant in c.indexes
    && c.entries[key].expiresAt <= c.indexes[key.tenant].expiresAt
    && key.id in c.indexes[key.tenant].value
    && call.Some?
    && c.indexes[key.tenant].value[key.id] == IndexPart(call.value)
    && c.entries[key].value == EntryPart(call.value)
  }

  ghost predicate Covered(c: Cache, events: seq<Event>, ttl: real, clock: real) {
    forall key :: key in c.entries && clock < c.entries[key].expiresAt ==>
      Indexed(c, key, LastCall(events, key)) && c.entries[key].expiresAt <= clock + 2.0 * ttl
  }

  lemma StoreKeepsCovered(c: Cache, events: seq<Event>, ttl: real, clock: real, call: StoreCall)
    requires Covered(c, events, ttl, clock) && clock <= call.at && 0.0 < ttl <= call.ttl <= 2.0 * ttl
    ensures Covered(Stored(c, call), events + [StoreEvent(call)], ttl, call.at)
  {
  }

  lemma OtherKeepsCovered(c: Cache, events: seq<Event>, ttl: real, clock: real, e: Event, next: Cache)
    requires Covered(c, events, ttl, clock) && clock <= TimeOf(e) && 0.0 < ttl
    requires !e.StoreEvent? && Step(c, e, next)
    ensures Covered(next, events + [e], ttl, TimeOf(e))
  {
    var longer := events + [e];
    assert longer[..|events|] == events;
    forall key | key in next.entries && TimeOf(e) < next.entries[key].expiresAt
      ensures Indexed(next, key, LastCall(longer, key)) && next.entries[key].expiresAt <= TimeOf(e) + 2.0 * ttl
    {
      assert Indexed(c, key, LastCall(events, key));
      assert LastCall(longer, key) == LastCall(events, key);
      assert key.id in LiveIndex(c, key.tenant, TimeOf(e)) && LiveEntry(c, key, TimeOf(e)).Some?;
      if e.LookupEvent? && e.outcome.StaleMiss? && e.tenant == key.tenant {
        assert key == EntryKey(e.tenant, key.id) && key.id in c.indexes[e.tenant].value - {e.outcome.id};
      }
    }
  }

  lemma {:induction false} RunIsCovered(caches: seq<Cache>, events: seq<Event>, ttl: real)
    requires IsRun(caches, events, ttl) && 0.0 < ttl && events != []
    ensures Covered(caches[|events|], events, ttl, TimeOf(events[|events| - 1]))
  {
    var n := |events| - 1;
    var e := events[n];
    var clock := if n == 0 then TimeOf(e) else TimeOf(events[n - 1]);
    if n > 0 {
      RunIsCovered(caches[..n + 1], events[..n], ttl);
    }
    assert Covered(caches[n], events[..n], ttl, clock);
    assert events == events[..n] + [e] && Step(caches[n], e, caches[n + 1]);
    if e.StoreEvent? {
      StoreKeepsCovered(caches[n], events[..n], ttl, clock, e.call);
    } else {
      OtherKeepsCovered(caches[n], events[..n], ttl, clock, e, caches[n + 1]);
    }
  }

  /** In every reachable state each unexpired response is listed in its tenant's live index, from the same store call. */
  lemma EveryLiveEntryIsIndexed(caches: seq<Cache>, events: seq<Event>, ttl: real, key: EntryKey, now: real)
    requires IsRun(caches, events, ttl) && 0.0 < ttl
    requires events != [] ==> TimeOf(events[|events| - 1]) <= now
    requires LiveEntry(caches[|events|], key, now).Some?
    ensures var c, call := caches[|events|], LastCall(events, key);
      && call.Some?
      && LiveEntry(c, key, now) == Some(EntryPart(call.value))
      && key.id in LiveIndex(c, key.tenant, now)
      && LiveIndex(c, key.tenant, now)[key.id] == IndexPart(call.value)
  {
    RunIsCovered(caches, events, ttl);
  }

  /** In every reachable state a question whose response has not expired is never a miss. */
  lemma LiveQuestionIsFound(caches: seq<Cache>, events: seq<Event>, ttl: real, key: EntryKey, q: Query, now: real,
                            outcome: Outcome, next: Cache)
    requires IsRun(caches, events, ttl) && 0.0 < ttl
    requires events != [] ==> TimeOf(events[|events| - 1]) <= now
    requires LiveEntry(caches[|events|], key, now).Some?
    requires LastCall(events, key).Some? ==> AsksFor(q, IndexPart(LastCall(events, key).value))
    requires LookupStep(caches[|events|], key.tenant, q, now, outcome, next)
    ensures outcome != Miss
  {
    EveryLiveEntryIsIndexed(caches, events, ttl, key, now);
    OwnEntryIsEligible(q, IndexPart(LastCall(events, key).value));
  }

  /** Invalidating a tenant leaves it no live response, now or later, and touches nothing of another tenant. */
  lemma InvalidationIsComplete(caches: seq<Cache>, events: seq<Event>, ttl: real, tenant: string, now: real,
                               key: EntryKey, later: real)
    requires IsRun(caches, events, ttl) && 0.0 < ttl && now <= later
    requires events != [] ==> TimeOf(events[|events| - 1]) <= now
    ensures var c := caches[|events|]; var after := Invalidated(c, tenant, now);
      && (key.tenant == tenant ==> LiveEntry(after, key, later) == None && LiveIndex(after, tenant, later) == map[])
      && (key.tenant != tenant ==>
            && LiveEntry(after, key, later) == LiveEntry(c, key, later)
            && LiveIndex(after, key.tenant, later) == LiveIndex(c, key.tenant, later))
  {
    if LiveEntry(caches[|events|], key, now).Some? {
      EveryLiveEntryIsIndexed(caches, events, ttl, key, now);
    }
  }

  // ---- Unequal lifetimes ----

  /** Every live response of the tenant is listed in its live index. */
  ghost predicate CoveredAt(c: Cache, tenant: string, now: real) {
    forall id :: LiveEntry(c, EntryKey(tenant, id), now).Some? ==> id in LiveIndex(c, tenant, now)
  }

  /**
   * After a store with any lifetime, the tenant stays covered at all later instants if and only if none of its live
   * responses outlasts the index expiry that the store sets.
   */
  lemma StoreKeepsCoverageIff(c: Cache, call: StoreCall)
    requires call.ttl > 0.0 && CoveredAt(c, call.tenant, call.at)
    ensures (forall later :: call.at <= later ==> CoveredAt(Stored(c, call), call.tenant, later))
      <==> forall id :: id != call.id && LiveEntry(c, EntryKey(call.tenant, id), call.at).Some? ==>
             c.entries[EntryKey(call.tenant, id)].expiresAt <= call.at + 2.0 * call.ttl
  {
    var next := Stored(c, call);
    if forall later :: call.at <= later ==> CoveredAt(next, call.tenant, later) {
      forall id | id != call.id && LiveEntry(c, EntryKey(call.tenant, id), call.at).Some?
        ensures c.entries[EntryKey(call.tenant, id)].expiresAt <= call.at + 2.0 * call.ttl
      {
        assert CoveredAt(next, call.tenant, call.at + 2.0 * call.ttl);
        assert LiveIndex(next, call.tenant, call.at + 2.0 * call.ttl) == map[];
        assert LiveEntry(next, EntryKey(call.tenant, id), call.at + 2.0 * call.ttl) == None;
      }
    }
    if forall id :: id != call.id && LiveEntry(c, EntryKey(call.tenant, id), call.at).Some? ==>
         c.entries[EntryKey(call.tenant, id)].expiresAt <= call.at + 2.0 * call.ttl
    {
      forall later | call.at <= later ensures CoveredAt(next, call.tenant, later) {
        forall id | LiveEntry(next, EntryKey(call.tenant, id), later).Some? ensures id in LiveIndex(next, call.tenant, later) {
          if id != call.id {
            assert LiveEntry(c, EntryKey(call.tenant, id), call.at).Some?;
          }
        }
      }
    }
  }

  /** A lifetime of 100 followed by one of 1: at time 3 the first response is live, unlisted, and survives invalidation. */
  lemma ShortLifetimeUncovers(long: StoreCall, short: StoreCall)
    requires long.tenant == short.tenant && long.id != short.id
    requires long.at == 0.0 && long.ttl == 100.0 && short.at == 0.0 && short.ttl == 1.0
    ensures var c := Stored(Stored(Cache(map[], map[]), long), short);
      && LiveEntry(c, KeyOf(long), 3.0).Some? && long.id !in LiveIndex(c, long.tenant, 3.0)
      && LiveEntry(Invalidated(c, long.tenant, 3.0), KeyOf(long), 3.0).Some?
  {
  }

  // ---- The cache object ----

  lemma WithoutOneMore(entries: map<EntryKey, Expiring<Response>>, tenant: string, ids: set<EntryId>, id: EntryId)
    ensures Without(entries, tenant, ids) - {EntryKey(tenant, id)} == Without(entries, tenant, ids + {id})
  {
  }

  class SemanticCacheService {
    var indexes: map<string, Expiring<Index>>
    var entries: map<EntryKey, Expiring<Response>>

    /** The key derived from the first eight components of an embedding; nothing is assumed about collisions. */
    const embeddingHash: Embedding -> EntryId

    constructor (embeddingHash: Embedding -> EntryId)
      ensures State() == Cache(map[], map[]) && this.embeddingHash == embeddingHash
    {
      indexes, entries := map[], map[];
      this.embeddingHash := embeddingHash;
    }

    function State(): Cache
      reads this
    {
      Cache(indexes, entries)
    }

    function IdOf(embedding: Embedding): EntryId {
      embeddingHash(if |embedding| <= 8 then embedding else embedding[..8])
    }

    /** Only the first eight components count, and all of them do. */
    lemma IdentityOfEmbeddings(a: Embedding, b: Embedding)
      requires |a| >= 8 && |b| >= 8
      ensures (forall i :: 0 <= i < 8 ==> a[i] == b[i]) ==> IdOf(a) == IdOf(b)
      ensures (forall x, y :: embeddingHash(x) == embeddingHash(y) ==> x == y) && IdOf(a) == IdOf(b) ==>
        forall i :: 0 <= i < 8 ==> a[i] == b[i]
    {
      assert IdOf(a) == embeddingHash(a[..8]) && IdOf(b) == embeddingHash(b[..8]) by {
        assert |a| == 8 ==> a[..8] == a;
        assert |b| == 8 ==> b[..8] == b;
      }
      if forall i :: 0 <= i < 8 ==> a[i] == b[i] {
        assert a[..8] == b[..8];
      }
      assert a[..8] == b[..8] ==> forall i :: 0 <= i < 8 ==> a[i] == a[..8][i] == b[..8][i] == b[i];
    }

    method Store(embedding: Option<Embedding>, prompt: string, response: string, tenant: string, model: string,
                 metadata: Option<Metadata>, ttl: real, now: real) returns (ok: bool)
      requires ttl > 0.0
      modifies this
      ensures ok == embedding.Some?
      ensures State() == if ok
        then Stored(old(State()), StoreCall(tenant, IdOf(embedding.value), embedding.value, prompt, response, model,
                                            if metadata.Some? then metadata.value else map[], ttl, now))
        else old(State())
    {
      if embedding.None? {
        return false;
      }
      var id := IdOf(embedding.value);
      var index := LiveIndex(State(), tenant, now);
      index := index[id := IndexEntry(embedding.value, model, now)];
      indexes := indexes[tenant := Expiring(index, now + 2.0 * ttl)];
      var details := if metadata.Some? then metadata.value else map[];
      entries := entries[EntryKey(tenant, id) :=
        Expiring(Response(response, model, Preview(prompt), now, details), now + ttl)];
      return true;
    }

    method Lookup(embedding: Option<Embedding>, tenant: string, model: string, threshold: real, now: real)
      returns (outcome: Outcome)
      modifies this
      ensures embedding.None? ==> outcome == Miss && State() == old(State())
      ensures embedding.Some? ==>
        LookupStep(old(State()), tenant, Query(embedding.value, model, threshold), now, outcome, State())
    {
      if embedding.None? {
        return Miss;
      }
      var q := Query(embedding.value, model, threshold);
      var index := LiveIndex(State(), tenant, now);
      var bestMatch: Option<EntryId> := None;
      var bestSimilarity := 0.0;
      var todo := index.Keys;
      while todo != {}
        invariant todo <= index.Keys
        invariant bestMatch.None? ==> bestSimilarity == 0.0
        invariant bestMatch.Some? ==>
          && bestMatch.value in index && Eligible(q, index[bestMatch.value])
          && bestSimilarity == Similarity(q, index[bestMatch.value])
        invariant forall id :: id in index && id !in todo && Eligible(q, index[id]) ==>
          bestMatch.Some? && Similarity(q, index[id]) <= bestSimilarity
      {
        var id :| id in todo;
        todo := todo - {id};
        var cached := index[id];
        if q.model != "" && cached.model != "" && cached.model != q.model {
          continue;
        }
        var similarity := Similarity(q, cached);
        if similarity > bestSimilarity && similarity >= threshold {
          bestSimilarity := similarity;
          bestMatch := Some(id);
        }
      }
      if bestMatch.None? {
        return Miss;
      }
      assert IsBest(index, q, bestMatch.value);
      var response := LiveEntry(State(), EntryKey(tenant, bestMatch.value), now);
      if response.None? {
        var next := WithoutField(State(), tenant, bestMatch.value);
        indexes := next.indexes;
        return StaleMiss(bestMatch.value);
      }
      return Hit(bestMatch.value, response.value, Round4(bestSimilarity));
    }

    method DeleteResponses(tenant: string, ids: set<EntryId>) returns (count: nat)
      modifies this`entries
      ensures entries == Without(old(entries), tenant, ids) && count == |ids|
    {
      var todo := ids;
      count := 0;
      ghost var before := entries;
      assert entries == Without(before, tenant, ids - todo);
      while todo != {}
        invariant todo <= ids && count + |todo| == |ids|
        invariant entries == Without(before, tenant, ids - todo)
      {
        var id :| id in todo;
        WithoutOneMore(before, tenant, ids - todo, id);
        assert ids - (todo - {id}) == (ids - todo) + {id};
        entries := entries - {EntryKey(tenant, id)};
        todo := todo - {id};
        count := count + 1;
      }
      assert ids - todo == ids;
    }

    /** Delete the response of every listed entry, then the index. */
    method InvalidateTenant(tenant: string, now: real) returns (count: nat)
      modifies this
      ensures State() == Invalidated(old(State()), tenant, now)
      ensures count == |old(LiveIndex(State(), tenant, now))|
    {
      var index := LiveIndex(State(), tenant, now);
      count := DeleteResponses(tenant, index.Keys);
      indexes := indexes - {tenant};
    }
  }
}
