/** The datasource status cache (frontend/src/dashboard/usePanelData.ts): a short-lived value and at most
    one request in flight, over any interleaving of callers and completions. Times are milliseconds. */
module StatusCache {
  import Clock
  import opened Wrappers

  const STATUS_TTL_MS := 10_000

  datatype Cached<V> = Cached(value: V, fetchedAt: int)

  /** What a caller gets at once: a cached value, or the promise of a fetch. */
  datatype Answer<V> = Immediate(cached: Cached<V>) | Awaits(fetch: nat)

  /** The two module variables, and the requests that are really under way. */
  datatype State<V> = State(cache: Option<Cached<V>>, promise: Option<nat>, flying: set<nat>)

  predicate Fresh<V>(s: State<V>, now: int) {
    s.cache.Some? && now - s.cache.value.fetchedAt < STATUS_TTL_MS
  }

  function AnswerTo<V>(s: State<V>, now: int, id: nat): Answer<V> {
    if Fresh(s, now) then Immediate(s.cache.value)
    else Awaits(if s.promise.None? then id else s.promise.value)
  }

  function AfterCall<V>(s: State<V>, now: int, id: nat): State<V> {
    if !Fresh(s, now) && s.promise.None? then s.(promise := Some(id), flying := s.flying + {id}) else s
  }

  /** A request that is not under way cannot settle; one that is fills the cache and clears the promise,
      whichever request the promise is for. */
  function AfterSettle<V>(s: State<V>, id: nat, now: int, value: V): State<V> {
    if id !in s.flying then s
    else State(Some(Cached(value, now)), None, s.flying - {id})
  }

  class Cache<V> {
    var statusCache: Option<Cached<V>>
    var statusPromise: Option<nat>
    ghost var flying: set<nat>

    ghost function Now(): State<V>
      reads this
    {
      State(statusCache, statusPromise, flying)
    }

    constructor ()
      ensures Now() == State(None, None, {})
    {
      statusCache, statusPromise, flying := None, None, {};
    }

    /** `id` names the request that would be started. */
    method GetDatasourceStatus(now: int, id: nat) returns (answer: Answer<V>)
      modifies this
      ensures answer == AnswerTo(old(Now()), now, id) && Now() == AfterCall(old(Now()), now, id)
    {
      if statusCache.Some? && now - statusCache.value.fetchedAt < STATUS_TTL_MS {
        return Immediate(statusCache.value);
      }
      if statusPromise.None? {
        statusPromise := Some(id);
        flying := flying + {id};
      }
      return Awaits(statusPromise.value);
    }

    /** The continuation of request `id`. */
    method OnSettled(id: nat, now: int, value: V)
      requires id in flying
      modifies this
      ensures Now() == AfterSettle(old(Now()), id, now, value)
    {
      statusCache := Some(Cached(value, now));
      statusPromise := None;
      flying := flying - {id};
    }
  }

  /* Runs. The request started by event `k` is called `k`. */

  datatype Event<V> = Call(now: int) | Settle(fetch: nat, now: int, value: V)

  function After<V>(run: seq<Event<V>>, k: nat): State<V>
    requires k <= |run|
  {
    if k == 0 then State(None, None, {})
    else match run[k - 1]
      case Call(now) => AfterCall(After(run, k - 1), now, k - 1)
      case Settle(id, now, value) => AfterSettle(After(run, k - 1), id, now, value)
  }

  /** Event `k` is a call that starts a request. */
  predicate Starts<V>(run: seq<Event<V>>, k: nat) {
    k < |run| && run[k].Call? && !Fresh(After(run, k), run[k].now) && After(run, k).promise.None?
  }

  /** Event `k` is the completion of a request under way. */
  predicate Completes<V>(run: seq<Event<V>>, k: nat) {
    k < |run| && run[k].Settle? && run[k].fetch in After(run, k).flying
  }

  function TimeOf<V>(e: Event<V>): int { e.now }

  ghost predicate ClockAdvances<V>(run: seq<Event<V>>) { Clock.Advances(run, TimeOf) }

  /** Main theorem: at most one request is ever under way, and it is the one the promise is for. */
  lemma {:induction false} AtMostOneInFlight<V>(run: seq<Event<V>>, k: nat)
    requires k <= |run|
    ensures var s := After(run, k); s.flying == if s.promise.None? then {} else {s.promise.value}
    ensures forall id | id in After(run, k).flying :: id < k && Starts(run, id)
    decreases k
  {
    if k > 0 { AtMostOneInFlight(run, k - 1); }
  }

  /** The cached value is the one the latest completion brought. */
  lemma {:induction false} CacheIsLatest<V>(run: seq<Event<V>>, k: nat, j: nat)
    requires j < k <= |run| && Completes(run, j)
    requires forall i | j < i < k :: !Completes(run, i)
    ensures After(run, k).cache == Some(Cached(run[j].value, run[j].now))
    decreases k
  {
    if j < k - 1 {
      assert !Completes(run, k - 1);
      CacheIsLatest(run, k - 1, j);
    }
  }

  lemma {:induction false} LatestCompletion<V>(run: seq<Event<V>>, k: nat) returns (j: nat)
    requires k <= |run| && After(run, k).cache.Some?
    ensures j < k && Completes(run, j) && forall i | j < i < k :: !Completes(run, i)
    decreases k
  {
    if Completes(run, k - 1) { j := k - 1; } else { j := LatestCompletion(run, k - 1); }
  }

  /** Main theorem: a new request starts no sooner than ten seconds after any completion. */
  lemma {:induction false} FetchesAreSpaced<V>(run: seq<Event<V>>, j: nat, k: nat)
    requires ClockAdvances(run) && j < k && Completes(run, j) && Starts(run, k)
    ensures run[k].now - run[j].now >= 10_000
  {
    CompletedBefore(run, j, k);
    var latest := LatestCompletion(run, k);
    CacheIsLatest(run, k, latest);
    assert j <= latest;
    Clock.Order(run, TimeOf, j, latest);
  }

  lemma {:induction false} CompletedBefore<V>(run: seq<Event<V>>, j: nat, k: nat)
    requires j < k <= |run| && Completes(run, j)
    ensures After(run, k).cache.Some?
    decreases k
  {
    if j < k - 1 { CompletedBefore(run, j, k - 1); }
  }

  /** Main theorem: a caller answered at once gets a value some request brought less than ten
      seconds before. */
  lemma ImmediateIsRecent<V>(run: seq<Event<V>>, i: nat) returns (j: nat)
    requires i < |run| && run[i].Call? && AnswerTo(After(run, i), run[i].now, i).Immediate?
    ensures j < i && Completes(run, j) &&
      AnswerTo(After(run, i), run[i].now, i).cached == Cached(run[j].value, run[j].now)
    ensures run[i].now - run[j].now < 10_000
  {
    j := LatestCompletion(run, i);
    CacheIsLatest(run, i, j);
  }

  /** A request is under way from the call that awaits it until it completes. */
  lemma {:induction false} AwaitedStaysInFlight<V>(run: seq<Event<V>>, i: nat, k: nat, id: nat)
    requires i < k <= |run| && run[i].Call? && AnswerTo(After(run, i), run[i].now, i) == Awaits(id)
    requires forall j | i < j < k && Completes(run, j) :: run[j].fetch != id
    ensures id in After(run, k).flying
    decreases k
  {
    AtMostOneInFlight(run, i);
    if i < k - 1 { AwaitedStaysInFlight(run, i, k - 1, id); }
  }

  /** Main theorem: a caller that has to wait awaits a request that completes, if at all, after its
      call; the value it then receives is the one that completion brings. */
  lemma AwaitedCompletesLater<V>(run: seq<Event<V>>, i: nat, j: nat, id: nat)
    requires ClockAdvances(run)
    requires i < |run| && run[i].Call? && AnswerTo(After(run, i), run[i].now, i) == Awaits(id)
    requires Completes(run, j) && run[j].fetch == id
    ensures i < j && run[j].now >= run[i].now
    ensures id in After(run, i + 1).flying
  {
    AwaitedStaysInFlight(run, i, i + 1, id);
    if j < i {
      CompletedIsGone(run, j, i + 1, id);
    }
    Clock.Order(run, TimeOf, i, j);
  }

  /** A completed request never comes back. */
  lemma {:induction false} CompletedIsGone<V>(run: seq<Event<V>>, j: nat, k: nat, id: nat)
    requires j < k <= |run| && Completes(run, j) && run[j].fetch == id
    ensures id !in After(run, k).flying
    decreases k
  {
    AtMostOneInFlight(run, j);
    if j < k - 1 { CompletedIsGone(run, j, k - 1, id); }
  }
}
