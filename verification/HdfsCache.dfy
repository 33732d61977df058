/**
  The HDFS connection cache: lookups under a read lock, a second lookup and the connect under
  the write lock, removals under the write lock. Threads are interleaved step by step.
 */
module HdfsCache {
  import opened Wrappers

  /** A connected file system; `raw` stands for the native handle. */
  datatype HdfsFs = HdfsFs(url: string, raw: nat)

  type Cache = map<string, HdfsFs>

  function Lookup(cache: Cache, key: string): Option<HdfsFs> {
    if key in cache then Some(cache[key]) else None
  }

  // ----- one call after another

  /** A call of the manager; `connected` is the handle that a connect in it yields, if it does. */
  datatype Op = Get(key: string, connected: Option<nat>) | Drop(key: string)

  /** The cache after a call, and what the call returns. */
  function Exec(cache: Cache, op: Op): (Cache, Option<HdfsFs>) {
    match op
    case Drop(key) => (cache - {key}, Lookup(cache, key))
    case Get(key, connected) =>
      if key in cache then (cache, Some(cache[key]))
      else match connected
        case None => (cache, None)
        case Some(raw) => (cache[key := HdfsFs(key, raw)], Some(HdfsFs(key, raw)))
  }

  /** Calls on a new manager, one after the other: the cache and the results. */
  function ExecAll(ops: seq<Op>): (r: (Cache, seq<Option<HdfsFs>>))
    ensures |r.1| == |ops|
  {
    if ops == [] then (map[], [])
    else
      var n := |ops| - 1;
      var (cache, results) := ExecAll(ops[..n]);
      var (cache', result) := Exec(cache, ops[n]);
      (cache', results + [result])
  }

  class HdfsManager {
    var hdfsCache: Cache

    constructor ()
      ensures hdfsCache == map[]
    {
      hdfsCache := map[];
    }

    /** Two lookups, one under each lock, and on two misses a connect. */
    method GetHdfs(key: string, connected: Option<nat>) returns (r: Option<HdfsFs>)
      modifies this
      ensures (hdfsCache, r) == Exec(old(hdfsCache), Get(key, connected))
      ensures forall k :: k != key ==> (k in hdfsCache <==> k in old(hdfsCache))
      ensures forall k :: k in old(hdfsCache) ==> k in hdfsCache && hdfsCache[k] == old(hdfsCache)[k]
      ensures r.Some? <==> key in hdfsCache
      ensures r.Some? ==> r.value == hdfsCache[key]
      ensures key !in old(hdfsCache) ==> r == match connected case None => None case Some(raw) => Some(HdfsFs(key, raw))
    {
      r := Lookup(hdfsCache, key);
      if r.None? {
        r := Lookup(hdfsCache, key);
        if r.None? && connected.Some? {
          var fs := HdfsFs(key, connected.value);
          hdfsCache := hdfsCache[key := fs];
          r := Some(fs);
        }
      }
    }

    method RemoveHdfsInner(key: string) returns (r: Option<HdfsFs>)
      modifies this
      ensures (hdfsCache, r) == Exec(old(hdfsCache), Drop(key))
      ensures key !in hdfsCache && (r.Some? <==> key in old(hdfsCache))
      ensures old(hdfsCache) == if r.Some? then hdfsCache[key := r.value] else hdfsCache
    {
      r := Lookup(hdfsCache, key);
      hdfsCache := hdfsCache - {key};
    }
  }

  /** The calls in sequence on a new manager. */
  method Replay(ops: seq<Op>) returns (m: HdfsManager, results: seq<Option<HdfsFs>>)
    ensures (m.hdfsCache, results) == ExecAll(ops)
  {
    m := new HdfsManager();
    results := [];
    for n := 0 to |ops|
      invariant (m.hdfsCache, results) == ExecAll(ops[..n])
    {
      assert ops[..n + 1][..n] == ops[..n];
      var r: Option<HdfsFs>;
      match ops[n] {
        case Get(key, connected) => r := m.GetHdfs(key, connected);
        case Drop(key) => r := m.RemoveHdfsInner(key);
      }
      results := results + [r];
    }
    assert ops[..|ops|] == ops;
  }

  // ----- interleaved threads

  datatype Pc =
    | Start                       // a get before its first lookup
    | Missed                      // the first lookup found nothing
    | Locked                      // holds the write lock
    | Connecting                  // the second lookup found nothing either
    | Got(fs: HdfsFs)
    | Failed
    | Removing                    // a removal before it takes the lock
    | Removed(entry: Option<HdfsFs>)

  datatype Thread = Thread(key: string, pc: Pc)

  /** What has happened to the cache, in order. */
  datatype Event =
    | Connected(key: string)
    | Taken(key: string)
    | Returned(key: string, raw: nat)

  datatype State = State(threads: map<nat, Thread>, cache: Cache, lock: Option<nat>, nextRaw: nat, log: seq<Event>)

  datatype Step =
    | SpawnGet(t: nat, key: string)
    | SpawnRemove(t: nat, key: string)
    | FirstLookup(t: nat)
    | Acquire(t: nat)
    | SecondLookup(t: nat)
    | ConnectOk(t: nat)
    | ConnectFails(t: nat)
    | Remove(t: nat)

  const INIT := State(map[], map[], None, 0, [])

  predicate At(s: State, t: nat, pc: Pc) {
    t in s.threads && s.threads[t].pc == pc
  }

  predicate Enabled(s: State, step: Step) {
    match step
    case SpawnGet(t, _) => t !in s.threads
    case SpawnRemove(t, _) => t !in s.threads
    case FirstLookup(t) => At(s, t, Start) && s.lock.None?
    case Acquire(t) => At(s, t, Missed) && s.lock.None?
    case SecondLookup(t) => At(s, t, Locked)
    case ConnectOk(t) => At(s, t, Connecting)
    case ConnectFails(t) => At(s, t, Connecting)
    case Remove(t) => At(s, t, Removing) && s.lock.None?
  }

  function Goto(s: State, t: nat, pc: Pc): State
    requires t in s.threads
  {
    s.(threads := s.threads[t := s.threads[t].(pc := pc)])
  }

  /** `fs` is connected and cached. */
  function Connect(s: State, fs: HdfsFs): State {
    s.(cache := s.cache[fs.url := fs], nextRaw := s.nextRaw + 1, log := s.log + [Connected(fs.url)])
  }

  /** A get returns `fs`. */
  function Return(s: State, t: nat, fs: HdfsFs): State
    requires t in s.threads
  {
    Goto(s, t, Got(fs)).(log := s.log + [Returned(s.threads[t].key, fs.raw)])
  }

  function Apply(s: State, step: Step): State
    requires Enabled(s, step)
  {
    match step
    case SpawnGet(t, key) => s.(threads := s.threads[t := Thread(key, Start)])
    case SpawnRemove(t, key) => s.(threads := s.threads[t := Thread(key, Removing)])
    case FirstLookup(t) =>
      var key := s.threads[t].key;
      if key in s.cache then Return(s, t, s.cache[key]) else Goto(s, t, Missed)
    case Acquire(t) => Goto(s, t, Locked).(lock := Some(t))
    case SecondLookup(t) =>
      var key := s.threads[t].key;
      if key in s.cache then Return(s, t, s.cache[key]).(lock := None) else Goto(s, t, Connecting)
    case ConnectOk(t) =>
      var key := s.threads[t].key;
      var fs := HdfsFs(key, s.nextRaw);
      Return(Connect(s, fs).(lock := None), t, fs)
    case ConnectFails(t) => Goto(s, t, Failed).(lock := None)
    case Remove(t) =>
      var key := s.threads[t].key;
      var s' := Goto(s, t, Removed(Lookup(s.cache, key)));
      if key in s.cache then s'.(cache := s.cache - {key}, log := s.log + [Taken(key)]) else s'
  }

  /** The states of a run: every step enabled where it is taken, in any interleaving. */
  ghost predicate Run(states: seq<State>, steps: seq<Step>) {
    && |states| == |steps| + 1
    && states[0] == INIT
    && forall i :: 0 <= i < |steps| ==> Enabled(states[i], steps[i]) && states[i + 1] == Apply(states[i], steps[i])
  }

  // ----- what the log says

  function Connects(log: seq<Event>, key: string): nat {
    if log == [] then 0
    else Connects(log[..|log| - 1], key) + if log[|log| - 1] == Connected(key) then 1 else 0
  }

  function Removals(log: seq<Event>, key: string): nat {
    if log == [] then 0
    else Removals(log[..|log| - 1], key) + if log[|log| - 1] == Taken(key) then 1 else 0
  }

  /** The handle returned last since the last removal. */
  function Since(log: seq<Event>, key: string): Option<nat> {
    if log == [] then None
    else
      var e := log[|log| - 1];
      if e == Taken(key) then None
      else if e.Returned? && e.key == key then Some(e.raw)
      else Since(log[..|log| - 1], key)
  }

  /** No removal of `key` between `i` and `j`. */
  ghost predicate Undisturbed(log: seq<Event>, key: string, i: nat, j: nat)
    requires j <= |log|
  {
    forall m :: i < m < j ==> log[m] != Taken(key)
  }

  /** Gets of one key with no removal of it in between return the same handle. */
  ghost predicate Agree(log: seq<Event>) {
    forall i, j ::
      (&& 0 <= i < j < |log| && log[i].Returned? && log[j].Returned?
       && log[i].key == log[j].key && Undisturbed(log, log[i].key, i, j))
      ==> log[i].raw == log[j].raw
  }

  // ----- the invariant

  /** A thread is inside the write section exactly when it holds the lock. */
  ghost predicate LockInv(s: State) {
    && (s.lock.Some? ==> At(s, s.lock.value, Locked) || At(s, s.lock.value, Connecting))
    && (forall t :: t in s.threads && (s.threads[t].pc == Locked || s.threads[t].pc == Connecting) ==>
          s.lock == Some(t))
    && (forall t :: t in s.threads && s.threads[t].pc == Connecting ==> s.threads[t].key !in s.cache)
  }

  /** Entries are cached under their own url, with handles already given out. */
  ghost predicate CacheInv(s: State) {
    forall key :: key in s.cache ==> s.cache[key].url == key && s.cache[key].raw < s.nextRaw
  }

  /** Connects are conserved: each is removed or still cached. */
  ghost predicate CountInv(s: State) {
    forall key :: Connects(s.log, key) == Removals(s.log, key) + if key in s.cache then 1 else 0
  }

  ghost predicate LogInv(s: State) {
    && Agree(s.log)
    && forall key :: Since(s.log, key).Some? ==> key in s.cache && s.cache[key].raw == Since(s.log, key).value
  }

  ghost predicate Inv(s: State) {
    LockInv(s) && CacheInv(s) && CountInv(s) && LogInv(s)
  }

  lemma Appended(log: seq<Event>, e: Event, key: string)
    ensures var log' := log + [e];
            && Connects(log', key) == Connects(log, key) + (if e == Connected(key) then 1 else 0)
            && Removals(log', key) == Removals(log, key) + (if e == Taken(key) then 1 else 0)
            && Since(log', key) == if e == Taken(key) then None
                                   else if e.Returned? && e.key == key then Some(e.raw) else Since(log, key)
  {
    assert (log + [e])[..|log|] == log;
  }

  /** A handle returned and not removed since is the one `Since` remembers. */
  lemma {:induction false} SinceRemembers(log: seq<Event>, key: string, i: nat)
    requires Agree(log) && i < |log| && log[i].Returned? && log[i].key == key && Undisturbed(log, key, i, |log|)
    ensures Since(log, key) == Some(log[i].raw)
    decreases |log|
  {
    var n := |log| - 1;
    var e := log[n];
    if i < n {
      assert e != Taken(key);
      if e.Returned? && e.key == key {
        assert Undisturbed(log, key, i, n);
      } else {
        AgreePrefix(log);
        assert Undisturbed(log[..n], key, i, n);
        SinceRemembers(log[..n], key, i);
      }
    }
  }

  lemma AgreePrefix(log: seq<Event>)
    requires Agree(log) && log != []
    ensures Agree(log[..|log| - 1])
  {
    var p := log[..|log| - 1];
    forall i, j | 0 <= i < j < |p| && p[i].Returned? && p[j].Returned? && p[i].key == p[j].key
      && Undisturbed(p, p[i].key, i, j)
      ensures p[i].raw == p[j].raw
    {
      assert Undisturbed(log, log[i].key, i, j) by {
        forall m | i < m < j
          ensures log[m] != Taken(log[i].key)
        {
          assert p[m] == log[m];
        }
      }
    }
  }

  /** Appending an event keeps agreement when a returned handle is the remembered one, if any. */
  lemma AgreeAppend(log: seq<Event>, e: Event)
    requires Agree(log)
    requires e.Returned? && Since(log, e.key).Some? ==> Since(log, e.key).value == e.raw
    ensures Agree(log + [e])
  {
    var log' := log + [e];
    forall i, j | 0 <= i < j < |log'| && log'[i].Returned? && log'[j].Returned? && log'[i].key == log'[j].key
                  && Undisturbed(log', log'[i].key, i, j)
      ensures log'[i].raw == log'[j].raw
    {
      assert Undisturbed(log, log[i].key, i, j) by {
        forall m | i < m < j
          ensures log[m] != Taken(log[i].key)
        {
          assert log'[m] == log[m];
        }
      }
      if j == |log| {
        SinceRemembers(log, e.key, i);
      }
    }
  }

  /** Appending a return of the cached handle. */
  lemma ReturnKeeps(s: State, s': State, key: string)
    requires CacheInv(s) && CountInv(s) && LogInv(s) && key in s.cache
    requires s'.cache == s.cache && s'.nextRaw == s.nextRaw && s'.log == s.log + [Returned(key, s.cache[key].raw)]
    ensures CacheInv(s') && CountInv(s') && LogInv(s')
  {
    var e := Returned(key, s.cache[key].raw);
    AgreeAppend(s.log, e);
    forall k: string
      ensures Connects(s'.log, k) == Connects(s.log, k) && Removals(s'.log, k) == Removals(s.log, k)
      ensures Since(s'.log, k) == if k == key then Some(e.raw) else Since(s.log, k)
    {
      Appended(s.log, e, k);
    }
  }

  /** A successful connect: one more connect, one more entry. */
  lemma ConnectKeeps(s: State, s': State, key: string)
    requires CacheInv(s) && CountInv(s) && LogInv(s) && key !in s.cache
    requires s'.cache == s.cache[key := HdfsFs(key, s.nextRaw)] && s'.nextRaw == s.nextRaw + 1
    requires s'.log == s.log + [Connected(key)]
    ensures CacheInv(s') && CountInv(s') && LogInv(s')
  {
    AgreeAppend(s.log, Connected(key));
    forall k: string
      ensures Connects(s'.log, k) == Connects(s.log, k) + (if k == key then 1 else 0)
      ensures Removals(s'.log, k) == Removals(s.log, k) && Since(s'.log, k) == Since(s.log, k)
    {
      Appended(s.log, Connected(key), k);
    }
  }

  /** A removal that takes an entry: one more removal, one entry less. */
  lemma RemoveKeeps(s: State, s': State, key: string)
    requires CacheInv(s) && CountInv(s) && LogInv(s) && key in s.cache
    requires s'.cache == s.cache - {key} && s'.nextRaw == s.nextRaw && s'.log == s.log + [Taken(key)]
    ensures CacheInv(s') && CountInv(s') && LogInv(s')
  {
    AgreeAppend(s.log, Taken(key));
    forall k: string
      ensures Removals(s'.log, k) == Removals(s.log, k) + (if k == key then 1 else 0)
      ensures Connects(s'.log, k) == Connects(s.log, k)
      ensures Since(s'.log, k) == if k == key then None else Since(s.log, k)
    {
      Appended(s.log, Taken(key), k);
    }
  }

  lemma LockKeeps(s: State, step: Step)
    requires LockInv(s) && Enabled(s, step)
    ensures LockInv(Apply(s, step))
  {
    hide Connects, Removals, Since;
  }

  /** Every step keeps the invariant. */
  lemma StepKeeps(s: State, step: Step)
    requires Inv(s) && Enabled(s, step)
    ensures Inv(Apply(s, step))
  {
    hide CacheInv, CountInv, LogInv;
    LockKeeps(s, step);
    var s' := Apply(s, step);
    match step
    case SpawnGet(t, _) => SameKeeps(s, s');
    case SpawnRemove(t, _) => SameKeeps(s, s');
    case Acquire(t) => SameKeeps(s, s');
    case ConnectFails(t) => SameKeeps(s, s');
    case FirstLookup(t) =>
      if s.threads[t].key in s.cache {
        ReturnKeeps(s, s', s.threads[t].key);
      } else {
        SameKeeps(s, s');
      }
    case SecondLookup(t) =>
      if s.threads[t].key in s.cache {
        ReturnKeeps(s, s', s.threads[t].key);
      } else {
        SameKeeps(s, s');
      }
    case ConnectOk(t) =>
      var key := s.threads[t].key;
      var mid := Connect(s, HdfsFs(key, s.nextRaw));
      ConnectKeeps(s, mid, key);
      ReturnKeeps(mid, s', key);
    case Remove(t) =>
      if s.threads[t].key in s.cache {
        RemoveKeeps(s, s', s.threads[t].key);
      } else {
        SameKeeps(s, s');
      }
  }

  lemma SameKeeps(s: State, s': State)
    requires CacheInv(s) && CountInv(s) && LogInv(s)
    requires s'.cache == s.cache && s'.nextRaw == s.nextRaw && s'.log == s.log
    ensures CacheInv(s') && CountInv(s') && LogInv(s')
  {
  }

  /** The invariant holds in every state of every run. */
  lemma {:induction false} RunKeeps(states: seq<State>, steps: seq<Step>, i: nat)
    requires Run(states, steps) && i < |states|
    ensures Inv(states[i])
    decreases i
  {
    if i > 0 {
      RunKeeps(states, steps, i - 1);
      assert states[i - 1 + 1] == Apply(states[i - 1], steps[i - 1]);
      StepKeeps(states[i - 1], steps[i - 1]);
    }
  }

  // ----- the promises

  /**
    Under every interleaving: at most one live instance a namenode (connects are removals plus
    one if the key is cached), every entry under its own url, and gets with no removal of
    their key in between return the same handle.
   */
  lemma CacheIsCoherent(states: seq<State>, steps: seq<Step>, i: nat, key: string)
    requires Run(states, steps) && i < |states|
    ensures var s := states[i];
            && Connects(s.log, key) == Removals(s.log, key) + (if key in s.cache then 1 else 0)
            && (key in s.cache ==> s.cache[key].url == key)
            && Agree(s.log)
  {
    RunKeeps(states, steps, i);
  }

  /** The thread has not returned yet. */
  predicate Unfinished(s: State, t: nat) {
    t in s.threads && !s.threads[t].pc.Got? && !s.threads[t].pc.Failed? && !s.threads[t].pc.Removed?
  }

  /**
    The locks exclude and never block for good: in every state of every run, an unfinished thread
    can take a step exactly when the write lock is free or its own.
   */
  lemma StepsExactlyWhen(states: seq<State>, steps: seq<Step>, i: nat, t: nat)
    requires Run(states, steps) && i < |states| && Unfinished(states[i], t)
    ensures (exists step: Step :: step.t == t && Enabled(states[i], step))
            <==> states[i].lock.None? || states[i].lock == Some(t)
  {
    RunKeeps(states, steps, i);
    var s := states[i];
    hide CacheInv, CountInv, LogInv;
    if s.lock.None? || s.lock == Some(t) {
      var step := match s.threads[t].pc
        case Start => FirstLookup(t)
        case Missed => Acquire(t)
        case Locked => SecondLookup(t)
        case Connecting => ConnectOk(t)
        case _ => Remove(t);
      assert step.t == t && Enabled(s, step);
    }
  }

  // ----- removed entries

  /** The entries that removals hold, by thread. */
  function Holdings(s: State): map<nat, HdfsFs> {
    map t | t in s.threads && s.threads[t].pc.Removed? && s.threads[t].pc.entry.Some? :: s.threads[t].pc.entry.value
  }

  /** The threads that removed an entry of `key`. */
  function Takers(s: State, key: string): set<nat> {
    set t | t in Holdings(s) && s.threads[t].key == key
  }

  /** No handle is in two places: cached under two keys, held by two removals, or both. */
  ghost predicate Owned(cache: Cache, held: map<nat, HdfsFs>, next: nat) {
    && (forall k, l :: k in cache && l in cache && k != l ==> cache[k].raw != cache[l].raw)
    && (forall t :: t in held ==> held[t].raw < next)
    && (forall t, k :: t in held && k in cache ==> held[t].raw != cache[k].raw)
    && forall t, u :: t in held && u in held && t != u ==> held[t].raw != held[u].raw
  }

  ghost predicate OwnInv(s: State) {
    && Owned(s.cache, Holdings(s), s.nextRaw)
    && (forall t :: t in Holdings(s) ==> Holdings(s)[t].url == s.threads[t].key)
    && forall key :: |Takers(s, key)| == Removals(s.log, key)
  }

  lemma OwnedConnect(cache: Cache, held: map<nat, HdfsFs>, next: nat, key: string)
    requires Owned(cache, held, next) && forall k :: k in cache ==> cache[k].raw < next
    ensures Owned(cache[key := HdfsFs(key, next)], held, next + 1)
  {
  }

  lemma OwnedTake(cache: Cache, held: map<nat, HdfsFs>, next: nat, key: string, t: nat)
    requires Owned(cache, held, next) && key in cache && t !in held && cache[key].raw < next
    ensures Owned(cache - {key}, held[t := cache[key]], next)
  {
  }

  /** A step takes an entry away. */
  predicate Takes(s: State, step: Step)
    requires Enabled(s, step)
  {
    step.Remove? && s.threads[step.t].key in s.cache
  }

  lemma StepHolds(s: State, step: Step)
    requires Enabled(s, step)
    ensures step.t !in Holdings(s)
    ensures Holdings(Apply(s, step))
            == if Takes(s, step) then Holdings(s)[step.t := s.cache[s.threads[step.t].key]] else Holdings(s)
    ensures forall t :: t in Holdings(s) ==>
              t in s.threads && t in Apply(s, step).threads && Apply(s, step).threads[t] == s.threads[t]
    ensures step.t in Apply(s, step).threads
    ensures Takes(s, step) ==> Apply(s, step).threads[step.t].key == s.threads[step.t].key
  {
  }

  lemma StepRemovals(s: State, step: Step, key: string)
    requires Enabled(s, step)
    ensures Removals(Apply(s, step).log, key)
            == Removals(s.log, key) + if Takes(s, step) && s.threads[step.t].key == key then 1 else 0
  {
    var s' := Apply(s, step);
    if s'.log != s.log {
      if step.ConnectOk? {
        Appended(s.log, Connected(s.threads[step.t].key), key);
        Appended(s.log + [Connected(s.threads[step.t].key)], s'.log[|s'.log| - 1], key);
      } else {
        Appended(s.log, s'.log[|s'.log| - 1], key);
      }
    }
  }

  lemma StepOwns(s: State, step: Step)
    requires CacheInv(s) && OwnInv(s) && Enabled(s, step)
    ensures OwnInv(Apply(s, step))
  {
    StepHolds(s, step);
    StepPlaces(s, step);
    hide Apply, Holdings, Owned, Removals, Takers, Enabled;
    forall key: string
      ensures |Takers(Apply(s, step), key)| == Removals(Apply(s, step).log, key)
    {
      StepTakers(s, step, key);
    }
  }

  lemma StepTakers(s: State, step: Step, key: string)
    requires Enabled(s, step) && |Takers(s, key)| == Removals(s.log, key)
    ensures |Takers(Apply(s, step), key)| == Removals(Apply(s, step).log, key)
  {
    StepHolds(s, step);
    StepRemovals(s, step, key);
    hide Apply, Holdings, Removals, Enabled, Takers;
    if Takes(s, step) {
      OneMoreTaker(s, Apply(s, step), key, step.t, s.cache[s.threads[step.t].key]);
    } else {
      SameTakers(s, Apply(s, step), key);
    }
  }

  lemma OneMoreTaker(s: State, s': State, key: string, t: nat, fs: HdfsFs)
    requires t !in Holdings(s) && t in s'.threads && Holdings(s') == Holdings(s)[t := fs]
    requires forall u :: u in Holdings(s) ==> u in s.threads && u in s'.threads && s'.threads[u] == s.threads[u]
    ensures |Takers(s', key)| == |Takers(s, key)| + if s'.threads[t].key == key then 1 else 0
  {
    hide Holdings;
    if s'.threads[t].key == key {
      assert Takers(s', key) == Takers(s, key) + {t};
    } else {
      assert Takers(s', key) == Takers(s, key);
    }
  }

  lemma SameTakers(s: State, s': State, key: string)
    requires Holdings(s') == Holdings(s)
    requires forall u :: u in Holdings(s) ==> u in s.threads && u in s'.threads && s'.threads[u] == s.threads[u]
    ensures Takers(s', key) == Takers(s, key)
  {
    hide Holdings;
  }

  lemma StepPlaces(s: State, step: Step)
    requires CacheInv(s) && Owned(s.cache, Holdings(s), s.nextRaw) && Enabled(s, step)
    ensures Owned(Apply(s, step).cache, Holdings(Apply(s, step)), Apply(s, step).nextRaw)
  {
    StepHolds(s, step);
    hide Holdings, Owned;
    if step.ConnectOk? {
      OwnedConnect(s.cache, Holdings(s), s.nextRaw, s.threads[step.t].key);
    } else if Takes(s, step) {
      OwnedTake(s.cache, Holdings(s), s.nextRaw, s.threads[step.t].key, step.t);
    }
  }

  /**
    Under every interleaving each connection is handed to at most one removal, after which it is
    cached no more; a removal holds an entry of its own key, and as many removals hold one as
    the log counts.
   */
  lemma {:induction false} RemovedOnce(states: seq<State>, steps: seq<Step>, i: nat)
    requires Run(states, steps) && i < |states|
    ensures OwnInv(states[i])
    decreases i
  {
    hide OwnInv, Inv, Apply, Enabled;
    if i == 0 {
      OwnInit();
    } else {
      RemovedOnce(states, steps, i - 1);
      RunKeeps(states, steps, i - 1);
      CacheOf(states[i - 1]);
      assert states[i - 1 + 1] == Apply(states[i - 1], steps[i - 1]);
      StepOwns(states[i - 1], steps[i - 1]);
    }
  }

  lemma OwnInit()
    ensures OwnInv(INIT)
  {
    forall key: string
      ensures Takers(INIT, key) == {}
    {
    }
  }

  lemma CacheOf(s: State)
    requires Inv(s)
    ensures CacheInv(s)
  {
  }

  /** What a get returned is what the log says it returned. */
  ghost predicate Logged(s: State) {
    forall t :: t in s.threads && s.threads[t].pc.Got? ==> Returned(s.threads[t].key, s.threads[t].pc.fs.raw) in s.log
  }

  lemma {:induction false} ReturnsAreLogged(states: seq<State>, steps: seq<Step>, i: nat)
    requires Run(states, steps) && i < |states|
    ensures Logged(states[i])
    decreases i
  {
    if i > 0 {
      ReturnsAreLogged(states, steps, i - 1);
      assert states[i - 1 + 1] == Apply(states[i - 1], steps[i - 1]);
      StepLogs(states[i - 1], steps[i - 1]);
    }
  }

  lemma StepLogs(s: State, step: Step)
    requires Logged(s) && Enabled(s, step)
    ensures Logged(Apply(s, step))
  {
    var s' := Apply(s, step);
    assert forall e :: e in s.log ==> e in s'.log;
    forall t | t in s'.threads && s'.threads[t].pc.Got?
      ensures Returned(s'.threads[t].key, s'.threads[t].pc.fs.raw) in s'.log
    {
      if t != step.t {
        assert t in s.threads && s.threads[t] == s'.threads[t];
      } else {
        assert s'.log[|s'.log| - 1] == Returned(s'.threads[t].key, s'.threads[t].pc.fs.raw);
      }
    }
  }

  // ----- linearizability

  /** A call of a thread, at its place in the order of deciding steps. */
  datatype Call = Call(thread: nat, op: Op)

  /** The call that a step decides: the lookup that hits, the connect or the removal. */
  function Decision(s: State, step: Step): Option<Op>
    requires Enabled(s, step)
  {
    match step
    case FirstLookup(t) => if s.threads[t].key in s.cache then Some(Get(s.threads[t].key, None)) else None
    case SecondLookup(t) => if s.threads[t].key in s.cache then Some(Get(s.threads[t].key, None)) else None
    case ConnectOk(t) => Some(Get(s.threads[t].key, Some(s.nextRaw)))
    case ConnectFails(t) => Some(Get(s.threads[t].key, None))
    case Remove(t) => Some(Drop(s.threads[t].key))
    case _ => None
  }

  /** The calls decided by the first `i` steps of a run, in order. */
  ghost function Calls(states: seq<State>, steps: seq<Step>, i: nat): seq<Call>
    requires Run(states, steps) && i <= |steps|
  {
    if i == 0 then [] else Decided(Calls(states, steps, i - 1), states[i - 1], steps[i - 1])
  }

  function Decided(calls: seq<Call>, s: State, step: Step): seq<Call>
    requires Enabled(s, step)
  {
    match Decision(s, step)
    case None => calls
    case Some(op) => calls + [Call(step.t, op)]
  }

  function Ops(calls: seq<Call>): (ops: seq<Op>)
    ensures |ops| == |calls|
  {
    seq(|calls|, j requires 0 <= j < |calls| => calls[j].op)
  }

  /** What a thread that is done returned. */
  function Answer(thread: Thread): Option<Option<HdfsFs>> {
    match thread.pc
    case Got(fs) => Some(Some(fs))
    case Failed => Some(None)
    case Removed(entry) => Some(entry)
    case _ => None
  }

  /** Call `j` is the one its thread made, and returned what the sequential call returns. */
  ghost predicate Explains(s: State, calls: seq<Call>, j: nat)
    requires j < |calls|
  {
    var t, op := calls[j].thread, calls[j].op;
    && t in s.threads && s.threads[t].key == op.key
    && (op.Drop? <==> s.threads[t].pc.Removed?)
    && Answer(s.threads[t]) == Some(ExecAll(Ops(calls)).1[j])
  }

  /**
    The calls, executed one after another, leave this cache and return what the threads returned;
    they are the calls of exactly the threads that are done, one for each.
   */
  ghost predicate Linear(s: State, calls: seq<Call>) {
    && ExecAll(Ops(calls)).0 == s.cache
    && (forall j :: 0 <= j < |calls| ==> Explains(s, calls, j))
    && (forall i, j :: 0 <= i < j < |calls| ==> calls[i].thread != calls[j].thread)
    && (forall t :: t in s.threads && Answer(s.threads[t]).Some? ==>
          exists j :: 0 <= j < |calls| && calls[j].thread == t)
  }

  lemma ExecNext(calls: seq<Call>, c: Call)
    ensures var (cache, results) := ExecAll(Ops(calls));
            var (cache', result) := Exec(cache, c.op);
            ExecAll(Ops(calls + [c])) == (cache', results + [result])
  {
    var ops := Ops(calls + [c]);
    assert ops[..|calls|] == Ops(calls) && ops[|calls|] == c.op;
  }

  /** A step that decides nothing changes neither the cache nor what any thread returned. */
  lemma QuietStep(s: State, step: Step, calls: seq<Call>)
    requires LockInv(s) && Enabled(s, step) && Linear(s, calls) && Decision(s, step).None?
    ensures Linear(Apply(s, step), calls)
  {
    hide ExecAll, Connects, Removals, Since;
    var s' := Apply(s, step);
    forall j | 0 <= j < |calls|
      ensures Explains(s', calls, j)
    {
      assert Explains(s, calls, j);
      assert calls[j].thread != step.t;
    }
  }

  /** A deciding step is the sequential call, at the end of the calls so far. */
  lemma DecidingStep(s: State, step: Step, calls: seq<Call>)
    requires LockInv(s) && Enabled(s, step) && Linear(s, calls) && Decision(s, step).Some?
    ensures Linear(Apply(s, step), Decided(calls, s, step))
  {
    hide ExecAll, Connects, Removals, Since;
    var s', c := Apply(s, step), Call(step.t, Decision(s, step).value);
    var calls' := calls + [c];
    ExecNext(calls, c);
    forall j | 0 <= j < |calls|
      ensures calls[j].thread != step.t && Explains(s', calls', j)
    {
      assert Explains(s, calls, j);
      assert calls'[j] == calls[j];
    }
    assert Explains(s', calls', |calls|);
    forall t | t in s'.threads && Answer(s'.threads[t]).Some?
      ensures exists j :: 0 <= j < |calls'| && calls'[j].thread == t
    {
      if t == step.t {
        assert calls'[|calls|].thread == t;
      } else {
        assert t in s.threads && s.threads[t] == s'.threads[t];
        var j :| 0 <= j < |calls| && calls[j].thread == t;
        assert calls'[j].thread == t;
      }
    }
  }

  /**
    Every run is linearizable: at each of its states the cache and all results are those of the
    decided calls, executed one after another in the order of their deciding steps.
   */
  lemma {:induction false} RunsAreLinearizable(states: seq<State>, steps: seq<Step>, i: nat)
    requires Run(states, steps) && i <= |steps|
    ensures Linear(states[i], Calls(states, steps, i))
    decreases i
  {
    if i > 0 {
      hide Linear, LockInv, ExecAll;
      RunsAreLinearizable(states, steps, i - 1);
      RunKeeps(states, steps, i - 1);
      assert states[i - 1 + 1] == Apply(states[i - 1], steps[i - 1]);
      if Decision(states[i - 1], steps[i - 1]).None? {
        QuietStep(states[i - 1], steps[i - 1], Calls(states, steps, i - 1));
      } else {
        DecidingStep(states[i - 1], steps[i - 1], Calls(states, steps, i - 1));
      }
    } else {
      LinearStart();
    }
  }

  lemma LinearStart()
    ensures Linear(INIT, [])
  {
  }

  lemma {:induction false} CallsGrow(states: seq<State>, steps: seq<Step>, i: nat, j: nat)
    requires Run(states, steps) && i <= j <= |steps|
    ensures Calls(states, steps, i) <= Calls(states, steps, j)
    decreases j
  {
    if i < j {
      CallsGrow(states, steps, i, j - 1);
    }
  }

  lemma OnlyThreads(s: State, calls: seq<Call>)
    requires Linear(s, calls)
    ensures forall j :: 0 <= j < |calls| ==> calls[j].thread in s.threads
  {
    hide ExecAll;
    forall j | 0 <= j < |calls|
      ensures calls[j].thread in s.threads
    {
      assert Explains(s, calls, j);
    }
  }

  /** The order respects real time: a thread done before another starts has the earlier call. */
  lemma OrderRespectsRealTime(states: seq<State>, steps: seq<Step>, i: nat, j: nat, a: nat, b: nat)
    requires Run(states, steps) && i <= j <= |steps| && a < |Calls(states, steps, j)| && b < |Calls(states, steps, j)|
    requires var t, u := Calls(states, steps, j)[a].thread, Calls(states, steps, j)[b].thread;
             t in states[i].threads && Answer(states[i].threads[t]).Some? && u !in states[i].threads
    ensures a < b
  {
    hide ExecAll;
    var before, after := Calls(states, steps, i), Calls(states, steps, j);
    CallsGrow(states, steps, i, j);
    RunsAreLinearizable(states, steps, i);
    RunsAreLinearizable(states, steps, j);
    var k :| 0 <= k < |before| && before[k].thread == after[a].thread;
    assert after[k] == before[k];
    assert k == a;
    OnlyThreads(states[i], before);
    assert forall m :: 0 <= m < |before| ==> after[m].thread in states[i].threads;
  }
}
