/** The exclusive job lock of redis-cache.ts as a protocol: callers in several processes, a
    lock map in each process, one Redis server, and time. Every step runs from one await to
    the next; SET with NX and EX, and DEL, take effect at the server in steps of their own. */
module JobLock {
  import opened JsText

  type Client = nat
  type Process = nat
  type Key = string

  /** Where a caller is. `local` is the expiry written to the process's lock map, `server` the
      expiry of the Redis key it was granted, if Redis granted it. Times are milliseconds. */
  datatype Pc =
    | Idle
    | Setting(key: Key, ttl: nat, started: nat)
    | Answered(key: Key, ttl: nat, started: nat, server: Option<nat>)
    | Holding(key: Key, local: nat, server: Option<nat>)
    | Deleting(key: Key, server: Option<nat>)

  datatype State = State(
    now: nat,
    redis: map<Key, nat>,
    memory: map<(Process, Key), nat>,
    pc: map<Client, Pc>)

  datatype Event =
    | Tick(to: nat)
    | AcquireBusy(c: Client, key: Key)                  // the process's own map says it is locked
    | AcquireSend(c: Client, key: Key, ttl: nat)        // SET key 1 EX ttl NX is sent
    | AcquireNoClient(c: Client, key: Key, ttl: nat)    // there is no Redis client: memory only
    | SetExecutes(c: Client)
    | SetReply(c: Client)
    | SetFails(c: Client)                               // the call throws, before or after its effect
    | ReleaseSend(c: Client, key: Key)
    | ReleaseNoClient(c: Client, key: Key)
    | DelExecutes(c: Client)
    | DelFails(c: Client)

  predicate LockedInMemory(home: Client -> Process, s: State, c: Client, key: Key) {
    (home(c), key) in s.memory && s.memory[(home(c), key)] > s.now
  }

  /** A Redis key counts as absent from its expiry on. */
  predicate LockedInRedis(s: State, key: Key) {
    key in s.redis && s.redis[key] > s.now
  }

  predicate Enabled(home: Client -> Process, s: State, e: Event) {
    match e
    case Tick(to) => s.now <= to
    case AcquireBusy(c, key) => c in s.pc && s.pc[c].Idle? && LockedInMemory(home, s, c, key)
    case AcquireSend(c, key, _) => c in s.pc && s.pc[c].Idle? && !LockedInMemory(home, s, c, key)
    case AcquireNoClient(c, key, _) => c in s.pc && s.pc[c].Idle? && !LockedInMemory(home, s, c, key)
    case SetExecutes(c) => c in s.pc && s.pc[c].Setting?
    case SetReply(c) => c in s.pc && s.pc[c].Answered?
    case SetFails(c) => c in s.pc && (s.pc[c].Setting? || s.pc[c].Answered?)
    case ReleaseSend(c, key) => c in s.pc && (s.pc[c].Idle? || (s.pc[c].Holding? && s.pc[c].key == key))
    case ReleaseNoClient(c, key) => c in s.pc && (s.pc[c].Idle? || (s.pc[c].Holding? && s.pc[c].key == key))
    case DelExecutes(c) => c in s.pc && s.pc[c].Deleting?
    case DelFails(c) => c in s.pc && s.pc[c].Deleting?
  }

  function Move(s: State, c: Client, pc: Pc): State {
    s.(pc := s.pc[c := pc])
  }

  /** memoryLocks.set and the return of true. */
  function Take(home: Client -> Process, s: State, c: Client, key: Key, local: nat, server: Option<nat>): State {
    Move(s, c, Holding(key, local, server)).(memory := s.memory[(home(c), key) := local])
  }

  function Forget(home: Client -> Process, s: State, c: Client, key: Key): State {
    s.(memory := s.memory - {(home(c), key)})
  }

  function Apply(home: Client -> Process, s: State, e: Event): State
    requires Enabled(home, s, e)
  {
    match e
    case Tick(to) => s.(now := to)
    case AcquireBusy(c, key) => s
    case AcquireSend(c, key, ttl) => Move(s, c, Setting(key, ttl, s.now))
    case AcquireNoClient(c, key, ttl) => Take(home, s, c, key, s.now + ttl, None)
    case SetExecutes(c) =>
      var p := s.pc[c];
      if LockedInRedis(s, p.key) then Move(s, c, Answered(p.key, p.ttl, p.started, None))
      else Move(s, c, Answered(p.key, p.ttl, p.started, Some(s.now + p.ttl)))
             .(redis := s.redis[p.key := s.now + p.ttl])
    case SetReply(c) =>
      var p := s.pc[c];
      if p.server.None? then Move(s, c, Idle)
      else Take(home, s, c, p.key, p.started + p.ttl, p.server)
    case SetFails(c) =>
      var p := s.pc[c];
      Take(home, s, c, p.key, p.started + p.ttl, if p.Answered? then p.server else None)
    case ReleaseSend(c, key) =>
      Forget(home, Move(s, c, Deleting(key, if s.pc[c].Holding? then s.pc[c].server else None)), c, key)
    case ReleaseNoClient(c, key) => Forget(home, Move(s, c, Idle), c, key)
    case DelExecutes(c) => Move(s, c, Idle).(redis := s.redis - {s.pc[c].key})
    case DelFails(c) => Move(s, c, Idle)
  }

  predicate Init(s: State) {
    s.redis == map[] && s.memory == map[] && forall c | c in s.pc :: s.pc[c].Idle?
  }

  /** Any interleaving of the steps, from the start. */
  predicate Behaviour(home: Client -> Process, states: seq<State>, events: seq<Event>) {
    && |states| == |events| + 1
    && Init(states[0])
    && forall i | 0 <= i < |events| ::
         Enabled(home, states[i], events[i]) && states[i + 1] == Apply(home, states[i], events[i])
  }

  // ----- one attempt alone -----

  /** An attempt of which no other step comes in between: refused by the process's map, or sent, executed and
      answered. */
  function Attempted(home: Client -> Process, s: State, c: Client, key: Key, ttl: nat): State
    requires c in s.pc && s.pc[c].Idle?
  {
    if LockedInMemory(home, s, c, key) then Apply(home, s, AcquireBusy(c, key))
    else Apply(home, Apply(home, Apply(home, s, AcquireSend(c, key, ttl)), SetExecutes(c)), SetReply(c))
  }

  /** Some time after now the entry still stands. */
  predicate Stands<K>(entries: map<K, nat>, k: K, now: nat) {
    k in entries && now < entries[k]
  }

  /** It gets the lock exactly when neither the process's map nor Redis has an entry for the key that still
      stands; then both have one for its time, and otherwise nothing changes. */
  lemma AttemptGets(home: Client -> Process, s: State, c: Client, key: Key, ttl: nat)
    requires c in s.pc && s.pc[c].Idle?
    ensures
      var after, until := Attempted(home, s, c, key, ttl), s.now + ttl;
      && (after.pc[c].Holding? <==> !Stands(s.memory, (home(c), key), s.now) && !Stands(s.redis, key, s.now))
      && (after.pc[c].Holding? ==>
            after == State(s.now, s.redis[key := until], s.memory[(home(c), key) := until],
                           s.pc[c := Holding(key, until, Some(until))]))
      && (!after.pc[c].Holding? ==> after == s)
  {
    assert s.pc[c := Idle] == s.pc;
  }

  /** Once a release has gone through, an attempt in any process gets the lock, unless that process's own map
      still has an entry. */
  lemma ReleaseFrees(home: Client -> Process, s: State, c: Client, d: Client, key: Key, ttl: nat)
    requires c in s.pc && s.pc[c].Holding? && s.pc[c].key == key && d in s.pc && s.pc[d].Idle?
    ensures
      var freed := Apply(home, Apply(home, s, ReleaseSend(c, key)), DelExecutes(c));
      Attempted(home, freed, d, key, ttl).pc[d].Holding?
      <==> home(d) == home(c) || !Stands(s.memory, (home(d), key), s.now)
  {
    var freed := Apply(home, Apply(home, s, ReleaseSend(c, key)), DelExecutes(c));
    AttemptGets(home, freed, d, key, ttl);
  }

  // ----- premises -----

  /** There is a Redis client and Redis answers the command. */
  predicate RedisAnswers(e: Event) {
    !e.AcquireNoClient? && !e.ReleaseNoClient? && !e.SetFails? && !e.DelFails?
  }

  predicate OnlyHoldersRelease(s: State, e: Event) {
    && (e.ReleaseSend? ==> e.c in s.pc && s.pc[e.c].Holding?)
    && (e.ReleaseNoClient? ==> e.c in s.pc && s.pc[e.c].Holding?)
  }

  /** Between the grant and the end of its DEL, a caller has the Redis lock ... */
  predicate Owns(s: State, c: Client) {
    c in s.pc && !s.pc[c].Idle? && !s.pc[c].Setting? && s.pc[c].server.Some?
  }

  /** ... and this phase ends within the TTL. */
  ghost predicate ReleasedInTime(s: State) {
    forall c | Owns(s, c) :: s.now < s.pc[c].server.value
  }

  // ----- exclusion through Redis -----

  ghost predicate RedisInvariant(s: State) {
    && (forall c | c in s.pc && s.pc[c].Holding? :: Owns(s, c))
    && (forall c | Owns(s, c) :: s.pc[c].key in s.redis && s.redis[s.pc[c].key] == s.pc[c].server.value)
    && (forall c | c in s.pc && s.pc[c].Deleting? :: Owns(s, c))
    && (forall c, d | Owns(s, c) && Owns(s, d) && s.pc[c].key == s.pc[d].key :: c == d)
  }

  /** One caller moves, and at most its own key changes at the server. */
  lemma OneMoves(s: State, s': State, c: Client)
    requires RedisInvariant(s)
    requires forall d | d != c :: (d in s'.pc <==> d in s.pc) && (d in s.pc ==> s'.pc[d] == s.pc[d])
    requires forall d | d != c && Owns(s, d) ::
               s.pc[d].key in s'.redis && s'.redis[s.pc[d].key] == s.redis[s.pc[d].key]
    requires c in s'.pc && (s'.pc[c].Holding? || s'.pc[c].Deleting? ==> Owns(s', c))
    requires Owns(s', c) ==> s'.pc[c].key in s'.redis && s'.redis[s'.pc[c].key] == s'.pc[c].server.value
    requires Owns(s', c) ==> forall d | d != c && Owns(s, d) :: s.pc[d].key != s'.pc[c].key
    ensures RedisInvariant(s')
  {
    assert forall d | d != c :: Owns(s', d) <==> Owns(s, d);
  }

  /** A grant finds no other owner, whose key would not have expired. */
  lemma GrantStep(home: Client -> Process, s: State, c: Client)
    requires RedisInvariant(s) && ReleasedInTime(s) && Enabled(home, s, SetExecutes(c))
    ensures RedisInvariant(Apply(home, s, SetExecutes(c)))
  {
    var s' := Apply(home, s, SetExecutes(c));
    hide RedisInvariant;
    assert forall d | Owns(s, d) :: LockedInRedis(s, s.pc[d].key) by { OwnersAreLocked(s); }
    OneMoves(s, s', c);
  }

  lemma OwnersAreLocked(s: State)
    requires RedisInvariant(s) && ReleasedInTime(s)
    ensures forall d | Owns(s, d) :: LockedInRedis(s, s.pc[d].key)
  {
  }

  lemma RedisStep(home: Client -> Process, s: State, e: Event)
    requires RedisInvariant(s) && ReleasedInTime(s)
    requires Enabled(home, s, e) && RedisAnswers(e) && OnlyHoldersRelease(s, e)
    ensures RedisInvariant(Apply(home, s, e))
  {
    var s' := Apply(home, s, e);
    if e.Tick? {
      assert forall d :: Owns(s', d) <==> Owns(s, d);
    } else if e.SetExecutes? {
      GrantStep(home, s, e.c);
    } else {
      if e.DelExecutes? { assert Owns(s, e.c); }
      OneMoves(s, s', e.c);
    }
  }

  ghost predicate Premises(states: seq<State>, events: seq<Event>) {
    && |states| == |events| + 1
    && (forall i | 0 <= i < |events| :: RedisAnswers(events[i]) && OnlyHoldersRelease(states[i], events[i]))
    && (forall i | 0 <= i < |states| :: ReleasedInTime(states[i]))
  }

  lemma {:induction false} RedisInvariantHolds(home: Client -> Process, states: seq<State>, events: seq<Event>, i: nat)
    requires Behaviour(home, states, events) && Premises(states, events) && i < |states|
    ensures RedisInvariant(states[i])
  {
    hide RedisInvariant, Enabled, Apply, RedisAnswers, OnlyHoldersRelease, ReleasedInTime;
    if i == 0 {
      InitIsFine(states[0]);
    } else {
      RedisInvariantHolds(home, states, events, i - 1);
      RedisStep(home, states[i - 1], events[i - 1]);
    }
  }

  lemma InitIsFine(s: State)
    requires Init(s)
    ensures RedisInvariant(s)
  {
  }

  /** At most one holder per key, at every moment of every interleaving of any number of
      processes, provided that Redis answers every command, only holders release, and every
      release is complete before the holder's TTL. */
  lemma MutualExclusion(home: Client -> Process, states: seq<State>, events: seq<Event>, i: nat, c: Client, d: Client)
    requires Behaviour(home, states, events) && Premises(states, events) && i < |states|
    requires c in states[i].pc && d in states[i].pc && states[i].pc[c].Holding? && states[i].pc[d].Holding?
    ensures states[i].pc[c].key == states[i].pc[d].key ==> c == d
  {
    hide Behaviour, Premises;
    RedisInvariantHolds(home, states, events, i);
  }

  // ----- exactly which deletes break the exclusion -----

  /** The caller has the Redis lock and its TTL has not run out. */
  predicate OwnsNow(s: State, c: Client) {
    Owns(s, c) && s.now < s.pc[c].server.value
  }

  /** A DEL takes the entry of another caller that owns the key in time. */
  predicate TakesForeign(s: State, e: Event) {
    && e.DelExecutes? && e.c in s.pc && s.pc[e.c].Deleting?
    && exists d | d in s.pc :: d != e.c && OwnsNow(s, d) && s.pc[d].key == s.pc[e.c].key
  }

  /** A caller owns its key in time, but Redis would grant it again. */
  predicate Unguarded(s: State) {
    exists c | c in s.pc :: OwnsNow(s, c) && !LockedInRedis(s, s.pc[c].key)
  }

  /** Every owner in time is the one its Redis entry stands for. */
  ghost predicate Guarded(s: State) {
    && (forall c | OwnsNow(s, c) :: s.pc[c].key in s.redis && s.redis[s.pc[c].key] == s.pc[c].server.value)
    && (forall c, d | OwnsNow(s, c) && OwnsNow(s, d) && s.pc[c].key == s.pc[d].key :: c == d)
  }

  /** One caller moves, and at most its own key changes at the server. */
  lemma OneMovesGuarded(s: State, s': State, c: Client)
    requires Guarded(s) && s'.now == s.now
    requires forall d | d != c :: (d in s'.pc <==> d in s.pc) && (d in s.pc ==> s'.pc[d] == s.pc[d])
    requires forall d | d != c && OwnsNow(s, d) ::
               s.pc[d].key in s'.redis && s'.redis[s.pc[d].key] == s.redis[s.pc[d].key]
    requires OwnsNow(s', c) ==> s'.pc[c].key in s'.redis && s'.redis[s'.pc[c].key] == s'.pc[c].server.value
    requires OwnsNow(s', c) ==> forall d | d != c && OwnsNow(s, d) :: s.pc[d].key != s'.pc[c].key
    ensures Guarded(s')
  {
    assert forall d | d != c :: OwnsNow(s', d) <==> OwnsNow(s, d);
  }

  lemma GuardedStep(home: Client -> Process, s: State, e: Event)
    requires Guarded(s) && Enabled(home, s, e)
    requires RedisAnswers(e) && OnlyHoldersRelease(s, e) && !TakesForeign(s, e)
    ensures Guarded(Apply(home, s, e))
  {
    var s' := Apply(home, s, e);
    if e.Tick? {
      assert forall d :: OwnsNow(s', d) ==> OwnsNow(s, d);
    } else if e.SetExecutes? {
      hide Guarded;
      assert forall d | OwnsNow(s, d) :: LockedInRedis(s, s.pc[d].key) by { OwnersNowAreLocked(s); }
      OneMovesGuarded(s, s', e.c);
    } else {
      assert OwnsNow(s', e.c) ==> OwnsNow(s, e.c);
      OneMovesGuarded(s, s', e.c);
    }
  }

  lemma OwnersNowAreLocked(s: State)
    requires Guarded(s)
    ensures forall d | OwnsNow(s, d) :: LockedInRedis(s, s.pc[d].key)
  {
  }

  /** Redis answers every command and only holders release. */
  ghost predicate Orderly(states: seq<State>, events: seq<Event>) {
    && |states| == |events| + 1
    && forall i | 0 <= i < |events| :: RedisAnswers(events[i]) && OnlyHoldersRelease(states[i], events[i])
  }

  ghost predicate TakesNoForeign(states: seq<State>, events: seq<Event>) {
    && |states| == |events| + 1
    && forall i | 0 <= i < |events| :: !TakesForeign(states[i], events[i])
  }

  lemma {:induction false} GuardedHolds(home: Client -> Process, states: seq<State>, events: seq<Event>, i: nat)
    requires Behaviour(home, states, events) && Orderly(states, events) && TakesNoForeign(states, events)
    requires i < |states|
    ensures Guarded(states[i])
  {
    hide Guarded, Enabled, Apply, RedisAnswers, OnlyHoldersRelease, TakesForeign;
    if i == 0 {
      InitIsGuarded(states[0]);
    } else {
      GuardedHolds(home, states, events, i - 1);
      GuardedStep(home, states[i - 1], events[i - 1]);
    }
  }

  lemma InitIsGuarded(s: State)
    requires Init(s)
    ensures Guarded(s)
  {
  }

  /** At most one caller owns a key in time, as long as no DEL takes the entry of another owner in time.
      How late other callers are, and what they delete otherwise, does not matter. */
  lemma ExclusionInTime(home: Client -> Process, states: seq<State>, events: seq<Event>, i: nat, c: Client, d: Client)
    requires Behaviour(home, states, events) && Orderly(states, events) && TakesNoForeign(states, events)
    requires i < |states| && OwnsNow(states[i], c) && OwnsNow(states[i], d)
    ensures states[i].pc[c].key == states[i].pc[d].key ==> c == d
  {
    hide Behaviour, Orderly, TakesNoForeign, OwnsNow;
    GuardedHolds(home, states, events, i);
  }

  /** The condition is exact: in every run in which Redis answers and only holders release, no DEL takes a
      foreign entry if and only if Redis never would grant a key that someone owns in time. */
  lemma DeletesAreExact(home: Client -> Process, states: seq<State>, events: seq<Event>)
    requires Behaviour(home, states, events) && Orderly(states, events)
    ensures (forall k | 0 <= k < |events| :: !TakesForeign(states[k], events[k]))
       <==> (forall i | 0 <= i < |states| :: !Unguarded(states[i]))
  {
    hide TakesForeign, Unguarded, Enabled, Apply, RedisAnswers, OnlyHoldersRelease, Init;
    if forall k | 0 <= k < |events| :: !TakesForeign(states[k], events[k]) {
      forall i | 0 <= i < |states| ensures !Unguarded(states[i]) {
        GuardedHolds(home, states, events, i);
        GuardedIsNotUnguarded(states[i]);
      }
    } else {
      var k :| 0 <= k < |events| && TakesForeign(states[k], events[k]);
      ForeignLeavesUnguarded(home, states[k], events[k]);
      assert Unguarded(states[k + 1]);
    }
  }

  lemma GuardedIsNotUnguarded(s: State)
    requires Guarded(s)
    ensures !Unguarded(s)
  {
  }

  lemma ForeignLeavesUnguarded(home: Client -> Process, s: State, e: Event)
    requires Enabled(home, s, e) && TakesForeign(s, e)
    ensures Unguarded(Apply(home, s, e))
  {
    var d :| d in s.pc && d != e.c && OwnsNow(s, d) && s.pc[d].key == s.pc[e.c].key;
    assert OwnsNow(Apply(home, s, e), d);
  }

  /** And from there one step breaks the exclusion: the SET of any caller that waits for the key is
      granted while the other still owns it in time. */
  lemma UnguardedBreaks(home: Client -> Process, s: State, c: Client, d: Client)
    requires OwnsNow(s, c) && !LockedInRedis(s, s.pc[c].key)
    requires d in s.pc && s.pc[d].Setting? && s.pc[d].key == s.pc[c].key && s.pc[d].ttl > 0
    ensures Enabled(home, s, SetExecutes(d)) && c != d
    ensures
      var s' := Apply(home, s, SetExecutes(d));
      OwnsNow(s', c) && OwnsNow(s', d) && s'.pc[c].key == s'.pc[d].key
  {
  }

  /** Releases that all complete in time take no foreign entry; so exclusion in time asks for less. */
  lemma TimelyTakesNoForeign(home: Client -> Process, states: seq<State>, events: seq<Event>)
    requires Behaviour(home, states, events) && Premises(states, events)
    ensures Orderly(states, events) && TakesNoForeign(states, events)
  {
    forall i | 0 <= i < |events| ensures !TakesForeign(states[i], events[i]) {
      RedisInvariantHolds(home, states, events, i);
    }
  }

  // ----- exclusion through the memory of one process -----

  /** The caller is trying for the key or has it. */
  predicate Engaged(s: State, c: Client, key: Key) {
    c in s.pc && (s.pc[c].Setting? || s.pc[c].Answered? || s.pc[c].Holding?) && s.pc[c].key == key
  }

  /** No attempt starts while another one on the same key awaits Redis. */
  predicate NoOverlap(s: State, e: Event) {
    e.AcquireSend? || e.AcquireNoClient? ==>
      forall d | d in s.pc && (s.pc[d].Setting? || s.pc[d].Answered?) :: s.pc[d].key != e.key
  }

  /** A holder gives the lock back before the expiry noted in its process. */
  predicate HeldInTime(s: State) {
    forall c | c in s.pc && s.pc[c].Holding? :: s.now < s.pc[c].local
  }

  ghost predicate MemoryInvariant(home: Client -> Process, s: State) {
    && (forall c | c in s.pc && s.pc[c].Holding? ::
          (home(c), s.pc[c].key) in s.memory && s.memory[(home(c), s.pc[c].key)] == s.pc[c].local)
    && (forall c, d, key | Engaged(s, c, key) && Engaged(s, d, key) :: c == d)
  }

  /** One caller moves, and the lock map changes at most at its own key. */
  lemma OneMovesInMemory(home: Client -> Process, s: State, s': State, c: Client)
    requires MemoryInvariant(home, s)
    requires forall d | d != c :: (d in s'.pc <==> d in s.pc) && (d in s.pc ==> s'.pc[d] == s.pc[d])
    requires forall d | d != c && d in s.pc && s.pc[d].Holding? ::
               (home(d), s.pc[d].key) in s'.memory && s'.memory[(home(d), s.pc[d].key)] == s.pc[d].local
    requires c in s'.pc && s'.pc[c].Holding? ==>
               (home(c), s'.pc[c].key) in s'.memory && s'.memory[(home(c), s'.pc[c].key)] == s'.pc[c].local
    requires forall d, key | d != c && Engaged(s', c, key) :: !Engaged(s, d, key)
    ensures MemoryInvariant(home, s')
  {
    assert forall d, key | d != c :: Engaged(s', d, key) <==> Engaged(s, d, key);
  }

  lemma MemoryStep(home: Client -> Process, s: State, e: Event)
    requires forall c, d :: home(c) == home(d)
    requires MemoryInvariant(home, s) && HeldInTime(s)
    requires Enabled(home, s, e) && OnlyHoldersRelease(s, e) && NoOverlap(s, e)
    ensures MemoryInvariant(home, Apply(home, s, e))
  {
    var s' := Apply(home, s, e);
    if e.Tick? {
      assert forall d, key :: Engaged(s', d, key) <==> Engaged(s, d, key);
    } else if !e.AcquireBusy? {
      assert forall d | d in s.pc && s.pc[d].Holding? :: Engaged(s, d, s.pc[d].key);
      if e.AcquireSend? || e.AcquireNoClient? {
        assert forall d | d != e.c :: !Engaged(s, d, e.key);
      } else {
        var p := s.pc[e.c];
        assert p.Setting? || p.Answered? || p.Holding? ==> Engaged(s, e.c, p.key);
        assert forall key :: Engaged(s', e.c, key) ==> Engaged(s, e.c, key);
      }
      OneMovesInMemory(home, s, s', e.c);
    }
  }

  ghost predicate LocalPremises(states: seq<State>, events: seq<Event>) {
    && |states| == |events| + 1
    && (forall i | 0 <= i < |events| :: OnlyHoldersRelease(states[i], events[i]) && NoOverlap(states[i], events[i]))
    && (forall i | 0 <= i < |states| :: HeldInTime(states[i]))
  }

  lemma {:induction false} MemoryInvariantHolds(home: Client -> Process, states: seq<State>, events: seq<Event>, i: nat)
    requires forall c, d :: home(c) == home(d)
    requires Behaviour(home, states, events) && LocalPremises(states, events) && i < |states|
    ensures MemoryInvariant(home, states[i])
  {
    hide MemoryInvariant, Enabled, Apply, NoOverlap, OnlyHoldersRelease, HeldInTime;
    if i == 0 {
      InitIsFineInMemory(home, states[0]);
    } else {
      MemoryInvariantHolds(home, states, events, i - 1);
      MemoryStep(home, states[i - 1], events[i - 1]);
    }
  }

  lemma InitIsFineInMemory(home: Client -> Process, s: State)
    requires Init(s)
    ensures MemoryInvariant(home, s)
  {
  }

  /** In one process the lock map alone excludes, whatever Redis does: answer, fail or be
      absent. What it needs is that attempts on a key do not overlap. */
  lemma ExclusionInOneProcess(home: Client -> Process, states: seq<State>, events: seq<Event>, i: nat, c: Client,
        d: Client)
    requires forall c, d :: home(c) == home(d)
    requires Behaviour(home, states, events) && LocalPremises(states, events) && i < |states|
    requires c in states[i].pc && d in states[i].pc && states[i].pc[c].Holding? && states[i].pc[d].Holding?
    ensures states[i].pc[c].key == states[i].pc[d].key ==> c == d
  {
    hide Behaviour, LocalPremises;
    MemoryInvariantHolds(home, states, events, i);
    assert Engaged(states[i], c, states[i].pc[c].key) && Engaged(states[i], d, states[i].pc[d].key);
  }

  /** There is no Redis client: every acquire and release is one step. */
  predicate WithoutClient(e: Event) {
    e.Tick? || e.AcquireBusy? || e.AcquireNoClient? || e.ReleaseNoClient?
  }

  predicate NobodyWaits(s: State) {
    forall c | c in s.pc :: !s.pc[c].Setting? && !s.pc[c].Answered?
  }

  lemma {:induction false} NobodyEverWaits(home: Client -> Process, states: seq<State>, events: seq<Event>, i: nat)
    requires Behaviour(home, states, events) && i < |states|
    requires forall k | 0 <= k < |events| :: WithoutClient(events[k])
    ensures NobodyWaits(states[i])
  {
    if i > 0 {
      NobodyEverWaits(home, states, events, i - 1);
      assert WithoutClient(events[i - 1]);
    }
  }

  /** In one process without a Redis client attempts never overlap, so the memory path gives
      the same exclusion within the TTL. */
  lemma ExclusionWithoutRedis(home: Client -> Process, states: seq<State>, events: seq<Event>, i: nat, c: Client,
        d: Client)
    requires forall c, d :: home(c) == home(d)
    requires Behaviour(home, states, events) && i < |states|
    requires forall k | 0 <= k < |events| :: WithoutClient(events[k]) && OnlyHoldersRelease(states[k], events[k])
    requires forall k | 0 <= k < |states| :: HeldInTime(states[k])
    requires c in states[i].pc && d in states[i].pc && states[i].pc[c].Holding? && states[i].pc[d].Holding?
    ensures states[i].pc[c].key == states[i].pc[d].key ==> c == d
  {
    hide HeldInTime, OnlyHoldersRelease;
    forall k | 0 <= k < |events| ensures NoOverlap(states[k], events[k]) {
      NobodyEverWaits(home, states, events, k);
    }
    ExclusionInOneProcess(home, states, events, i, c, d);
  }

  // ----- what the premises exclude -----

  function Start(): State {
    State(0, map[], map[], map[0 := Idle, 1 := Idle])
  }

  predicate BothHold(s: State, key: Key) {
    forall c | c in {0, 1} :: c in s.pc && s.pc[c].Holding? && s.pc[c].key == key
  }

  /** A run that ends in state `s`. */
  ghost predicate RunTo(home: Client -> Process, states: seq<State>, events: seq<Event>, s: State) {
    Behaviour(home, states, events) && states[|events|] == s
  }

  /** In the run Redis always answers and only holders release. */
  ghost predicate AnsweredTo(home: Client -> Process, states: seq<State>, events: seq<Event>, s: State) {
    && RunTo(home, states, events, s)
    && forall i | 0 <= i < |events| :: RedisAnswers(events[i]) && OnlyHoldersRelease(states[i], events[i])
  }

  /** In the run only holders release, within the expiry noted in their process. */
  ghost predicate HeldTo(home: Client -> Process, states: seq<State>, events: seq<Event>, s: State) {
    && RunTo(home, states, events, s)
    && (forall i | 0 <= i < |events| :: OnlyHoldersRelease(states[i], events[i]))
    && (forall i | 0 <= i < |states| :: HeldInTime(states[i]))
  }

  lemma AnsweredStep(home: Client -> Process, states: seq<State>, events: seq<Event>, s: State, e: Event)
      returns (states': seq<State>, events': seq<Event>, s': State)
    requires AnsweredTo(home, states, events, s) && Enabled(home, s, e)
    requires RedisAnswers(e) && OnlyHoldersRelease(s, e)
    ensures s' == Apply(home, s, e) && AnsweredTo(home, states', events', s')
  {
    hide Enabled, Apply, RedisAnswers, OnlyHoldersRelease;
    s' := Apply(home, s, e);
    states', events' := states + [s'], events + [e];
  }

  lemma HeldStep(home: Client -> Process, states: seq<State>, events: seq<Event>, s: State, e: Event)
      returns (states': seq<State>, events': seq<Event>, s': State)
    requires HeldTo(home, states, events, s) && Enabled(home, s, e)
    requires OnlyHoldersRelease(s, e) && HeldInTime(Apply(home, s, e))
    ensures s' == Apply(home, s, e) && HeldTo(home, states', events', s')
  {
    hide Enabled, Apply, OnlyHoldersRelease, HeldInTime;
    s' := Apply(home, s, e);
    states', events' := states + [s'], events + [e];
  }

  // ----- exactly when failures break the exclusion -----

  /** Different callers, each waiting for Redis. */
  predicate CanFail(s: State, fails: seq<Client>) {
    && (forall k | 0 <= k < |fails| :: fails[k] in s.pc && (s.pc[fails[k]].Setting? || s.pc[fails[k]].Answered?))
    && (forall j, k | 0 <= j < k < |fails| :: fails[j] != fails[k])
  }

  /** The Redis commands of these callers fail, one after another. */
  function AfterFailures(home: Client -> Process, s: State, fails: seq<Client>): (s': State)
    requires CanFail(s, fails)
    ensures forall c :: c in s'.pc <==> c in s.pc
    ensures forall c | c in s.pc && c !in fails :: s'.pc[c] == s.pc[c]
  {
    if fails == [] then s else Apply(home, AfterFailures(home, s, fails[..|fails| - 1]), SetFails(fails[|fails| - 1]))
  }

  lemma FailStep(home: Client -> Process, s: State, c: Client)
    requires Enabled(home, s, SetFails(c))
    ensures
      var s' := Apply(home, s, SetFails(c));
      && s'.pc.Keys == s.pc.Keys && s'.pc[c].Holding? && s'.pc[c].key == s.pc[c].key
      && forall d | d in s.pc && d != c :: s'.pc[d] == s.pc[d]
  {
  }

  lemma OneMoreFailure(home: Client -> Process, s: State, fails: seq<Client>)
    requires CanFail(s, fails) && fails != []
    ensures CanFail(s, fails[..|fails| - 1])
    ensures
      var before, last := AfterFailures(home, s, fails[..|fails| - 1]), fails[|fails| - 1];
      && last in s.pc && last in before.pc && before.pc[last] == s.pc[last]
      && Enabled(home, before, SetFails(last)) && AfterFailures(home, s, fails) == Apply(home, before, SetFails(last))
  {
  }

  /** A caller whose command fails holds the lock. */
  lemma {:induction false} FailedHold(home: Client -> Process, s: State, fails: seq<Client>, c: Client)
    requires CanFail(s, fails) && c in fails
    ensures
      var s' := AfterFailures(home, s, fails);
      c in s'.pc && s'.pc[c].Holding? && s'.pc[c].key == s.pc[c].key
  {
    hide Apply, Enabled, AfterFailures, CanFail;
    var k := |fails| - 1;
    OneMoreFailure(home, s, fails);
    FailStep(home, AfterFailures(home, s, fails[..k]), fails[k]);
    if c != fails[k] { FailedHold(home, s, fails[..k], c); }
  }

  predicate HasTwoHolders(s: State) {
    exists c, d | c in s.pc && d in s.pc ::
      c != d && s.pc[c].Holding? && s.pc[d].Holding? && s.pc[c].key == s.pc[d].key
  }

  /** Failures of commands already sent, and nothing else, can lead to two holders of one key. */
  ghost predicate FailuresBreak(home: Client -> Process, s: State) {
    exists fails: seq<Client> :: CanFail(s, fails) && HasTwoHolders(AfterFailures(home, s, fails))
  }

  ghost predicate HasTwoEngaged(s: State) {
    exists c, d, key :: c != d && Engaged(s, c, key) && Engaged(s, d, key)
  }

  lemma BreakingEngagesTwo(home: Client -> Process, s: State)
    requires FailuresBreak(home, s)
    ensures HasTwoEngaged(s)
  {
    hide AfterFailures;
    var fails: seq<Client> :| CanFail(s, fails) && HasTwoHolders(AfterFailures(home, s, fails));
    var s' := AfterFailures(home, s, fails);
    var c, d :| c in s'.pc && d in s'.pc && c != d && s'.pc[c].Holding? && s'.pc[d].Holding?
      && s'.pc[c].key == s'.pc[d].key;
    if c in fails { FailedHold(home, s, fails, c); }
    if d in fails { FailedHold(home, s, fails, d); }
    assert Engaged(s, c, s'.pc[c].key) && Engaged(s, d, s'.pc[c].key);
  }

  lemma TwoEngagedBreak(home: Client -> Process, s: State, c: Client, d: Client, key: Key)
    requires c != d && Engaged(s, c, key) && Engaged(s, d, key)
    ensures FailuresBreak(home, s)
  {
    hide AfterFailures;
    var fails := (if s.pc[c].Holding? then [] else [c]) + (if s.pc[d].Holding? then [] else [d]);
    assert CanFail(s, fails);
    var s' := AfterFailures(home, s, fails);
    if c in fails { FailedHold(home, s, fails, c); }
    if d in fails { FailedHold(home, s, fails, d); }
    assert (s.pc[c].Holding? || c in fails) && (s.pc[d].Holding? || d in fails);
    assert s'.pc[c].Holding? && s'.pc[d].Holding? && s'.pc[c].key == s'.pc[d].key;
    assert HasTwoHolders(s');
  }

  /** From any state, with any processes: that is so exactly when two callers are trying for the key or
      have it. */
  lemma FailuresBreakIff(home: Client -> Process, s: State)
    ensures FailuresBreak(home, s) <==> HasTwoEngaged(s)
  {
    hide FailuresBreak, Engaged;
    if FailuresBreak(home, s) { BreakingEngagesTwo(home, s); }
    if HasTwoEngaged(s) {
      var c, d, key :| c != d && Engaged(s, c, key) && Engaged(s, d, key);
      TwoEngagedBreak(home, s, c, d, key);
    }
  }

  /** An attempt that overlaps another one is the step after which failures are enough. */
  lemma OverlapBreaks(home: Client -> Process, s: State, e: Event)
    requires Enabled(home, s, e) && !NoOverlap(s, e)
    ensures FailuresBreak(home, Apply(home, s, e))
  {
    hide FailuresBreak;
    var d :| d in s.pc && (s.pc[d].Setting? || s.pc[d].Answered?) && s.pc[d].key == e.key;
    TwoEngagedBreak(home, Apply(home, s, e), d, e.c, e.key);
  }

  /** In one process, in a run where only holders release and each in its time, the discipline is exact:
      attempts never overlap if and only if at no point failures of the commands already sent could lead
      to two holders. */
  lemma DisciplineIsExact(home: Client -> Process, states: seq<State>, events: seq<Event>)
    requires forall c, d :: home(c) == home(d)
    requires Behaviour(home, states, events)
    requires forall i | 0 <= i < |events| :: OnlyHoldersRelease(states[i], events[i])
    requires forall i | 0 <= i < |states| :: HeldInTime(states[i])
    ensures (forall i | 0 <= i < |events| :: NoOverlap(states[i], events[i]))
       <==> (forall i | 0 <= i < |states| :: !FailuresBreak(home, states[i]))
  {
    hide NoOverlap, FailuresBreak, OnlyHoldersRelease, HeldInTime, Enabled, Apply, Init;
    if forall i | 0 <= i < |events| :: NoOverlap(states[i], events[i]) {
      forall i | 0 <= i < |states| ensures !FailuresBreak(home, states[i]) {
        MemoryInvariantHolds(home, states, events, i);
        FailuresBreakIff(home, states[i]);
      }
    } else {
      var i :| 0 <= i < |events| && !NoOverlap(states[i], events[i]);
      OverlapBreaks(home, states[i], events[i]);
      assert FailuresBreak(home, states[i + 1]);
    }
  }

  /** A run that gets there from the start: while Redis fails, the lock does not exclude. In one process, when
      attempts overlap, both callers find no lock, both fall back to memory and both get it: the lock
      does not fail closed. In two processes each has only its own memory. */
  lemma FailureBreaksExclusion(home: Client -> Process, key: Key, ttl: nat)
    requires ttl > 0
    ensures exists states, events, s :: HeldTo(home, states, events, s) && BothHold(s, key)
  {
    hide RunTo, HeldTo;
    var s := Start();
    var states, events: seq<Event> := [s], [];
    assert HeldTo(home, states, events, s) by { StartsHeld(home, s); }
    states, events, s := HeldStep(home, states, events, s, AcquireSend(0, key, ttl));
    states, events, s := HeldStep(home, states, events, s, AcquireSend(1, key, ttl));
    states, events, s := HeldStep(home, states, events, s, SetFails(0));
    states, events, s := HeldStep(home, states, events, s, SetFails(1));
    assert BothHold(s, key);
  }

  lemma StartsHeld(home: Client -> Process, s: State)
    requires Init(s)
    ensures HeldTo(home, [s], [], s) && AnsweredTo(home, [s], [], s)
  {
  }

  predicate OwnsInTime(s: State, c: Client, key: Key) {
    c in s.pc && s.pc[c].Holding? && s.pc[c].key == key && s.pc[c].server.Some? && s.now < s.pc[c].server.value
  }

  /** A late release: caller 0 is past its TTL when it deletes the key, which by then is
      caller 1's. Caller 2 gets the lock while caller 1 still holds it well within its TTL. */
  lemma LateReleaseBreaksExclusion(home: Client -> Process, key: Key, ttl: nat)
    requires home(0) != home(1) && home(1) != home(2) && home(0) != home(2) && ttl > 0
    ensures exists states, events, s ::
              AnsweredTo(home, states, events, s) && OwnsInTime(s, 1, key) && OwnsInTime(s, 2, key)
  {
    hide RunTo, AnsweredTo;
    var states, events, s := LateDelete(home, key, ttl);
    states, events, s := AcquireThrough(home, states, events, s, 2, key, ttl);
    assert OwnsInTime(s, 1, key) && OwnsInTime(s, 2, key);
  }

  /** Up to the delete: caller 1 holds the lock, and Redis has lost it. */
  lemma LateDelete(home: Client -> Process, key: Key, ttl: nat)
      returns (states: seq<State>, events: seq<Event>, s: State)
    requires home(0) != home(1) && home(1) != home(2) && home(0) != home(2) && ttl > 0
    ensures AnsweredTo(home, states, events, s)
    ensures OwnsInTime(s, 1, key) && !LockedInRedis(s, key)
    ensures Enabled(home, s, AcquireSend(2, key, ttl))
  {
    hide RunTo, AnsweredTo;
    s := State(0, map[], map[], map[0 := Idle, 1 := Idle, 2 := Idle]);
    states, events := [s], [];
    assert AnsweredTo(home, states, events, s) by { StartsHeld(home, s); }
    states, events, s := AcquireThrough(home, states, events, s, 0, key, ttl);
    states, events, s := AnsweredStep(home, states, events, s, Tick(ttl));
    states, events, s := AcquireThrough(home, states, events, s, 1, key, ttl);
    states, events, s := ReleaseThrough(home, states, events, s, 0, key);
  }

  /** A release and its delete. */
  lemma ReleaseThrough(home: Client -> Process, states: seq<State>, events: seq<Event>, s: State, c: Client, key: Key)
      returns (states': seq<State>, events': seq<Event>, s': State)
    requires AnsweredTo(home, states, events, s)
    requires c in s.pc && s.pc[c].Holding? && s.pc[c].key == key
    ensures AnsweredTo(home, states', events', s')
    ensures s' == s.(redis := s.redis - {key}, memory := s.memory - {(home(c), key)}, pc := s.pc[c := Idle])
  {
    hide RunTo, AnsweredTo;
    states', events', s' := AnsweredStep(home, states, events, s, ReleaseSend(c, key));
    states', events', s' := AnsweredStep(home, states', events', s', DelExecutes(c));
  }

  /** Three steps in a row: the attempt, the grant and the reply. */
  lemma AcquireThrough(home: Client -> Process, states: seq<State>, events: seq<Event>, s: State,
                       c: Client, key: Key, ttl: nat)
      returns (states': seq<State>, events': seq<Event>, s': State)
    requires AnsweredTo(home, states, events, s)
    requires Enabled(home, s, AcquireSend(c, key, ttl)) && !LockedInRedis(s, key)
    ensures AnsweredTo(home, states', events', s')
    ensures s'.now == s.now && s'.redis == s.redis[key := s.now + ttl]
    ensures s'.memory == s.memory[(home(c), key) := s.now + ttl]
    ensures s'.pc == s.pc[c := Holding(key, s.now + ttl, Some(s.now + ttl))]
  {
    hide RunTo, AnsweredTo;
    states', events', s' := AnsweredStep(home, states, events, s, AcquireSend(c, key, ttl));
    states', events', s' := AnsweredStep(home, states', events', s', SetExecutes(c));
    states', events', s' := AnsweredStep(home, states', events', s', SetReply(c));
  }
}
