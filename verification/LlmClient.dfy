/**
 The resilient chat client: a provider chain without duplicates, bounded retries with capped
 back-off, and a process-wide map of providers whose quota is exhausted. What providers answer,
 how fast the clock moves and the random jitter are arbitrary.
 */
module LlmClient {
  import opened Reals
  import opened Sequences
  import opened Wrappers

  type Key = (string, string)

  datatype Reply = Answer(text: string) | QuotaExhausted | Transient(retryAfter: Option<real>) | Fatal

  datatype Settings = Settings(maxRetries: int, retryBase: real, retryMax: real, cooldown: real)

  function NonNegative(x: real): (r: real)
    ensures r >= 0.0 && r >= x && (r == x || r == 0.0)
  {
    if x < 0.0 then 0.0 else x
  }

  function MaxAttempts(s: Settings): int {
    1 + (if s.maxRetries < 0 then 0 else s.maxRetries)
  }

  // ---------- back-off ----------

  function Pow2(n: nat): real {
    if n == 0 then 1.0 else 2.0 * Pow2(n - 1)
  }

  function Base(s: Settings): real {
    NonNegative(s.retryBase)
  }

  /** The longest back-off: the configured maximum, or the base if that is larger. */
  function Longest(s: Settings): real {
    RealMax(Base(s), s.retryMax)
  }

  /** What a back-off asks for before jitter: exponential in the attempts made, and no less than the server asked. */
  function Requested(s: Settings, retryAfter: Option<real>, attempt: nat): real {
    RealMax(Base(s) * Pow2(if attempt == 0 then 0 else attempt - 1), NonNegative(retryAfter.GetOr(0.0)))
  }

  /** `u` is the random fraction, in [0, 1], of the largest jitter allowed. */
  function Jittered(longest: real, requested: real, u: real): real {
    RealMin(longest, requested + u * RealMin(1.0, requested * 0.25))
  }

  function RetryDelay(s: Settings, retryAfter: Option<real>, attempt: nat, u: real): real {
    Jittered(Longest(s), Requested(s, retryAfter, attempt), u)
  }

  lemma {:induction false} Pow2Positive(n: nat)
    ensures Pow2(n) >= 1.0
    ensures Pow2(0) == 1.0 && Pow2(n + 1) == 2.0 * Pow2(n)
  {
    if n > 0 {
      Pow2Positive(n - 1);
    }
  }

  lemma RequestedNonNegative(s: Settings, retryAfter: Option<real>, attempt: nat)
    ensures Requested(s, retryAfter, attempt) >= 0.0
  {
  }

  lemma FractionBounded(u: real, m: real)
    requires 0.0 <= u <= 1.0 && 0.0 <= m
    ensures 0.0 <= u * m <= m
  {
    ProductNonNegative(u, m);
    ProductNonNegative(1.0 - u, m);
    assert (1.0 - u) * m == m - u * m;
  }

  /** The wait is at least this long, unless it is as long as waits can get. */
  predicate AtLeast(s: Settings, delay: real, wish: real) {
    delay >= wish || (delay >= s.retryBase && delay >= s.retryMax)
  }

  /** Jitter adds a quarter at most, and never more than a second. */
  predicate WithJitter(delay: real, wish: real) {
    delay <= wish + 1.0 && delay <= 1.25 * wish
  }

  /** The base, doubled with each attempt after the first. */
  function Doubled(s: Settings, attempt: nat): real
    requires attempt > 0
  {
    s.retryBase * Pow2(attempt - 1)
  }

  /**
   A wait before attempt `attempt + 1`: no longer than the configuration allows, no shorter than what
   the server asked for and than doubling with each attempt makes it, and no longer than jitter on one of them.
   */
  predicate LegalDelay(s: Settings, retryAfter: Option<real>, attempt: nat, delay: real)
    requires attempt > 0
  {
    LegalWait(s, retryAfter, Doubled(s, attempt), delay)
  }

  predicate LegalWait(s: Settings, retryAfter: Option<real>, doubled: real, delay: real) {
    && 0.0 <= delay && (delay <= s.retryBase || delay <= s.retryMax || delay <= 0.0)
    && AtLeast(s, delay, doubled) && (retryAfter.Some? ==> AtLeast(s, delay, retryAfter.value))
    && (delay <= 0.0 || WithJitter(delay, doubled) || (retryAfter.Some? && WithJitter(delay, retryAfter.value)))
  }

  lemma RequestedIs(s: Settings, retryAfter: Option<real>, attempt: nat)
    requires attempt > 0
    ensures var r, doubled := Requested(s, retryAfter, attempt), Doubled(s, attempt);
      && r >= 0.0 && r >= doubled && (retryAfter.Some? ==> r >= retryAfter.value)
      && (r == 0.0 || r == doubled || retryAfter == Some(r))
  {
    var p := Pow2(attempt - 1);
    Pow2Positive(attempt - 1);
    if s.retryBase < 0.0 {
      ProductNonNegative(-s.retryBase, p);
      assert -s.retryBase * p == -(s.retryBase * p);
    }
  }

  /** A back-off honours the server's wish up to the longest wait, doubles with each attempt up to it, and never exceeds it. */
  lemma RetryDelayBounds(s: Settings, retryAfter: Option<real>, attempt: nat, u: real)
    requires 0.0 <= u <= 1.0 && attempt > 0
    ensures LegalDelay(s, retryAfter, attempt, RetryDelay(s, retryAfter, attempt, u))
  {
    RequestedIs(s, retryAfter, attempt);
    JitteredBounds(Longest(s), Requested(s, retryAfter, attempt), u);
    hide Requested, Pow2, Jittered, LegalWait, Doubled;
    LegalFrom(s, retryAfter, Doubled(s, attempt), Requested(s, retryAfter, attempt), RetryDelay(s, retryAfter, attempt, u));
  }

  lemma LegalFrom(s: Settings, retryAfter: Option<real>, doubled: real, requested: real, delay: real)
    requires requested >= 0.0 && requested >= doubled && (retryAfter.Some? ==> requested >= retryAfter.value)
    requires requested == 0.0 || requested == doubled || retryAfter == Some(requested)
    requires 0.0 <= delay <= Longest(s) && (delay == Longest(s) || delay >= requested)
    requires delay <= requested + 1.0 && delay <= 1.25 * requested
    ensures LegalWait(s, retryAfter, doubled, delay)
  {
  }

  /** So the wait is at least the smaller of the longest one and what the server asked for, and of what doubling makes of it. */
  lemma LegalWaits(s: Settings, retryAfter: Option<real>, doubled: real, delay: real)
    requires LegalWait(s, retryAfter, doubled, delay)
    ensures var longest := RealMax(RealMax(s.retryBase, 0.0), s.retryMax);
      && delay <= longest && RealMin(longest, doubled) <= delay
      && (retryAfter.Some? ==> RealMin(longest, retryAfter.value) <= delay)
  {
  }

  lemma JitteredBounds(longest: real, requested: real, u: real)
    requires 0.0 <= u <= 1.0 && requested >= 0.0 && longest >= 0.0
    ensures var delay := Jittered(longest, requested, u);
      && 0.0 <= delay <= longest && (delay == longest || delay >= requested)
      && delay <= requested + 1.0 && delay <= 1.25 * requested
  {
    var largest := RealMin(1.0, requested * 0.25);
    FractionBounded(u, largest);
    var asked := requested + u * largest;
    assert Jittered(longest, requested, u) == RealMin(longest, asked);
  }

  /** More jitter makes for a longer wait below the longest. */
  lemma JitterSpreads(s: Settings, retryAfter: Option<real>, attempt: nat, u: real, v: real)
    requires 0.0 <= u < v <= 1.0 && attempt > 0 && RetryDelay(s, retryAfter, attempt, v) < Longest(s)
    requires s.retryBase > 0.0 || (retryAfter.Some? && retryAfter.value > 0.0)
    ensures RetryDelay(s, retryAfter, attempt, u) < RetryDelay(s, retryAfter, attempt, v)
  {
    SomethingRequested(s, retryAfter, attempt);
    hide Requested, Jittered, Longest;
    JitteredSpreads(Longest(s), Requested(s, retryAfter, attempt), u, v);
  }

  lemma JitteredSpreads(longest: real, requested: real, u: real, v: real)
    requires u < v && requested > 0.0 && Jittered(longest, requested, v) < longest
    ensures Jittered(longest, requested, u) < Jittered(longest, requested, v)
  {
    var largest := RealMin(1.0, requested * 0.25);
    MoreJitter(u, v, largest);
    var less, more := requested + u * largest, requested + v * largest;
    assert Jittered(longest, requested, u) == RealMin(longest, less) && Jittered(longest, requested, v) == RealMin(longest, more);
  }

  lemma MoreJitter(u: real, v: real, largest: real)
    requires u < v && largest > 0.0
    ensures u * largest < v * largest
  {
    ProductPositive(v - u, largest);
    assert (v - u) * largest == v * largest - u * largest;
  }

  lemma SomethingRequested(s: Settings, retryAfter: Option<real>, attempt: nat)
    requires attempt > 0 && (s.retryBase > 0.0 || (retryAfter.Some? && retryAfter.value > 0.0))
    ensures Requested(s, retryAfter, attempt) > 0.0
  {
    Pow2Positive(attempt - 1);
    if s.retryBase > 0.0 {
      ProductPositive(s.retryBase, Pow2(attempt - 1));
    }
    RequestedIs(s, retryAfter, attempt);
    hide Requested, Pow2;
  }

  /** Without jitter the first wait is the base, and each further one twice the one before until the longest is reached. */
  lemma RetryDelayDoubles(s: Settings, attempt: nat)
    requires attempt > 0
    ensures RetryDelay(s, None, 1, 0.0) == RealMax(s.retryBase, 0.0)
    ensures var longest := RealMax(RealMax(s.retryBase, 0.0), s.retryMax);
      RetryDelay(s, None, attempt + 1, 0.0) == RealMin(longest, 2.0 * RetryDelay(s, None, attempt, 0.0))
  {
    Pow2Positive(attempt - 1);
    ProductNonNegative(Base(s), Pow2(attempt - 1));
    NoJitter(s, 1);
    NoJitter(s, attempt);
    NoJitter(s, attempt + 1);
    hide RetryDelay;
    assert Base(s) * Pow2(attempt) == 2.0 * (Base(s) * Pow2(attempt - 1));
  }

  lemma NoJitter(s: Settings, attempt: nat)
    requires attempt > 0
    ensures RetryDelay(s, None, attempt, 0.0) == RealMin(Longest(s), Base(s) * Pow2(attempt - 1))
  {
    Pow2Positive(attempt - 1);
    ProductNonNegative(Base(s), Pow2(attempt - 1));
  }

  lemma DoubledEachAttempt(s: Settings, attempt: nat)
    requires attempt > 0
    ensures Doubled(s, 1) == s.retryBase && Doubled(s, attempt + 1) == 2.0 * Doubled(s, attempt)
  {
    Pow2Positive(attempt - 1);
  }

  // ---------- the provider chain ----------

  function UsableOnly(chain: seq<Key>, usable: Key -> bool): seq<Key> {
    if chain == [] then []
    else
      var front := UsableOnly(chain[..|chain| - 1], usable);
      if usable(chain[|chain| - 1]) then front + [chain[|chain| - 1]] else front
  }

  lemma {:induction false} UsableOnlyExact(chain: seq<Key>, usable: Key -> bool)
    ensures forall k :: k in UsableOnly(chain, usable) <==> k in chain && usable(k)
  {
    if chain != [] {
      UsableOnlyExact(chain[..|chain| - 1], usable);
      assert chain == chain[..|chain| - 1] + [chain[|chain| - 1]];
    }
  }

  /** The primary provider, then every usable fallback not listed before. */
  method BuildProviders(primary: Key, chain: seq<Key>, usable: Key -> bool) returns (providers: seq<Key>)
    ensures providers == Firsts([primary] + UsableOnly(chain, usable))
    ensures NoRepeats(providers) && |providers| > 0 && providers[0] == primary
    ensures forall k :: k in providers <==> k == primary || (k in chain && usable(k))
  {
    providers := [primary];
    var seen := {primary};
    assert chain[..0] == [];
    for i := 0 to |chain|
      invariant seen == set k | k in providers
      invariant providers == Firsts([primary] + UsableOnly(chain[..i], usable))
    {
      var key := chain[i];
      assert chain[..i + 1][..i] == chain[..i];
      if usable(key) {
        var before := [primary] + UsableOnly(chain[..i], usable);
        assert ([primary] + UsableOnly(chain[..i + 1], usable))[..|before|] == before;
        if key !in seen {
          seen := seen + {key};
          providers := providers + [key];
        }
      }
    }
    assert chain[..|chain|] == chain;
    FirstsExact([primary] + UsableOnly(chain, usable));
    UsableOnlyExact(chain, usable);
  }

  // ---------- one invocation ----------

  /** What an invocation did with one provider. `reading` numbers the clock reading that came before. */
  datatype Visit =
    | Blocked(key: Key, until: real, time: real)
    | Unusable(key: Key, reading: nat)
    | Tried(key: Key, replies: seq<Reply>, delays: seq<real>)

  predicate Answers(v: Visit) {
    v.Tried? && v.replies != [] && v.replies[|v.replies| - 1].Answer?
  }

  /** Every reply before the last was a transient error, and the wait after it a legal back-off. */
  ghost predicate Retried(s: Settings, replies: seq<Reply>, delays: seq<real>) {
    && |delays| <= |replies|
    && forall i :: 0 <= i < |delays| ==> replies[i].Transient? && LegalDelay(s, replies[i].retryAfter, i + 1, delays[i])
  }

  /**
   Attempts are bounded, a provider is retried only after a transient error and given up only on
   an answer, a permanent error, or the last attempt; every wait is a legal back-off.
   */
  ghost predicate Proper(s: Settings, v: Visit) {
    v.Tried? ==>
      && 1 <= |v.replies| && (|v.replies| == 1 || |v.replies| <= 1 + s.maxRetries)
      && |v.delays| == |v.replies| - 1
      && Retried(s, v.replies, v.delays)
      && (v.replies[|v.replies| - 1].Transient? ==> |v.replies| >= 1 + s.maxRetries)
  }

  lemma AttemptsAre(s: Settings)
    ensures MaxAttempts(s) >= 1 && MaxAttempts(s) >= 1 + s.maxRetries
    ensures MaxAttempts(s) == 1 || MaxAttempts(s) == 1 + s.maxRetries
  {
  }

  lemma NothingTried(s: Settings, key: Key)
    ensures Retried(s, [], []) && CallsTo(key, []) == []
    ensures forall log: seq<Event>, now: real :: Underway(log, |log|, key, [], [], now)
  {
  }

  lemma StillRetried(s: Settings, replies: seq<Reply>, delays: seq<real>, reply: Reply)
    requires Retried(s, replies, delays)
    ensures Retried(s, replies + [reply], delays)
  {
  }

  lemma RetryOnceMore(s: Settings, replies: seq<Reply>, delays: seq<real>, u: real)
    requires Retried(s, replies, delays) && |replies| == |delays| + 1 && replies[|replies| - 1].Transient? && 0.0 <= u <= 1.0
    ensures var delay := RetryDelay(s, replies[|replies| - 1].retryAfter, |replies|, u);
      Retried(s, replies, delays + [delay]) && NonNegative(delay) == delay
  {
    RetryDelayBounds(s, replies[|replies| - 1].retryAfter, |replies|, u);
    hide RetryDelay;
  }

  lemma SleptLater(now: real, delay: real)
    ensures now <= now + NonNegative(delay)
  {
  }

  datatype Result = Response(text: string) | AllFailed

  /** The providers visited so far, in order, all without an answer. */
  ghost predicate Unanswered(s: Settings, providers: seq<Key>, visits: seq<Visit>) {
    && |visits| <= |providers|
    && forall i :: 0 <= i < |visits| ==> visits[i].key == providers[i] && Proper(s, visits[i]) && !Answers(visits[i])
  }

  /** Providers are visited in order; the first answer ends the invocation and is returned. */
  ghost predicate IsInvocation(s: Settings, providers: seq<Key>, visits: seq<Visit>, r: Result) {
    match r
    case AllFailed => |visits| == |providers| && Unanswered(s, providers, visits)
    case Response(text) => (
      && 0 < |visits| <= |providers|
      && Unanswered(s, providers, visits[..|visits| - 1])
      && var last := visits[|visits| - 1];
      && last.key == providers[|visits| - 1] && Proper(s, last) && Answers(last)
      && text == last.replies[|last.replies| - 1].text
    )
  }

  // ---------- the log of everything that happened ----------

  datatype Event =
    | Called(key: Key, time: real, reply: Reply)
    | Exhausted(key: Key, until: real)

  /** No call is made before the end of a cooldown announced for its provider and model. */
  ghost predicate CooldownsKept(log: seq<Event>) {
    forall i, j :: 0 <= i < j < |log| && log[i].Exhausted? && log[j].Called? && log[i].key == log[j].key ==>
      log[i].until <= log[j].time
  }

  /** Every call that reports an exhausted quota is followed at once by a full cooldown for it. */
  ghost predicate ExhaustionsAnnounced(log: seq<Event>, cooldown: real) {
    forall i :: 0 <= i < |log| && log[i].Called? && log[i].reply.QuotaExhausted? ==>
      i + 1 < |log| && log[i + 1].Exhausted? && log[i + 1].key == log[i].key && log[i].time + cooldown <= log[i + 1].until
  }

  /** No cooldown announced for `key` is still running. */
  ghost predicate Free(log: seq<Event>, key: Key, now: real) {
    forall i :: 0 <= i < |log| && log[i].Exhausted? && log[i].key == key ==> log[i].until <= now
  }

  /** The quota map holds announced cooldowns only. */
  ghost predicate Announced(log: seq<Event>, blockedUntil: map<Key, real>) {
    forall k :: k in blockedUntil ==> Exhausted(k, blockedUntil[k]) in log
  }

  /** Every announced cooldown is over or still in the quota map. */
  ghost predicate Remembered(log: seq<Event>, blockedUntil: map<Key, real>, now: real) {
    forall i :: 0 <= i < |log| && log[i].Exhausted? ==>
      log[i].until <= now || (log[i].key in blockedUntil && log[i].until <= blockedUntil[log[i].key])
  }

  ghost predicate Sound(log: seq<Event>, blockedUntil: map<Key, real>, now: real, cooldown: real) {
    && CooldownsKept(log)
    && ExhaustionsAnnounced(log, cooldown)
    && Announced(log, blockedUntil)
    && Remembered(log, blockedUntil, now)
    && 0.0 <= now
  }

  lemma SoundLater(log: seq<Event>, blockedUntil: map<Key, real>, now: real, later: real, cooldown: real)
    requires Sound(log, blockedUntil, now, cooldown) && now <= later
    ensures Sound(log, blockedUntil, later, cooldown)
  {
  }

  lemma FreeLater(log: seq<Event>, key: Key, now: real, later: real)
    requires Free(log, key, now) && now <= later
    ensures Free(log, key, later)
  {
  }

  /** Dropping an expired entry keeps the log sound, and nothing is left to wait for. */
  lemma SoundDrop(log: seq<Event>, blockedUntil: map<Key, real>, now: real, cooldown: real, key: Key)
    requires Sound(log, blockedUntil, now, cooldown)
    requires key in blockedUntil ==> blockedUntil[key] <= now
    ensures Sound(log, blockedUntil - {key}, now, cooldown) && Free(log, key, now)
  {
  }

  lemma SoundCall(log: seq<Event>, blockedUntil: map<Key, real>, now: real, cooldown: real, call: Event)
    requires Sound(log, blockedUntil, now, cooldown)
    requires call.Called? && call.time == now && !call.reply.QuotaExhausted? && Free(log, call.key, now)
    ensures Sound(log + [call], blockedUntil, now, cooldown) && Free(log + [call], call.key, now)
  {
    var longer := log + [call];
    assert forall i :: 0 <= i < |log| ==> longer[i] == log[i];
    assert ExhaustionsAnnounced(longer, cooldown) by {
      hide CooldownsKept, Announced, Remembered, Free;
      assert forall i :: 0 <= i < |longer| && longer[i].Called? && longer[i].reply.QuotaExhausted? ==> i < |log|;
    }
    assert Announced(longer, blockedUntil) by {
      assert forall k :: k in blockedUntil ==> Exhausted(k, blockedUntil[k]) in log;
    }
  }

  lemma SoundExhaustion(log: seq<Event>, blockedUntil: map<Key, real>, time: real, now: real, cooldown: real, key: Key)
    requires Sound(log, blockedUntil, time, cooldown) && Free(log, key, time)
    requires time <= now && 0.0 <= cooldown
    ensures Sound(log + [Called(key, time, QuotaExhausted)] + [Exhausted(key, now + cooldown)], blockedUntil[key := now + cooldown], now, cooldown)
  {
    var call, mark := Called(key, time, QuotaExhausted), Exhausted(key, now + cooldown);
    var longer := log + [call] + [mark];
    assert forall i :: 0 <= i < |log| ==> longer[i] == log[i];
    assert longer[|log|] == call && longer[|log| + 1] == mark;
    assert CooldownsKept(longer) by {
      hide ExhaustionsAnnounced, Announced, Remembered;
    }
    assert ExhaustionsAnnounced(longer, cooldown) by {
      hide CooldownsKept, Announced, Remembered, Free;
    }
    assert Announced(longer, blockedUntil[key := now + cooldown]) by {
      hide CooldownsKept, ExhaustionsAnnounced, Remembered, Free;
      assert forall k :: k in blockedUntil ==> Exhausted(k, blockedUntil[k]) in log;
    }
  }

  /** The replies in the log, call by call. */
  function CallsOf(log: seq<Event>): seq<(Key, Reply)> {
    if log == [] then []
    else
      var front, last := CallsOf(log[..|log| - 1]), log[|log| - 1];
      if last.Called? then front + [(last.key, last.reply)] else front
  }

  function CallsTo(key: Key, replies: seq<Reply>): seq<(Key, Reply)> {
    if replies == [] then [] else CallsTo(key, replies[..|replies| - 1]) + [(key, replies[|replies| - 1])]
  }

  function CallsMade(visits: seq<Visit>): seq<(Key, Reply)> {
    if visits == [] then []
    else
      var front, last := CallsMade(visits[..|visits| - 1]), visits[|visits| - 1];
      if last.Tried? then front + CallsTo(last.key, last.replies) else front
  }

  lemma CallsOfAppend(log: seq<Event>, e: Event)
    ensures CallsOf(log + [e]) == CallsOf(log) + (if e.Called? then [(e.key, e.reply)] else [])
  {
    assert (log + [e])[..|log|] == log;
  }

  lemma CallsToAppend(key: Key, replies: seq<Reply>, reply: Reply)
    ensures CallsTo(key, replies + [reply]) == CallsTo(key, replies) + [(key, reply)]
  {
    assert (replies + [reply])[..|replies|] == replies;
  }

  lemma CallsMadeAppend(visits: seq<Visit>, v: Visit)
    ensures CallsMade(visits + [v]) == CallsMade(visits) + (if v.Tried? then CallsTo(v.key, v.replies) else [])
  {
    assert (visits + [v])[..|visits|] == visits;
  }

  /** The calls of a visit stand in a row in the log, and each wait passed between two of them. */
  ghost predicate Happened(log: seq<Event>, from: nat, key: Key, replies: seq<Reply>, delays: seq<real>) {
    && from + |replies| <= |log| && |delays| <= |replies|
    && (forall i :: from <= i < from + |replies| ==> log[i].Called? && log[i].key == key && log[i].reply == replies[i - from])
    && (forall i :: from < i < from + |replies| && i - from <= |delays| ==> log[i].time == log[i - 1].time + delays[i - from - 1])
  }

  /** A visit is in the log; a provider is passed over only during an announced cooldown, or when no client could be built for it. */
  ghost predicate Justified(v: Visit, log: seq<Event>, starts: (Key, nat) -> bool, since: real) {
    match v
    case Blocked(key, until, time) => since <= time < until && Exhausted(key, until) in log
    case Unusable(key, reading) => !starts(key, reading)
    case Tried(key, replies, delays) => exists from: nat :: Happened(log, from, key, replies, delays)
  }

  ghost predicate AllJustified(visits: seq<Visit>, log: seq<Event>, starts: (Key, nat) -> bool, since: real) {
    forall i :: 0 <= i < |visits| ==> Justified(visits[i], log, starts, since)
  }

  lemma JustifiedExtend(visits: seq<Visit>, log: seq<Event>, longer: seq<Event>, starts: (Key, nat) -> bool, since: real, v: Visit)
    requires AllJustified(visits, log, starts, since) && log <= longer && Justified(v, longer, starts, since)
    ensures AllJustified(visits + [v], longer, starts, since)
  {
    hide Happened;
    assert forall e :: e in log ==> e in longer;
    forall i | 0 <= i < |visits| ensures Justified(visits[i], longer, starts, since) {
      StillJustified(log, longer, starts, since, visits[i]);
    }
  }

  lemma TriedJustified(log: seq<Event>, from: nat, v: Visit, starts: (Key, nat) -> bool, since: real)
    requires v.Tried? && Happened(log, from, v.key, v.replies, v.delays)
    ensures Justified(v, log, starts, since)
  {
  }

  lemma StillJustified(log: seq<Event>, longer: seq<Event>, starts: (Key, nat) -> bool, since: real, v: Visit)
    requires Justified(v, log, starts, since) && log <= longer
    ensures Justified(v, longer, starts, since)
  {
    assert forall e :: e in log ==> e in longer;
    if v.Tried? {
      var from: nat :| Happened(log, from, v.key, v.replies, v.delays);
      assert Happened(longer, from, v.key, v.replies, v.delays);
    }
  }

  /** The log ends with the calls of a visit, and the last wait is over now. */
  ghost predicate Underway(log: seq<Event>, from: nat, key: Key, replies: seq<Reply>, delays: seq<real>, now: real) {
    && |log| == from + |replies| && |delays| == |replies| && Happened(log, from, key, replies, delays)
    && (replies != [] ==> log[|log| - 1].time + delays[|delays| - 1] == now)
  }

  lemma CallHappened(log: seq<Event>, longer: seq<Event>, from: nat, key: Key, replies: seq<Reply>, delays: seq<real>, now: real, reply: Reply)
    requires Underway(log, from, key, replies, delays, now)
    requires log <= longer && |longer| > |log| && longer[|log|] == Called(key, now, reply)
    ensures Happened(longer, from, key, replies + [reply], delays)
  {
  }

  lemma WaitHappened(log: seq<Event>, from: nat, key: Key, replies: seq<Reply>, delays: seq<real>, delay: real)
    requires Happened(log, from, key, replies, delays) && |log| == from + |replies| && |replies| == |delays| + 1
    ensures Underway(log, from, key, replies, delays + [delay], log[|log| - 1].time + delay)
  {
  }

  /**
   Whenever a provider that asked for a pause is called again by the same visit, the pause was
   made: in the log, at least the time it asked for, or the longest wait, lies between the two calls.
   And a provider is never called more often than the first time and once for each retry.
   */
  lemma PausesHonoured(s: Settings, providers: seq<Key>, visits: seq<Visit>, r: Result, log: seq<Event>,
                       starts: (Key, nat) -> bool, since: real, v: nat, i: nat, wish: real)
    requires IsInvocation(s, providers, visits, r) && AllJustified(visits, log, starts, since)
    requires v < |visits| && visits[v].Tried? && i + 1 < |visits[v].replies| && visits[v].replies[i] == Transient(Some(wish))
    ensures |visits[v].replies| <= 1 + s.maxRetries
    ensures exists at: nat :: CalledAgain(log, at, visits[v].key, visits[v].replies[i], visits[v].replies[i + 1])
                              && AtLeast(s, log[at + 1].time - log[at].time, wish)
  {
    ProperVisit(s, providers, visits, r, v);
    hide IsInvocation, Unanswered, Doubled;
    var visit := visits[v];
    assert Justified(visit, log, starts, since);
    var from: nat :| Happened(log, from, visit.key, visit.replies, visit.delays);
    assert LegalDelay(s, visit.replies[i].retryAfter, i + 1, visit.delays[i]);
    assert log[from + i + 1].time == log[from + i + 1 - 1].time + visit.delays[i];
    assert CalledAgain(log, from + i, visit.key, visit.replies[i], visit.replies[i + 1]);
  }

  ghost predicate CalledAgain(log: seq<Event>, at: nat, key: Key, first: Reply, second: Reply) {
    at + 1 < |log| && log[at].Called? && log[at + 1].Called? && log[at].key == log[at + 1].key == key && log[at].reply == first && log[at + 1].reply == second
  }

  lemma ProperVisit(s: Settings, providers: seq<Key>, visits: seq<Visit>, r: Result, v: nat)
    requires IsInvocation(s, providers, visits, r) && v < |visits|
    ensures Proper(s, visits[v])
  {
    hide Proper, Answers;
    assert v < |visits| - 1 ==> visits[..|visits| - 1][v] == visits[v];
  }

  /** An invocation fails only if no provider ever answered; otherwise it ends at the only answer and returns that. */
  lemma FirstAnswerReturned(s: Settings, providers: seq<Key>, visits: seq<Visit>, r: Result, v: nat, i: nat)
    requires IsInvocation(s, providers, visits, r) && v < |visits| && visits[v].Tried? && i < |visits[v].replies|
    ensures visits[v].replies[i].Answer? <==> r.Response? && v == |visits| - 1 && i == |visits[v].replies| - 1
    ensures visits[v].replies[i].Answer? ==> r == Response(visits[v].replies[i].text)
  {
    ProperVisit(s, providers, visits, r, v);
    hide LegalDelay;
    assert v < |visits| - 1 ==> visits[..|visits| - 1][v] == visits[v];
    assert i < |visits[v].delays| ==> visits[v].replies[i].Transient?;
  }

  /** The random fraction, forced into its range. */
  function Fraction(u: real): (r: real)
    ensures 0.0 <= r <= 1.0
  {
    if u < 0.0 then 0.0 else if u > 1.0 then 1.0 else u
  }

  /** The process: its clock, the quota map, and the environment's choices. */
  class Process {
    const settings: Settings
    const answers: nat -> Reply            // what the n-th call gets back
    const elapses: nat -> real             // how far the clock moves before its n-th reading
    const jitter: nat -> real              // the random fraction drawn after the n-th reading
    const starts: (Key, nat) -> bool       // whether a client can be built after the n-th reading
    var blockedUntil: map<Key, real>
    var now: real
    var readings: nat
    var calls: nat
    ghost var log: seq<Event>

    ghost predicate Valid()
      reads this
    {
      Sound(log, blockedUntil, now, NonNegative(settings.cooldown))
    }

    constructor (settings: Settings, answers: nat -> Reply, elapses: nat -> real, jitter: nat -> real, starts: (Key, nat) -> bool)
      ensures Valid() && log == [] && this.settings == settings
    {
      this.settings, this.answers, this.elapses, this.jitter, this.starts := settings, answers, elapses, jitter, starts;
      blockedUntil, now, readings, calls, log := map[], 0.0, 0, 0, [];
    }

    /** Reads the clock, which never runs backwards. */
    method Clock() returns (t: real)
      modifies this`now, this`readings
      ensures t == now == old(now) + NonNegative(elapses(old(readings))) && readings == old(readings) + 1
    {
      now := now + NonNegative(elapses(readings));
      readings := readings + 1;
      t := now;
    }

    /** How long the provider is still cooling down; an expired entry is dropped. */
    method CooldownRemaining(key: Key) returns (remaining: real)
      requires Valid()
      modifies this`now, this`readings, this`blockedUntil
      ensures Valid() && old(now) <= now
      ensures remaining > 0.0 ==> blockedUntil == old(blockedUntil) && Exhausted(key, now + remaining) in log
      ensures remaining <= 0.0 ==> remaining == 0.0 && blockedUntil == old(blockedUntil) - {key} && Free(log, key, now)
    {
      var until := if key in blockedUntil then blockedUntil[key] else 0.0;
      var t := Clock();
      SoundLater(log, blockedUntil, old(now), now, NonNegative(settings.cooldown));
      remaining := until - t;
      if remaining <= 0.0 {
        SoundDrop(log, blockedUntil, now, NonNegative(settings.cooldown), key);
        blockedUntil := blockedUntil - {key};
        remaining := 0.0;
      }
    }

    /** Starts a cooldown for the provider. */
    method MarkExhausted(key: Key)
      modifies this`now, this`readings, this`blockedUntil
      ensures old(now) <= now
      ensures blockedUntil == old(blockedUntil)[key := now + NonNegative(settings.cooldown)]
    {
      var t := Clock();
      blockedUntil := blockedUntil[key := t + NonNegative(settings.cooldown)];
    }

    /** One call to a provider that is not cooling down. */
    method Call(key: Key) returns (reply: Reply)
      requires Valid() && Free(log, key, now)
      modifies this`now, this`readings, this`calls, this`blockedUntil, this`log
      ensures Valid() && old(now) <= now && old(log) <= log
      ensures reply == answers(old(calls)) && calls == old(calls) + 1
      ensures CallsOf(log) == CallsOf(old(log)) + [(key, reply)]
      ensures |log| > |old(log)| && log[|old(log)|] == Called(key, old(now), reply)
      ensures !reply.QuotaExhausted? ==> |log| == |old(log)| + 1
      ensures !reply.QuotaExhausted? ==> Free(log, key, now) && now == old(now) && blockedUntil == old(blockedUntil)
    {
      hide Sound, Free, CallsOf;
      reply := answers(calls);
      calls := calls + 1;
      ghost var call := Called(key, now, reply);
      CallsOfAppend(log, call);
      if reply.QuotaExhausted? {
        MarkExhausted(key);
        SoundExhaustion(log, old(blockedUntil), old(now), now, NonNegative(settings.cooldown), key);
        CallsOfAppend(log + [call], Exhausted(key, now + NonNegative(settings.cooldown)));
        log := log + [call] + [Exhausted(key, now + NonNegative(settings.cooldown))];
      } else {
        SoundCall(log, blockedUntil, now, NonNegative(settings.cooldown), call);
        log := log + [call];
      }
    }

    /** Sleeps; only the clock is affected. */
    method Sleep(delay: real)
      requires Valid()
      modifies this`now
      ensures Valid() && now == old(now) + NonNegative(delay)
    {
      SoundLater(log, blockedUntil, now, now + NonNegative(delay), NonNegative(settings.cooldown));
      now := now + NonNegative(delay);
    }

    /** Tries one provider until it answers, fails for good, or runs out of attempts. */
    method TryProvider(key: Key) returns (visit: Visit)
      requires Valid() && Free(log, key, now)
      modifies this`now, this`readings, this`calls, this`blockedUntil, this`log
      ensures Valid() && old(now) <= now && old(log) <= log
      ensures visit.Tried? && visit.key == key && Proper(settings, visit)
      ensures Happened(log, |old(log)|, key, visit.replies, visit.delays)
      ensures CallsOf(log) == CallsOf(old(log)) + CallsTo(key, visit.replies)
    {
      hide Sound, Free, CallsOf, CallsTo, RetryDelay, Retried, MaxAttempts, NonNegative, Happened, Underway, LegalDelay;
      NothingTried(settings, key);
      AttemptsAre(settings);
      var replies: seq<Reply>, delays: seq<real> := [], [];
      while true
        invariant Valid() && old(now) <= now && old(log) <= log
        invariant |replies| == |delays| < MaxAttempts(settings)
        invariant Free(log, key, now)
        invariant Retried(settings, replies, delays)
        invariant |log| == |old(log)| + |replies| && Underway(log, |old(log)|, key, replies, delays, now)
        invariant CallsOf(log) == CallsOf(old(log)) + CallsTo(key, replies)
        decreases MaxAttempts(settings) - |replies|
      {
        var attempt := |replies| + 1;
        ghost var earlier, start := log, now;
        var reply := Call(key);
        CallHappened(earlier, log, |old(log)|, key, replies, delays, start, reply);
        CallsToAppend(key, replies, reply);
        StillRetried(settings, replies, delays, reply);
        replies := replies + [reply];
        if !reply.Transient? || attempt == MaxAttempts(settings) {
          break;
        }
        var u := Fraction(jitter(readings));
        var delay := RetryDelay(settings, reply.retryAfter, attempt, u);
        RetryOnceMore(settings, replies, delays, u);
        ghost var before := now;
        Sleep(delay);
        SleptLater(before, delay);
        FreeLater(log, key, before, now);
        WaitHappened(log, |old(log)|, key, replies, delays, delay);
        delays := delays + [delay];
      }
      visit := Tried(key, replies, delays);
    }

    /** Visits the providers in order and returns the first answer. */
    method Invoke(providers: seq<Key>) returns (result: Result, ghost visits: seq<Visit>)
      requires Valid()
      modifies this`now, this`readings, this`calls, this`blockedUntil, this`log
      ensures Valid() && old(now) <= now && old(log) <= log
      ensures IsInvocation(settings, providers, visits, result)
      ensures CallsOf(log) == CallsOf(old(log)) + CallsMade(visits)
      ensures AllJustified(visits, log, starts, old(now))
    {
      hide Sound, Free, CallsOf, CallsMade, CallsTo, Proper, AllJustified, Happened;
      visits := [];
      NothingToJustify(log, starts, now);
      for p := 0 to |providers|
        invariant Valid() && old(now) <= now && old(log) <= log
        invariant |visits| == p && Unanswered(settings, providers, visits)
        invariant CallsOf(log) == CallsOf(old(log)) + CallsMade(visits)
        invariant AllJustified(visits, log, starts, old(now))
      {
        var key := providers[p];
        ghost var before := log;
        var remaining := CooldownRemaining(key);
        ghost var visit;
        if remaining > 0.0 {
          visit := Blocked(key, now + remaining, now);
        } else if !starts(key, readings) {
          visit := Unusable(key, readings);
        } else {
          var tried := TryProvider(key);
          visit := tried;
          TriedJustified(log, |before|, tried, starts, old(now));
          CallsMadeAppend(visits, visit);
          if Answers(tried) {
            JustifiedExtend(visits, before, log, starts, old(now), visit);
            visits := visits + [visit];
            assert visits[..p] == visits[..|visits| - 1];
            return Response(tried.replies[|tried.replies| - 1].text), visits;
          }
        }
        PassedOver(settings, visit);
        CallsMadeAppend(visits, visit);
        JustifiedExtend(visits, before, log, starts, old(now), visit);
        visits := visits + [visit];
      }
      result := AllFailed;
    }
  }

  lemma NothingToJustify(log: seq<Event>, starts: (Key, nat) -> bool, since: real)
    ensures AllJustified([], log, starts, since)
    ensures CallsMade([]) == []
  {
  }

  lemma PassedOver(s: Settings, v: Visit)
    ensures !v.Tried? ==> Proper(s, v)
  {
  }
}
