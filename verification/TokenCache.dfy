/** The Azure token cache: a read check, then a fetch, then a write-back, raced by any number of pool
    connections.  Time is a clock in nanoseconds that may do anything, including run backwards. */
module TokenCache {
  import opened Wrappers
  import opened Bags
  import opened FloorDiv

  const TICKS_PER_SEC: nat := 1_000_000_000
  const REFRESH_BUFFER: nat := 60 * 1_000_000_000

  /** The last instant a `SystemTime` can hold. */
  const TIME_LIMIT: int := 0x7FFF_FFFF_FFFF_FFFF * 1_000_000_000 + 999_999_999

  datatype CachedToken = CachedToken(token: string, expiresAt: int)

  /** A token as the credential issues it: the secret and its expiry in Unix seconds. */
  datatype AccessToken = AccessToken(secret: string, expiresOn: int)

  /** `is_valid`: more than the buffer is left.  Adding the buffer to a clock at the end of time fails,
      and counts as expired. */
  predicate IsValid(c: CachedToken, now: int) {
    now + REFRESH_BUFFER <= TIME_LIMIT && now + REFRESH_BUFFER < c.expiresAt
  }

  /** The cache entry for an issued token: an expiry that is not positive is replaced by an hour from
      now. */
  function Entry(t: AccessToken, now: int): CachedToken {
    CachedToken(t.secret, if t.expiresOn > 0 then t.expiresOn * TICKS_PER_SEC else now + 3600 * TICKS_PER_SEC)
  }

  // ----- The credential chain ------------------------------------------------------------------

  /** `ChainedCredential::get_token`: the first source that succeeds, else the last one's error. */
  method ChainedGetToken<E>(sources: seq<Result<AccessToken, E>>, noCredentials: E) returns (r: Result<AccessToken, E>)
    ensures r.Ok? <==> exists i :: 0 <= i < |sources| && sources[i].Ok?
    ensures r.Ok? ==> exists i :: 0 <= i < |sources| && sources[i] == r && forall j :: 0 <= j < i ==> sources[j].Err?
    ensures r.Err? ==> r.error == if sources == [] then noCredentials else sources[|sources| - 1].error
  {
    var lastErr: Option<E> := None;
    for i := 0 to |sources|
      invariant forall j :: 0 <= j < i ==> sources[j].Err?
      invariant lastErr == if i == 0 then None else Some(sources[i - 1].error)
    {
      match sources[i] {
        case Ok(t) => return sources[i];
        case Err(e) => lastErr := Some(e);
      }
    }
    return Err(match lastErr case Some(e) => e case None => noCredentials);
  }

  // ----- The provider --------------------------------------------------------------------------

  /** What one sequential call makes of the cache, given the clock at its check, the credential's answer,
      and the clock when the answer is in. */
  function CacheAfter<E>(cache: Option<CachedToken>, checkedAt: int, fetched: Result<AccessToken, E>, fetchedAt: int)
    : Option<CachedToken>
  {
    if cache.Some? && IsValid(cache.value, checkedAt) then cache
    else if fetched.Ok? then Some(Entry(fetched.value, fetchedAt))
    else cache
  }

  class AzureTokenProvider {
    var cache: Option<CachedToken>

    constructor ()
      ensures cache == None
    {
      cache := None;
    }

    /** The check under the read lock. */
    method CheckCache(now: int) returns (hit: Option<string>)
      ensures hit.Some? <==> cache.Some? && IsValid(cache.value, now)
      ensures now + 60 * 1_000_000_000 <= TIME_LIMIT ==>
        (hit.Some? <==> cache.Some? && cache.value.expiresAt - now > 60 * 1_000_000_000)
      ensures now + 60 * 1_000_000_000 > TIME_LIMIT ==> hit == None
      ensures hit.Some? ==> hit.value == cache.value.token
    {
      match cache
      case Some(c) =>
        if IsValid(c, now) {
          return Some(c.token);
        }
        return None;
      case None =>
        return None;
    }

    /** `refresh_token`: a failed fetch leaves the cache alone. */
    method RefreshToken<E>(fetched: Result<AccessToken, E>, now: int) returns (r: Result<string, E>)
      modifies this
      ensures cache == if fetched.Ok? then Some(Entry(fetched.value, now)) else old(cache)
      ensures fetched.Ok? ==>
        && cache.value.token == fetched.value.secret
        && cache.value.expiresAt == if fetched.value.expiresOn > 0 then fetched.value.expiresOn * 1_000_000_000
                                    else now + 3600 * 1_000_000_000
      ensures r == match fetched case Ok(t) => Ok(t.secret) case Err(e) => Err(e)
    {
      match fetched {
        case Err(e) =>
          return Err(e);
        case Ok(t) =>
          var expiresAt := if t.expiresOn > 0 then t.expiresOn * TICKS_PER_SEC else now + 3600 * TICKS_PER_SEC;
          cache := Some(CachedToken(t.secret, expiresAt));
          return Ok(t.secret);
      }
    }

    /** `get_token`, uninterrupted. */
    method GetToken<E>(checkedAt: int, fetched: Result<AccessToken, E>, fetchedAt: int) returns (r: Result<string, E>)
      modifies this
      ensures cache == CacheAfter(old(cache), checkedAt, fetched, fetchedAt)
      ensures (old(cache).Some? && IsValid(old(cache).value, checkedAt)) || fetched.Err? ==> cache == old(cache)
      ensures !(old(cache).Some? && IsValid(old(cache).value, checkedAt)) && fetched.Ok? ==>
        cache == Some(Entry(fetched.value, fetchedAt))
      ensures old(cache).Some? && IsValid(old(cache).value, checkedAt) ==> r == Ok(old(cache).value.token)
      ensures !(old(cache).Some? && IsValid(old(cache).value, checkedAt)) ==>
        r == if fetched.Ok? then Ok(fetched.value.secret) else Err(fetched.error)
      ensures r.Ok? ==> cache.Some? && r.value == cache.value.token
    {
      var hit := CheckCache(checkedAt);
      if hit.Some? {
        return Ok(hit.value);
      }
      r := RefreshToken(fetched, fetchedAt);
    }
  }

  // ----- Interleavings -------------------------------------------------------------------------

  /** Where one call to `get_token` has got to. */
  datatype Call =
    | NotStarted
    | Fetching                                        // missed the cache, waiting for the credential
    | Fetched(entry: CachedToken)                     // waiting for the write lock
    | FromCache(token: string, expiresAt: int, checkedAt: int)
    | FromFetch(entry: CachedToken)
    | Failed

  /** `issued` records every entry ever made from a credential's answer, and by which call. */
  datatype State = State(now: int, cache: Option<CachedToken>, calls: map<nat, Call>, issued: set<(nat, CachedToken)>)

  datatype Step =
    | Clock(now: int)
    | Check(call: nat)
    | FetchOk(call: nat, answer: AccessToken)
    | FetchErr(call: nat)
    | WriteBack(call: nat)

  const START: State := State(0, None, map[], {})

  function CallOf(s: State, i: nat): Call {
    if i in s.calls then s.calls[i] else NotStarted
  }

  predicate Enabled(s: State, e: Step) {
    match e
    case Clock(_) => true
    case Check(i) => CallOf(s, i) == NotStarted
    case FetchOk(i, _) => CallOf(s, i) == Fetching
    case FetchErr(i) => CallOf(s, i) == Fetching
    case WriteBack(i) => CallOf(s, i).Fetched?
  }

  function Apply(s: State, e: Step): State
    requires Enabled(s, e)
  {
    match e
    case Clock(now) => s.(now := now)
    case Check(i) =>
      if s.cache.Some? && IsValid(s.cache.value, s.now)
      then s.(calls := s.calls[i := FromCache(s.cache.value.token, s.cache.value.expiresAt, s.now)])
      else s.(calls := s.calls[i := Fetching])
    case FetchOk(i, answer) =>
      var entry := Entry(answer, s.now);
      s.(calls := s.calls[i := Fetched(entry)], issued := s.issued + {(i, entry)})
    case FetchErr(i) => s.(calls := s.calls[i := Failed])
    case WriteBack(i) => s.(calls := s.calls[i := FromFetch(s.calls[i].entry)], cache := Some(s.calls[i].entry))
  }

  function Run(trace: seq<Step>): Option<State> {
    if trace == [] then Some(START)
    else
      var before := Run(trace[..|trace| - 1]);
      if before.Some? && Enabled(before.value, trace[|trace| - 1])
      then Some(Apply(before.value, trace[|trace| - 1]))
      else None
  }

  ghost predicate EverIssued(s: State, entry: CachedToken) {
    exists i :: (i, entry) in s.issued
  }

  ghost predicate CallSound(s: State, i: nat) {
    match CallOf(s, i)
    case Fetched(entry) => (i, entry) in s.issued
    case FromFetch(entry) => (i, entry) in s.issued
    case FromCache(token, expiresAt, checkedAt) =>
      EverIssued(s, CachedToken(token, expiresAt)) && expiresAt - checkedAt > 60 * 1_000_000_000
    case _ => true
  }

  /** Each call is issued at most one token, and none before it has missed the cache. */
  ghost predicate OneTokenPerCall(s: State) {
    && (forall i, a, b :: (i, a) in s.issued && (i, b) in s.issued ==> a == b)
    && (forall i, a :: (i, a) in s.issued ==> CallOf(s, i).Fetched? || CallOf(s, i).FromFetch?)
  }

  ghost predicate Sound(s: State) {
    && (s.cache.Some? ==> EverIssued(s, s.cache.value))
    && (forall i :: CallSound(s, i))
    && OneTokenPerCall(s)
  }

  lemma StepKeepsSound(s: State, e: Step)
    requires Sound(s) && Enabled(s, e)
    ensures Sound(Apply(s, e))
  {
    var t := Apply(s, e);
    forall entry | EverIssued(s, entry)
      ensures EverIssued(t, entry)
    {
      var i :| (i, entry) in s.issued;
      assert (i, entry) in t.issued;
    }
    forall i
      ensures CallSound(t, i)
    {
      assert CallSound(s, i);
    }
    if e.WriteBack? {
      assert CallSound(s, e.call);
      assert (e.call, t.cache.value) in t.issued;
    }
  }

  /** In every interleaving: the cache holds a token that was issued, with that token's own expiry; a
      token answered from the cache had more than the buffer left when it was checked; any other
      successful answer is the call's own fetch. */
  lemma {:induction false} EveryInterleaving(trace: seq<Step>)
    requires Run(trace).Some?
    ensures Sound(Run(trace).value)
  {
    if trace != [] {
      EveryInterleaving(trace[..|trace| - 1]);
      StepKeepsSound(Run(trace[..|trace| - 1]).value, trace[|trace| - 1]);
    }
  }

  /** A call that nothing interleaves with leaves the cache as the sequential provider does, and ends the
      way that provider's call ends. */
  lemma AloneIsSequential(s: State, i: nat, fetched: Result<AccessToken, ()>, fetchedAt: int)
    requires CallOf(s, i) == NotStarted
    ensures Alone(s, i, fetched, fetchedAt).cache == CacheAfter(s.cache, s.now, fetched, fetchedAt)
    ensures match CallOf(Alone(s, i, fetched, fetchedAt), i)
            case FromCache(token, expiresAt, checkedAt) =>
              s.cache == Some(CachedToken(token, expiresAt)) && IsValid(s.cache.value, s.now)
            case FromFetch(entry) => fetched.Ok? && entry == Entry(fetched.value, fetchedAt)
            case Failed => fetched.Err?
            case _ => false
  {
  }

  /** Check, then, after a miss, the answer at `fetchedAt` and the write-back. */
  function Alone(s: State, i: nat, fetched: Result<AccessToken, ()>, fetchedAt: int): State
    requires CallOf(s, i) == NotStarted
  {
    var checked := Apply(s, Check(i));
    if CallOf(checked, i) != Fetching then checked
    else
      var later := Apply(checked, Clock(fetchedAt));
      match fetched
      case Ok(answer) => Apply(Apply(later, FetchOk(i, answer)), WriteBack(i))
      case Err(_) => Apply(later, FetchErr(i))
  }

  /** The call that wrote the cache last, if any did. */
  function LastWriter(trace: seq<Step>): Option<nat> {
    if trace == [] then None
    else if trace[|trace| - 1].WriteBack? then Some(trace[|trace| - 1].call)
    else LastWriter(trace[..|trace| - 1])
  }

  /** In every interleaving the cache is empty until the first write-back and then holds the one token that
      was issued to the call that wrote last, whatever fetches have failed or are under way. */
  lemma {:induction false} CacheIsLastWriters(trace: seq<Step>)
    requires Run(trace).Some?
    ensures Run(trace).value.cache.Some? <==> LastWriter(trace).Some?
    ensures LastWriter(trace).Some? ==>
      forall entry :: (LastWriter(trace).value, entry) in Run(trace).value.issued
                      <==> Run(trace).value.cache == Some(entry)
  {
    if trace != [] {
      var init, last := trace[..|trace| - 1], trace[|trace| - 1];
      var s := Run(init).value;
      CacheIsLastWriters(init);
      EveryInterleaving(init);
      EveryInterleaving(trace);
      if last.WriteBack? {
        assert CallSound(s, last.call);
      } else if LastWriter(init).Some? {
        assert (LastWriter(init).value, s.cache.value) in s.issued;
      }
    }
  }

  /** The race the program allows: two calls miss together, and the slower one overwrites the newer
      token with an older one. */
  lemma SlowWriterWins(older: AccessToken, newer: AccessToken)
    requires 0 < older.expiresOn < newer.expiresOn
    ensures var s := Run([Check(0), Check(1), FetchOk(0, older), FetchOk(1, newer), WriteBack(1), WriteBack(0)]);
            && s.Some?
            && s.value.cache == Some(Entry(older, 0))
            && s.value.cache.value.expiresAt < Entry(newer, 0).expiresAt
            && EverIssued(s.value, Entry(newer, 0))
  {
    var t1, t2, t3, t4, t5, t6 := [Check(0)], [Check(0), Check(1)], [Check(0), Check(1), FetchOk(0, older)],
      [Check(0), Check(1), FetchOk(0, older), FetchOk(1, newer)],
      [Check(0), Check(1), FetchOk(0, older), FetchOk(1, newer), WriteBack(1)],
      [Check(0), Check(1), FetchOk(0, older), FetchOk(1, newer), WriteBack(1), WriteBack(0)];
    assert t1[..0] == [] && t2[..1] == t1 && t3[..2] == t2 && t4[..3] == t3 && t5[..4] == t4 && t6[..5] == t5;
    assert Run(t1) == Some(Apply(START, Check(0)));
    assert Run(t2) == Some(Apply(Run(t1).value, Check(1)));
    assert Run(t3) == Some(Apply(Run(t2).value, FetchOk(0, older)));
    assert Run(t4) == Some(Apply(Run(t3).value, FetchOk(1, newer)));
    assert Run(t5) == Some(Apply(Run(t4).value, WriteBack(1)));
    assert Run(t6) == Some(Apply(Run(t5).value, WriteBack(0)));
    assert (1, Entry(newer, 0)) in Run(t6).value.issued;
  }

  // ----- How often a sequential caller fetches -------------------------------------------------

  /** One uninterrupted call: the clock at the check, and the credential's answer if it was asked, with
      the clock when it came in. */
  datatype Visit = Visit(checkedAt: int, answer: Option<AccessToken>, answeredAt: int)

  /** The cache a run of sequential calls leaves behind. */
  function CacheAfterAll(visits: seq<Visit>): Option<CachedToken> {
    if visits == [] then None
    else
      var v := visits[|visits| - 1];
      CacheAfter(CacheAfterAll(visits[..|visits| - 1]), v.checkedAt,
                 if v.answer.Some? then Ok(v.answer.value) else Err(()), v.answeredAt)
  }

  /** Whether the last call of a run missed the cache. */
  predicate Misses(visits: seq<Visit>)
    requires visits != []
  {
    var before := CacheAfterAll(visits[..|visits| - 1]);
    !(before.Some? && IsValid(before.value, visits[|visits| - 1].checkedAt))
  }

  /** The instants at which the credential answered a call, with a token if `issued` and else with an
      error, in order. */
  function AnswerTimes(visits: seq<Visit>, issued: bool): seq<int> {
    if visits == [] then []
    else
      var rest := AnswerTimes(visits[..|visits| - 1], issued);
      if Misses(visits) && visits[|visits| - 1].answer.Some? == issued
      then rest + [visits[|visits| - 1].answeredAt]
      else rest
  }

  function IssueTimes(visits: seq<Visit>): seq<int> {
    AnswerTimes(visits, true)
  }

  /** The instants at which calls that missed the cache had their answer. */
  function FetchTimes(visits: seq<Visit>): seq<int> {
    if visits == [] then []
    else
      var rest := FetchTimes(visits[..|visits| - 1]);
      if Misses(visits) then rest + [visits[|visits| - 1].answeredAt] else rest
  }

  lemma {:induction false} FetchesSucceedOrFail(visits: seq<Visit>, p: int -> bool)
    ensures |Where(FetchTimes(visits), p)|
            == |Where(AnswerTimes(visits, true), p)| + |Where(AnswerTimes(visits, false), p)|
  {
    if visits != [] {
      var init, t := visits[..|visits| - 1], visits[|visits| - 1].answeredAt;
      FetchesSucceedOrFail(init, p);
      WhereSnoc(FetchTimes(init), t, p);
      WhereSnoc(AnswerTimes(init, true), t, p);
      WhereSnoc(AnswerTimes(init, false), t, p);
    }
  }

  /** A monotone clock that never gets within a buffer of its end, and tokens that live at least
      `lifetime` from issue. */
  ghost predicate Regular(visits: seq<Visit>, lifetime: int) {
    && (forall i :: 0 <= i < |visits| ==>
          visits[i].checkedAt <= visits[i].answeredAt && visits[i].checkedAt + REFRESH_BUFFER <= TIME_LIMIT)
    && (forall i, j :: 0 <= i < j < |visits| ==> visits[i].answeredAt <= visits[j].checkedAt)
    && (forall i :: 0 <= i < |visits| && visits[i].answer.Some? ==>
          Entry(visits[i].answer.value, visits[i].answeredAt).expiresAt >= visits[i].answeredAt + lifetime)
  }

  ghost predicate SpacedBy(times: seq<int>, gap: int) {
    forall i :: 0 < i < |times| ==> times[i] - times[i - 1] >= gap
  }

  lemma {:induction false} FetchesAreSpaced(visits: seq<Visit>, lifetime: int)
    requires Regular(visits, lifetime)
    ensures var times := IssueTimes(visits);
            && SpacedBy(times, lifetime - 60 * 1_000_000_000)
            && (times == [] <==> CacheAfterAll(visits) == None)
            && (times != [] ==> && CacheAfterAll(visits).value.expiresAt >= times[|times| - 1] + lifetime
                                && times[|times| - 1] <= visits[|visits| - 1].answeredAt)
  {
    if visits != [] {
      var init := visits[..|visits| - 1];
      FetchesAreSpaced(init, lifetime);
      var before := IssueTimes(init);
      if Misses(visits) && before != [] {
        assert visits[|init| - 1].answeredAt <= visits[|init|].checkedAt;
      }
    }
  }

  /** Spaced instants within a window: the number of gaps times the gap is at most the window. */
  lemma {:induction false} SpanOfSpaced(times: seq<int>, gap: nat, i: nat, j: nat)
    requires SpacedBy(times, gap) && i <= j < |times|
    ensures times[j] - times[i] >= Times(gap, j - i)
    decreases j - i
  {
    if i < j {
      SpanOfSpaced(times, gap, i, j - 1);
    }
  }

  function Within(from: int, window: nat): int -> bool {
    t => from <= t <= from + window
  }

  lemma {:induction false} SelectionStaysSpaced(times: seq<int>, gap: nat, p: int -> bool)
    requires SpacedBy(times, gap)
    ensures var kept := Where(times, p);
            && SpacedBy(kept, gap)
            && (forall t :: t in kept ==> p(t))
            && (kept != [] ==> times != [] && kept[|kept| - 1] <= times[|times| - 1])
  {
    if times != [] {
      SelectionStaysSpaced(times[..|times| - 1], gap, p);
    }
  }

  /** Each call in turn is counted as a fetch, at the time its answer came in, just when the cache left by
      the calls before it holds nothing with more than 60 s to live. */
  lemma MissesAreFetches(visits: seq<Visit>, i: nat)
    requires i < |visits| && visits[i].checkedAt + 60 * 1_000_000_000 <= TIME_LIMIT
    ensures var cache := CacheAfterAll(visits[..i]);
            FetchTimes(visits[..i + 1])
            == FetchTimes(visits[..i])
               + if cache.Some? && cache.value.expiresAt - visits[i].checkedAt > 60 * 1_000_000_000 then []
                 else [visits[i].answeredAt]
  {
    assert visits[..i + 1][..i] == visits[..i];
  }

  /** No more tokens are issued in a window than fit at that spacing. */
  lemma IssueBound(visits: seq<Visit>, lifetime: int, from: int, window: nat)
    requires Regular(visits, lifetime) && lifetime > 60 * 1_000_000_000
    ensures |Where(IssueTimes(visits), Within(from, window))| <= window / (lifetime - 60 * 1_000_000_000) + 1
  {
    var gap := lifetime - REFRESH_BUFFER;
    var kept := Where(IssueTimes(visits), Within(from, window));
    FetchesAreSpaced(visits, lifetime);
    SelectionStaysSpaced(IssueTimes(visits), gap, Within(from, window));
    QuotRem(window, gap);
    QuotIsDivision(window, gap);
    if |kept| > Quot(window, gap) + 1 {
      assert Within(from, window)(kept[0]) && Within(from, window)(kept[|kept| - 1]);
      SpanOfSpaced(kept, gap, 0, |kept| - 1);
      TimesMono(gap, Quot(window, gap) + 1, |kept| - 1);
    }
  }

  /** A single caller on a monotone clock, whose tokens live at least `lifetime` > 60 s from issue, fetches
      at most `floor(window / (lifetime - 60 s)) + 1` times in any window of time, not counting the fetches
      that fail. */
  lemma FetchBound(visits: seq<Visit>, lifetime: int, from: int, window: nat)
    requires Regular(visits, lifetime) && lifetime > 60 * 1_000_000_000
    ensures var p := Within(from, window);
            |Where(FetchTimes(visits), p)|
            <= window / (lifetime - 60 * 1_000_000_000) + 1 + |Where(AnswerTimes(visits, false), p)|
  {
    FetchesSucceedOrFail(visits, Within(from, window));
    IssueBound(visits, lifetime, from, window);
  }
}
