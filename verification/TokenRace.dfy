/** When a racing write-back replaces a token with one that expires earlier.

    A run is reduced to its moves: which calls missed the cache, were answered, failed and wrote back, in
    what order.  Clock readings, token lifetimes and cache hits are left free, and the question is for
    which orders of moves no choice of them can lower the cached expiry. */
module TokenRace {
  import opened Wrappers
  import opened TokenCache

  datatype Move =
    | Miss(call: nat)   // found no valid token in the cache
    | Fetch(call: nat)  // was issued a token
    | Fail(call: nat)   // was refused one
    | Write(call: nat)  // wrote its token back

  /** The moves of a run, in order. */
  function Moves(trace: seq<Step>): seq<Move>
    requires Run(trace).Some?
  {
    if trace == [] then []
    else
      var init, last := trace[..|trace| - 1], trace[|trace| - 1];
      var cache := Run(init).value.cache;
      match last
      case Clock(_) => Moves(init)
      case Check(i) =>
        if cache.Some? && IsValid(cache.value, Run(init).value.now) then Moves(init) else Moves(init) + [Miss(i)]
      case FetchOk(i, _) => Moves(init) + [Fetch(i)]
      case FetchErr(i) => Moves(init) + [Fail(i)]
      case WriteBack(i) => Moves(init) + [Write(i)]
  }

  datatype Phase = Idle | Asking | Holding | Over

  function PhaseOf(moves: seq<Move>, i: nat): Phase {
    if moves == [] then Idle
    else if moves[|moves| - 1].call != i then PhaseOf(moves[..|moves| - 1], i)
    else match moves[|moves| - 1]
      case Miss(_) => Asking
      case Fetch(_) => Holding
      case _ => Over
  }

  /** Every call misses first, is then answered, and writes back only a token it was issued. */
  predicate Legal(moves: seq<Move>) {
    moves == []
    || var init, last := moves[..|moves| - 1], moves[|moves| - 1];
       && Legal(init)
       && PhaseOf(init, last.call) == match last case Miss(_) => Idle case Write(_) => Holding case _ => Asking
  }

  ghost predicate NoWriteAfter(moves: seq<Move>, q: nat) {
    forall p :: q < p < |moves| ==> !moves[p].Write?
  }

  /** Since the last write-back some call has missed. */
  ghost predicate MissedSinceWrite(moves: seq<Move>) {
    exists q :: 0 <= q < |moves| && moves[q].Miss? && NoWriteAfter(moves, q)
  }

  /** Since the last write-back some call has missed, and call `i` was issued its token after that. */
  ghost predicate Fresh(moves: seq<Move>, i: nat) {
    exists q, f :: 0 <= q < f < |moves| && moves[q].Miss? && moves[f] == Fetch(i) && NoWriteAfter(moves, q)
  }

  /** Writing call `i`'s token back would lower the cached expiry. */
  predicate Lowers(s: State, i: nat) {
    CallOf(s, i).Fetched? && s.cache.Some? && CallOf(s, i).entry.expiresAt < s.cache.value.expiresAt
  }

  /** The clock does not run backwards or reach its end, and tokens live for more than a minute. */
  ghost predicate RegularStep(s: State, e: Step) {
    match e
    case Clock(now) => s.now <= now && now + REFRESH_BUFFER <= TIME_LIMIT
    case FetchOk(_, answer) => Entry(answer, s.now).expiresAt - s.now > 60 * 1_000_000_000
    case _ => true
  }

  ghost predicate RegularRun(trace: seq<Step>) {
    && Run(trace).Some?
    && (trace == [] || (&& RegularRun(trace[..|trace| - 1])
                        && RegularStep(Run(trace[..|trace| - 1]).value, trace[|trace| - 1])))
  }

  // ----- A miss since the last write-back keeps the expiry from falling ------------------------

  lemma MissedSnoc(moves: seq<Move>, m: Move)
    ensures MissedSinceWrite(moves + [m]) <==> m.Miss? || (!m.Write? && MissedSinceWrite(moves))
  {
    var both := moves + [m];
    assert both[|moves|] == m && forall p :: 0 <= p < |moves| ==> moves[p] == both[p];
    if m.Miss? {
      assert both[|moves|].Miss? && NoWriteAfter(both, |moves|);
    } else if !m.Write? {
      if q :| 0 <= q < |moves| && moves[q].Miss? && NoWriteAfter(moves, q) {
        assert both[q].Miss? && NoWriteAfter(both, q);
      }
      if q :| 0 <= q < |both| && both[q].Miss? && NoWriteAfter(both, q) {
        assert moves[q].Miss? && NoWriteAfter(moves, q);
      }
    }
  }

  lemma FreshSnoc(moves: seq<Move>, m: Move, i: nat)
    ensures Fresh(moves + [m], i) <==> !m.Write? && (Fresh(moves, i) || (m == Fetch(i) && MissedSinceWrite(moves)))
  {
    var both := moves + [m];
    assert both[|moves|] == m && forall p :: 0 <= p < |moves| ==> moves[p] == both[p];
    if Fresh(both, i) {
      var q, f :| 0 <= q < f < |both| && both[q].Miss? && both[f] == Fetch(i) && NoWriteAfter(both, q);
      assert NoWriteAfter(moves, q) && moves[q].Miss?;
      assert f < |moves| ==> moves[f] == Fetch(i);
    }
    if !m.Write? && Fresh(moves, i) {
      var q, f :| 0 <= q < f < |moves| && moves[q].Miss? && moves[f] == Fetch(i) && NoWriteAfter(moves, q);
      assert both[q].Miss? && both[f] == Fetch(i) && NoWriteAfter(both, q);
    }
    if m == Fetch(i) && MissedSinceWrite(moves) {
      var q :| 0 <= q < |moves| && moves[q].Miss? && NoWriteAfter(moves, q);
      assert both[q].Miss? && both[|moves|] == Fetch(i) && NoWriteAfter(both, q);
    }
  }

  ghost predicate SamePhase(c: Call, p: Phase) {
    match c
    case NotStarted => p == Idle
    case FromCache(_, _, _) => p == Idle
    case Fetching => p == Asking
    case Fetched(_) => p == Holding
    case _ => p == Over
  }

  /** What a regular run keeps: a cache that was missed has run out, and a fresh token outlives it. */
  ghost predicate RaceInvariant(s: State, moves: seq<Move>) {
    && s.now + REFRESH_BUFFER <= TIME_LIMIT
    && Legal(moves)
    && (forall i :: SamePhase(CallOf(s, i), PhaseOf(moves, i)))
    && (s.cache.Some? && MissedSinceWrite(moves) ==> s.cache.value.expiresAt <= s.now + REFRESH_BUFFER)
    && (forall i :: CallOf(s, i).Fetched? && Fresh(moves, i) && s.cache.Some? ==>
          CallOf(s, i).entry.expiresAt > s.cache.value.expiresAt)
  }

  lemma PhaseSnoc(moves: seq<Move>, m: Move)
    ensures forall i :: i != m.call ==> PhaseOf(moves + [m], i) == PhaseOf(moves, i)
    ensures PhaseOf(moves + [m], m.call) == match m case Miss(_) => Asking case Fetch(_) => Holding case _ => Over
    ensures Legal(moves + [m])
            <==> && Legal(moves)
                 && PhaseOf(moves, m.call) == match m case Miss(_) => Idle case Write(_) => Holding case _ => Asking
  {
    assert (moves + [m])[..|moves|] == moves;
  }

  /** The move a step makes, if any. */
  function MoveOf(s: State, e: Step): Option<Move> {
    match e
    case Clock(_) => None
    case Check(i) => if s.cache.Some? && IsValid(s.cache.value, s.now) then None else Some(Miss(i))
    case FetchOk(i, _) => Some(Fetch(i))
    case FetchErr(i) => Some(Fail(i))
    case WriteBack(i) => Some(Write(i))
  }

  lemma QuietStep(s: State, moves: seq<Move>, e: Step)
    requires RaceInvariant(s, moves) && Enabled(s, e) && RegularStep(s, e) && MoveOf(s, e) == None
    ensures RaceInvariant(Apply(s, e), moves)
  {
    var t := Apply(s, e);
    forall i
      ensures SamePhase(CallOf(t, i), PhaseOf(moves, i))
      ensures CallOf(t, i).Fetched? ==> CallOf(s, i) == CallOf(t, i)
    {
      assert SamePhase(CallOf(s, i), PhaseOf(moves, i));
    }
  }

  lemma MovingStep(s: State, moves: seq<Move>, e: Step, m: Move)
    requires RaceInvariant(s, moves) && Enabled(s, e) && RegularStep(s, e) && MoveOf(s, e) == Some(m)
    ensures RaceInvariant(Apply(s, e), moves + [m])
  {
    var t := Apply(s, e);
    PhaseSnoc(moves, m);
    MissedSnoc(moves, m);
    assert SamePhase(CallOf(s, m.call), PhaseOf(moves, m.call));
    forall i
      ensures SamePhase(CallOf(t, i), PhaseOf(moves + [m], i))
      ensures CallOf(t, i).Fetched? && Fresh(moves + [m], i) && t.cache.Some? ==>
        CallOf(t, i).entry.expiresAt > t.cache.value.expiresAt
    {
      assert SamePhase(CallOf(s, i), PhaseOf(moves, i));
      FreshSnoc(moves, m, i);
      if i == m.call && m.Fetch? {
        NotYetFetched(moves, i);
      }
    }
  }

  /** A call that is still asking has not been issued a token. */
  lemma {:induction false} NotYetFetched(moves: seq<Move>, i: nat)
    requires Legal(moves) && PhaseOf(moves, i) in {Idle, Asking}
    ensures Fetch(i) !in moves && !Fresh(moves, i)
  {
    if moves != [] {
      var init, last := moves[..|moves| - 1], moves[|moves| - 1];
      assert moves == init + [last];
      PhaseSnoc(init, last);
      NotYetFetched(init, i);
    }
  }

  lemma {:induction false} RegularRunsKeep(trace: seq<Step>)
    requires RegularRun(trace)
    ensures RaceInvariant(Run(trace).value, Moves(trace))
  {
    if trace != [] {
      var init, last := trace[..|trace| - 1], trace[|trace| - 1];
      var s := Run(init).value;
      RegularRunsKeep(init);
      match MoveOf(s, last)
      case None => QuietStep(s, Moves(init), last);
      case Some(m) => MovingStep(s, Moves(init), last, m);
    }
  }

  /** In a regular run the write-back of a fresh token raises the cached expiry. */
  lemma FreshWritesRaise(trace: seq<Step>, i: nat)
    requires RegularRun(trace) && CallOf(Run(trace).value, i).Fetched? && Fresh(Moves(trace), i)
    ensures var s := Run(trace).value;
            s.cache.Some? ==> CallOf(s, i).entry.expiresAt > s.cache.value.expiresAt
  {
    RegularRunsKeep(trace);
  }

  lemma {:induction false} HoldingMissedAndFetched(moves: seq<Move>, i: nat) returns (q: nat, f: nat)
    requires Legal(moves) && PhaseOf(moves, i) == Holding
    ensures q < f < |moves| && moves[q] == Miss(i) && moves[f] == Fetch(i)
  {
    var init, last := moves[..|moves| - 1], moves[|moves| - 1];
    if last.call != i {
      q, f := HoldingMissedAndFetched(init, i);
    } else {
      f := |moves| - 1;
      q := AskingMissed(init, i);
    }
  }

  lemma {:induction false} AskingMissed(moves: seq<Move>, i: nat) returns (q: nat)
    requires Legal(moves) && PhaseOf(moves, i) == Asking
    ensures q < |moves| && moves[q] == Miss(i)
  {
    q := |moves| - 1;
    if moves[q].call != i {
      q := AskingMissed(moves[..q], i);
    }
  }

  /** In a regular run a write-back lowers the cached expiry only if another call has written back since
      the writer's own check. */
  lemma LowersOnlyIfOvertaken(trace: seq<Step>, i: nat) returns (q: nat, w: nat)
    requires RegularRun(trace) && Lowers(Run(trace).value, i)
    ensures q < w < |Moves(trace)| && Moves(trace)[q] == Miss(i)
    ensures Moves(trace)[w].Write? && Moves(trace)[w].call != i
  {
    var moves := Moves(trace);
    RegularRunsKeep(trace);
    assert SamePhase(CallOf(Run(trace).value, i), PhaseOf(moves, i));
    var f;
    q, f := HoldingMissedAndFetched(moves, i);
    assert !Fresh(moves, i);
    w :| q < w < |moves| && moves[w].Write?;
    WritersAreOver(moves, w);
  }

  lemma {:induction false} WritersAreOver(moves: seq<Move>, w: nat)
    requires Legal(moves) && w < |moves| && moves[w].Write?
    ensures PhaseOf(moves, moves[w].call) == Over
  {
    var m := |moves| - 1;
    if w < m {
      WritersAreOver(moves[..m], w);
    }
  }

  // ----- No overlapping misses -----------------------------------------------------------------

  predicate InFlight(moves: seq<Move>, i: nat) {
    PhaseOf(moves, i) == Asking || PhaseOf(moves, i) == Holding
  }

  ghost predicate NoneInFlight(moves: seq<Move>) {
    forall i :: !InFlight(moves, i)
  }

  /** No call misses while another is between its miss and its write-back. */
  ghost predicate Serial(moves: seq<Move>) {
    moves == []
    || (&& Serial(moves[..|moves| - 1])
        && (moves[|moves| - 1].Miss? ==> NoneInFlight(moves[..|moves| - 1])))
  }

  lemma {:induction false} SerialKeepsFresh(moves: seq<Move>)
    requires Legal(moves) && Serial(moves)
    ensures forall i, j :: InFlight(moves, i) && InFlight(moves, j) ==> i == j
    ensures forall i :: PhaseOf(moves, i) == Asking ==> MissedSinceWrite(moves)
    ensures forall i :: PhaseOf(moves, i) == Holding ==> Fresh(moves, i)
  {
    if moves != [] {
      var init, last := moves[..|moves| - 1], moves[|moves| - 1];
      assert moves == init + [last];
      SerialKeepsFresh(init);
      PhaseSnoc(init, last);
      MissedSnoc(init, last);
      forall i | InFlight(moves, i)
        ensures i == last.call && (PhaseOf(moves, i) == Holding ==> Fresh(moves, i))
      {
        FreshSnoc(init, last, i);
        assert i != last.call ==> InFlight(init, i);
        assert !last.Miss? ==> InFlight(init, last.call);
      }
    }
  }

  /** A caller that lets no two misses overlap never sees the cached expiry fall. */
  lemma SerialNeverLowers(trace: seq<Step>, i: nat)
    requires RegularRun(trace) && Serial(Moves(trace))
    ensures !Lowers(Run(trace).value, i)
  {
    RegularRunsKeep(trace);
    SerialKeepsFresh(Moves(trace));
    assert SamePhase(CallOf(Run(trace).value, i), PhaseOf(Moves(trace), i));
  }

  // ----- Any other order of moves can lower it -------------------------------------------------

  function LastWriteBy(moves: seq<Move>): Option<nat> {
    if moves == [] then None
    else if moves[|moves| - 1].Write? then Some(moves[|moves| - 1].call)
    else LastWriteBy(moves[..|moves| - 1])
  }

  function FetchPosition(moves: seq<Move>, i: nat): nat {
    if moves == [] then 0
    else if moves[|moves| - 1] == Fetch(i) then |moves| - 1
    else FetchPosition(moves[..|moves| - 1], i)
  }

  /** The expiry, in seconds, of the token issued to `call` at position `p`, with a move every two seconds:
      the least that lives long enough, but past a fetch at position `f` for call `j`. */
  function ExpiryOf(p: nat, call: nat, j: nat, f: nat): nat {
    if call == j && f >= p then 2 * f + 62 else 2 * p + 61
  }

  function StepFor(m: Move, p: nat, j: nat, f: nat): Step {
    match m
    case Miss(i) => Check(i)
    case Fetch(i) => FetchOk(i, AccessToken("", ExpiryOf(p, i, j, f)))
    case Fail(i) => FetchErr(i)
    case Write(i) => WriteBack(i)
  }

  /** A run with the given moves. */
  function Built(moves: seq<Move>, j: nat, f: nat): seq<Step> {
    if moves == [] then []
    else
      var p := |moves| - 1;
      Built(moves[..p], j, f) + [Clock(2 * p * TICKS_PER_SEC)] + [StepFor(moves[p], p, j, f)]
  }

  /** No call misses while call `j`'s token is cached until after position `f`. */
  ghost predicate LateMisses(moves: seq<Move>, j: nat, f: nat) {
    forall q :: 0 <= q < |moves| && moves[q].Miss? && LastWriteBy(moves[..q]) == Some(j) ==> f < q
  }

  function TokenOf(moves: seq<Move>, i: nat, j: nat, f: nat): CachedToken {
    CachedToken("", ExpiryOf(FetchPosition(moves, i), i, j, f) * TICKS_PER_SEC)
  }

  ghost predicate BuiltCall(moves: seq<Move>, s: State, i: nat, j: nat, f: nat) {
    && !CallOf(s, i).FromCache?
    && SamePhase(CallOf(s, i), PhaseOf(moves, i))
    && (PhaseOf(moves, i) == Holding ==>
          CallOf(s, i).entry == TokenOf(moves, i, j, f) && FetchPosition(moves, i) < |moves|)
  }

  ghost predicate BuiltCache(moves: seq<Move>, cache: Option<CachedToken>, j: nat, f: nat) {
    match LastWriteBy(moves)
    case None => cache == None
    case Some(i) =>
      cache == Some(TokenOf(moves, i, j, f)) && PhaseOf(moves, i) == Over && FetchPosition(moves, i) < |moves|
  }

  ghost predicate BuiltState(moves: seq<Move>, s: State, j: nat, f: nat) {
    && 0 <= s.now <= 2 * |moves| * TICKS_PER_SEC
    && (forall i :: BuiltCall(moves, s, i, j, f))
    && BuiltCache(moves, s.cache, j, f)
  }

  lemma RunSnoc(trace: seq<Step>, e: Step)
    requires Run(trace).Some? && Enabled(Run(trace).value, e)
    ensures Run(trace + [e]) == Some(Apply(Run(trace).value, e))
    ensures Moves(trace + [e])
            == match MoveOf(Run(trace).value, e) case None => Moves(trace) case Some(m) => Moves(trace) + [m]
    ensures RegularRun(trace) && RegularStep(Run(trace).value, e) ==> RegularRun(trace + [e])
  {
    assert (trace + [e])[..|trace|] == trace;
  }

  /** A clock reading and a step that makes a move. */
  lemma RunTwo(trace: seq<Step>, tick: Step, s: State, e: Step, m: Move)
    requires RegularRun(trace) && tick.Clock? && s == Run(trace).value.(now := tick.now)
    requires RegularStep(Run(trace).value, tick)
    requires Enabled(s, e) && MoveOf(s, e) == Some(m) && RegularStep(s, e)
    ensures var both := trace + [tick] + [e];
            && RegularRun(both) && Run(both) == Some(Apply(s, e))
            && Moves(both) == Moves(trace) + [m]
  {
    RunSnoc(trace, tick);
    RunSnoc(trace + [tick], e);
  }

  lemma FetchPositionSnoc(moves: seq<Move>, m: Move, i: nat)
    ensures FetchPosition(moves + [m], i) == if m == Fetch(i) then |moves| else FetchPosition(moves, i)
    ensures LastWriteBy(moves + [m]) == if m.Write? then Some(m.call) else LastWriteBy(moves)
  {
    assert (moves + [m])[..|moves|] == moves;
  }

  /** What is cached has run out by the next miss. */
  lemma BuiltCacheRunsOut(moves: seq<Move>, cache: Option<CachedToken>, now: int, j: nat, f: nat)
    requires BuiltCache(moves, cache, j, f) && now == 2 * |moves| * TICKS_PER_SEC
    requires LastWriteBy(moves) == Some(j) ==> f < |moves|
    ensures cache.Some? ==> !IsValid(cache.value, now)
  {
  }

  /** The next move of a built run is the one its step makes. */
  lemma BuildEnabled(moves: seq<Move>, m: Move, s: State, j: nat, f: nat)
    requires Legal(moves + [m]) && BuiltCall(moves, s, m.call, j, f)
    requires s.now == 2 * |moves| * TICKS_PER_SEC
    requires m.Miss? && s.cache.Some? ==> !IsValid(s.cache.value, s.now)
    ensures var e := StepFor(m, |moves|, j, f);
            Enabled(s, e) && MoveOf(s, e) == Some(m) && RegularStep(s, e)
  {
    PhaseSnoc(moves, m);
  }

  lemma BuildOtherCall(moves: seq<Move>, m: Move, s: State, i: nat, j: nat, f: nat)
    requires BuiltCall(moves, s, i, j, f) && i != m.call && Enabled(s, StepFor(m, |moves|, j, f))
    ensures BuiltCall(moves + [m], Apply(s, StepFor(m, |moves|, j, f)), i, j, f)
  {
    var t := Apply(s, StepFor(m, |moves|, j, f));
    PhaseSnoc(moves, m);
    FetchPositionSnoc(moves, m, i);
    assert CallOf(t, i) == CallOf(s, i) && PhaseOf(moves + [m], i) == PhaseOf(moves, i);
  }

  lemma BuildOwnCall(moves: seq<Move>, m: Move, s: State, j: nat, f: nat)
    requires BuiltCall(moves, s, m.call, j, f)
    requires var e := StepFor(m, |moves|, j, f); Enabled(s, e) && MoveOf(s, e) == Some(m)
    ensures BuiltCall(moves + [m], Apply(s, StepFor(m, |moves|, j, f)), m.call, j, f)
  {
    PhaseSnoc(moves, m);
    FetchPositionSnoc(moves, m, m.call);
  }

  lemma BuildCache(moves: seq<Move>, m: Move, s: State, j: nat, f: nat)
    requires Legal(moves + [m]) && BuiltCache(moves, s.cache, j, f) && BuiltCall(moves, s, m.call, j, f)
    requires var e := StepFor(m, |moves|, j, f); Enabled(s, e) && MoveOf(s, e) == Some(m)
    ensures BuiltCache(moves + [m], Apply(s, StepFor(m, |moves|, j, f)).cache, j, f)
  {
    PhaseSnoc(moves, m);
    FetchPositionSnoc(moves, m, m.call);
    if LastWriteBy(moves).Some? {
      FetchPositionSnoc(moves, m, LastWriteBy(moves).value);
    }
  }

  lemma ClockKeepsBuilt(moves: seq<Move>, s: State, j: nat, f: nat)
    requires BuiltState(moves, s, j, f)
    ensures BuiltState(moves, s.(now := 2 * |moves| * TICKS_PER_SEC), j, f)
  {
    forall i
      ensures BuiltCall(moves, s.(now := 2 * |moves| * TICKS_PER_SEC), i, j, f)
    {
      assert BuiltCall(moves, s, i, j, f);
    }
  }

  /** One more move of the built run. */
  lemma BuildStep(moves: seq<Move>, m: Move, s: State, j: nat, f: nat)
    requires Legal(moves + [m]) && BuiltState(moves, s, j, f)
    requires s.now == 2 * |moves| * TICKS_PER_SEC
    requires m.Miss? && LastWriteBy(moves) == Some(j) ==> f < |moves|
    ensures var e := StepFor(m, |moves|, j, f);
            && Enabled(s, e) && MoveOf(s, e) == Some(m) && RegularStep(s, e)
            && BuiltState(moves + [m], Apply(s, e), j, f)
  {
    assert BuiltCall(moves, s, m.call, j, f);
    if m.Miss? {
      BuiltCacheRunsOut(moves, s.cache, s.now, j, f);
    }
    BuildEnabled(moves, m, s, j, f);
    forall i
      ensures BuiltCall(moves + [m], Apply(s, StepFor(m, |moves|, j, f)), i, j, f)
    {
      assert BuiltCall(moves, s, i, j, f);
      if i == m.call {
        BuildOwnCall(moves, m, s, j, f);
      } else {
        BuildOtherCall(moves, m, s, i, j, f);
      }
    }
    BuildCache(moves, m, s, j, f);
  }

  lemma LateMissesBefore(moves: seq<Move>, j: nat, f: nat, p: nat)
    requires LateMisses(moves, j, f) && p <= |moves|
    ensures LateMisses(moves[..p], j, f)
  {
    forall q | 0 <= q < p && moves[..p][q].Miss? && LastWriteBy(moves[..p][..q]) == Some(j)
      ensures f < q
    {
      assert moves[..q] == moves[..p][..q] && moves[q] == moves[..p][q];
    }
  }

  lemma ClockFits(s: State, count: nat)
    requires s.now <= 2 * count * TICKS_PER_SEC && 2 * count + 60 <= 0x7FFF_FFFF_FFFF_FFFF
    ensures RegularStep(s, Clock(2 * count * TICKS_PER_SEC))
  {
  }

  ghost predicate BuiltWell(moves: seq<Move>, j: nat, f: nat) {
    && RegularRun(Built(moves, j, f))
    && Moves(Built(moves, j, f)) == moves
    && BuiltState(moves, Run(Built(moves, j, f)).value, j, f)
  }

  lemma BuildOneMore(moves: seq<Move>, m: Move, j: nat, f: nat)
    requires BuiltWell(moves, j, f) && Legal(moves + [m]) && 2 * |moves| + 60 <= 0x7FFF_FFFF_FFFF_FFFF
    requires m.Miss? && LastWriteBy(moves) == Some(j) ==> f < |moves|
    ensures BuiltWell(moves + [m], j, f)
  {
    var p, trace := |moves|, Built(moves, j, f);
    var before := Run(trace).value;
    var s := before.(now := 2 * p * TICKS_PER_SEC);
    ClockFits(before, p);
    ClockKeepsBuilt(moves, before, j, f);
    BuildStep(moves, m, s, j, f);
    RunTwo(trace, Clock(2 * p * TICKS_PER_SEC), s, StepFor(m, p, j, f), m);
    assert (moves + [m])[..p] == moves;
  }

  lemma {:induction false} BuiltRuns(moves: seq<Move>, j: nat, f: nat)
    requires Legal(moves) && LateMisses(moves, j, f)
    requires 2 * |moves| + 60 <= 0x7FFF_FFFF_FFFF_FFFF
    ensures BuiltWell(moves, j, f)
  {
    if moves != [] {
      var p := |moves| - 1;
      LateMissesBefore(moves, j, f, p);
      BuiltRuns(moves[..p], j, f);
      assert moves == moves[..p] + [moves[p]];
      BuildOneMore(moves[..p], moves[p], j, f);
    }
  }

  /** A call writes back once: if the same call wrote last at two points, nobody wrote in between. */
  lemma {:induction false} WritesOnce(moves: seq<Move>, q: nat, j: nat)
    requires Legal(moves) && q < |moves| && moves[q].Miss?
    requires LastWriteBy(moves[..q]) == Some(j) && LastWriteBy(moves) == Some(j)
    ensures NoWriteAfter(moves, q)
  {
    var m := |moves| - 1;
    var init := moves[..m];
    if q < m {
      assert init[..q] == moves[..q];
      if moves[m].Write? {
        var w := WriterIndex(moves[..q], j);
        assert init[w] == moves[..q][w];
        WritersAreOver(init, w);
      } else {
        WritesOnce(init, q, j);
      }
    }
  }

  lemma {:induction false} WriterIndex(moves: seq<Move>, j: nat) returns (w: nat)
    requires LastWriteBy(moves) == Some(j)
    ensures w < |moves| && moves[w] == Write(j)
  {
    w := |moves| - 1;
    if !moves[w].Write? {
      w := WriterIndex(moves[..w], j);
    }
  }

  lemma {:induction false} NobodyWrote(moves: seq<Move>, q: nat)
    requires LastWriteBy(moves) == None
    ensures NoWriteAfter(moves, q)
  {
    if moves != [] {
      NobodyWrote(moves[..|moves| - 1], q);
    }
  }

  lemma {:induction false} FetchPositionIs(moves: seq<Move>, i: nat)
    requires Legal(moves) && PhaseOf(moves, i) == Holding
    ensures FetchPosition(moves, i) < |moves| && moves[FetchPosition(moves, i)] == Fetch(i)
  {
    var m := |moves| - 1;
    if moves[m].call != i {
      FetchPositionIs(moves[..m], i);
    }
  }

  /** If call `i`'s token is not fresh, a regular run with the same moves lowers the expiry. */
  lemma StaleWritesCanLower(moves: seq<Move>, i: nat) returns (trace: seq<Step>)
    requires Legal(moves) && PhaseOf(moves, i) == Holding && !Fresh(moves, i)
    requires 2 * |moves| + 60 <= 0x7FFF_FFFF_FFFF_FFFF
    ensures RegularRun(trace) && Moves(trace) == moves && Lowers(Run(trace).value, i)
  {
    var q0, f0 := HoldingMissedAndFetched(moves, i);
    if LastWriteBy(moves) == None {
      NobodyWrote(moves, q0);
    }
    var j, f := LastWriteBy(moves).value, FetchPosition(moves, i);
    FetchPositionIs(moves, i);
    forall q | 0 <= q < |moves| && moves[q].Miss? && LastWriteBy(moves[..q]) == Some(j)
      ensures f < q
    {
      WritesOnce(moves, q, j);
    }
    trace := Built(moves, j, f);
    BuiltRuns(moves, j, f);
    assert BuiltCall(moves, Run(trace).value, i, j, f);
  }

  /** Given the order of the moves so far, a call's write-back lowers the cached expiry under no clock and
      no lifetimes if and only if some call, possibly the writer, has missed between the last write-back
      and the writer's fetch.  The run must not be longer than the clock can time. */
  lemma NeverLowersIff(moves: seq<Move>, i: nat)
    requires Legal(moves) && PhaseOf(moves, i) == Holding
    requires 2 * |moves| + 60 <= 0x7FFF_FFFF_FFFF_FFFF
    ensures (forall trace :: RegularRun(trace) && Moves(trace) == moves ==> !Lowers(Run(trace).value, i))
            <==> Fresh(moves, i)
  {
    if Fresh(moves, i) {
      forall trace | RegularRun(trace) && Moves(trace) == moves
        ensures !Lowers(Run(trace).value, i)
      {
        RegularRunsKeep(trace);
      }
    } else {
      var trace := StaleWritesCanLower(moves, i);
    }
  }
}
