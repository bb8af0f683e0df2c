/**
 Membership records and policy of `membership.py`: admission, backoff,
 eligibility, disclosure by cursor, revocation, and the in-memory table.
 Instants and spans are in microseconds.
 */
module Membership {
  import opened Options
  import opened Base64Url
  import opened Signing
  import opened Models
  import opened Dicts

  datatype PeerState = Active | Cooldown | StaleManifest | Rejected | Revoked

  /** The fields of a member record. */
  datatype Member = Member(
    nodeId: string,
    manifestUrl: string,
    orgId: Option<string>,
    manifestRevision: int,
    state: PeerState,
    acceptedUntil: Option<int>,
    cooldownUntil: Option<int>,
    failures: int,
    lastRefresh: Option<int>)

  /** A record as it is constructed, before any policy is applied to it. */
  function NewMember(nodeId: string, manifestUrl: string, orgId: Option<string>, revision: int): Member {
    Member(nodeId, manifestUrl, orgId, revision, Active, None, None, 0, None)
  }

  /** MemberRecord.is_eligible */
  predicate IsEligible(m: Member, now: int) {
    m.state == Active &&
    !(m.acceptedUntil.Some? && now >= m.acceptedUntil.value) &&
    !(m.cooldownUntil.Some? && now < m.cooldownUntil.value)
  }

  // ---------- backoff ----------

  datatype CooldownPolicy = CooldownPolicy(baseCooldown: int, maxCooldown: int)

  const SECOND := 1_000_000
  const DEFAULT_COOLDOWN_POLICY := CooldownPolicy(30 * SECOND, 600 * SECOND)

  /** The bounds of a timedelta: 999999999 days either way; arithmetic beyond them raises OverflowError. */
  const DAY := 86_400 * SECOND
  const MAX_SPAN := 1_000_000_000 * DAY - 1
  const MIN_SPAN := -999_999_999 * DAY

  function Pow2(n: nat): nat {
    if n == 0 then 1 else 2 * Pow2(n - 1)
  }

  function MinInt(a: int, b: int): int {
    if a <= b then a else b
  }

  function Multiplier(failures: int): nat {
    Pow2(if failures >= 1 then failures - 1 else 0)
  }

  /** CooldownPolicy.next_cooldown; None where the product does not fit a timedelta. */
  function NextCooldown(p: CooldownPolicy, failures: int): Option<int> {
    var product := p.baseCooldown * Multiplier(failures);
    if MIN_SPAN <= product <= MAX_SPAN then Some(MinInt(product, p.maxCooldown)) else None
  }

  lemma {:induction false} Pow2Monotone(m: nat, n: nat)
    requires m <= n
    ensures 1 <= Pow2(m) <= Pow2(n)
  {
    if m < n {
      Pow2Monotone(m, n - 1);
    } else if m > 0 {
      Pow2Monotone(m - 1, n - 1);
    }
  }

  lemma {:induction false} Pow2Adds(m: nat, n: nat)
    ensures Pow2(m + n) == Pow2(m) * Pow2(n)
  {
    if n > 0 {
      Pow2Adds(m, n - 1);
    }
  }

  /** One more failure doubles the product. */
  lemma ProductDoubles(p: CooldownPolicy, n: int)
    requires n >= 1
    ensures p.baseCooldown * Multiplier(n + 1) == 2 * (p.baseCooldown * Multiplier(n))
  {
  }

  lemma NextDoubles(p: CooldownPolicy, n: int)
    requires n >= 1 && p.baseCooldown >= 0 && p.maxCooldown >= 0
    requires NextCooldown(p, n + 1).Some?
    ensures NextCooldown(p, n).Some?
    ensures NextCooldown(p, n + 1).value == MinInt(2 * NextCooldown(p, n).value, p.maxCooldown)
  {
    ProductDoubles(p, n);
    NonNegativeProduct(p, n);
  }

  /** The schedule as a recurrence: the capped base, doubled and capped again with each further failure. */
  function Doubling(p: CooldownPolicy, n: int): int
    decreases n
  {
    if n <= 1 then MinInt(p.baseCooldown, p.maxCooldown) else MinInt(2 * Doubling(p, n - 1), p.maxCooldown)
  }

  /** Wherever the closed form fits a timedelta it is that recurrence. */
  lemma {:induction false} BackoffDoubles(p: CooldownPolicy, n: int)
    requires p.baseCooldown >= 0 && p.maxCooldown >= 0 && NextCooldown(p, n).Some?
    ensures NextCooldown(p, n).value == Doubling(p, n)
    decreases n
  {
    if n > 1 {
      NextDoubles(p, n - 1);
      BackoffDoubles(p, n - 1);
    } else {
      assert Multiplier(n) == 1;
    }
  }

  lemma NonNegativeProduct(p: CooldownPolicy, n: int)
    requires p.baseCooldown >= 0
    ensures p.baseCooldown * Multiplier(n) >= 0
  {
  }

  /** While it fits, the backoff never shrinks, never exceeds the maximum, and stays at it once there. */
  lemma {:induction false} BackoffGrows(p: CooldownPolicy, m: int, n: int)
    requires 1 <= m <= n && p.baseCooldown >= 0 && p.maxCooldown >= 0
    requires NextCooldown(p, n).Some?
    ensures NextCooldown(p, m).Some?
    ensures 0 <= NextCooldown(p, m).value <= NextCooldown(p, n).value <= p.maxCooldown
    ensures NextCooldown(p, m).value == p.maxCooldown ==> NextCooldown(p, n).value == p.maxCooldown
    decreases n
  {
    NonNegativeProduct(p, m);
    if m < n {
      NextDoubles(p, n - 1);
      BackoffGrows(p, m, n - 1);
    }
  }

  /**
   The schedule is described as capped at the maximum for every failure count.
   It is not: the product is built before the cap, and computing it fails
   exactly when it exceeds the largest timedelta, then for every later count too.
   */
  lemma BackoffFitsExactly(p: CooldownPolicy, n: int)
    requires p.baseCooldown >= 0
    ensures NextCooldown(p, n).Some? <==> p.baseCooldown * Multiplier(n) <= MAX_SPAN
    ensures n >= 1 && NextCooldown(p, n) == None ==> NextCooldown(p, n + 1) == None
  {
    NonNegativeProduct(p, n);
    NonNegativeProduct(p, n + 1);
    if n >= 1 {
      ProductDoubles(p, n);
    }
  }

  /** For any policy it fits exactly between the least and the largest timedelta, in microseconds. */
  lemma FitsTimedelta(p: CooldownPolicy, n: int)
    ensures NextCooldown(p, n).Some? <==>
            -86_399_999_913_600_000_000 <= p.baseCooldown * Multiplier(n) <= 86_399_999_999_999_999_999
  {
  }

  lemma Pow2Values()
    ensures Pow2(41) == 2_199_023_255_552 && Pow2(42) == 4_398_046_511_104
  {
    assert Pow2(1) == 2 && Pow2(10) == 1024;
    Pow2Adds(10, 10);
    Pow2Adds(20, 20);
    Pow2Adds(40, 1);
  }

  /** Under the default schedule that is from the forty-third failure in a row on. */
  lemma DefaultBackoffFits(n: int)
    requires n >= 1
    ensures NextCooldown(DEFAULT_COOLDOWN_POLICY, n).Some? <==> n <= 42
  {
    Pow2Values();
    BackoffFitsExactly(DEFAULT_COOLDOWN_POLICY, n);
    var power := Multiplier(n);
    assert DEFAULT_COOLDOWN_POLICY.baseCooldown * power == 30_000_000 * power;
    if n <= 42 {
      Pow2Monotone(n - 1, 41);
    } else {
      Pow2Monotone(42, n - 1);
    }
  }

  /** Its cooldowns in seconds: 30, 60, 120, 240, 480, and 600 from the sixth failure in a row on. */
  lemma DefaultCooldowns(n: int)
    requires 1 <= n <= 42
    ensures var spans := [30_000_000, 60_000_000, 120_000_000, 240_000_000, 480_000_000, 600_000_000];
      NextCooldown(DEFAULT_COOLDOWN_POLICY, n) == Some(spans[if n <= 6 then n - 1 else 5])
  {
    DefaultBackoffFits(n);
    if n > 6 {
      DefaultBackoffFits(6);
      BackoffGrows(DEFAULT_COOLDOWN_POLICY, 6, n);
    }
    assert Pow2(1) == 2 && Pow2(2) == 4 && Pow2(3) == 8 && Pow2(4) == 16 && Pow2(5) == 32;
  }

  // ---------- policy over records ----------

  function Touched(m: Member, now: int): Member {
    m.(lastRefresh := Some(now))
  }

  /** admit */
  function Admitted(m: Member, acceptedUntil: Option<int>, now: int): Member {
    Touched(m.(state := Active, acceptedUntil := acceptedUntil, failures := 0, cooldownUntil := None), now)
  }

  /** set_state */
  function WithState(m: Member, state: PeerState, now: int): Member {
    Touched(m.(state := state), now)
  }

  /** record_success */
  function Succeeded(m: Member, now: int): Member {
    Touched(m.(failures := 0, cooldownUntil := None, state := if m.state == Cooldown then Active else m.state), now)
  }

  /** record_failure; the count goes up even when computing the backoff raises, and then nothing else changes. */
  function Failed(m: Member, p: CooldownPolicy, now: int): (Member, bool) {
    var counted := m.(failures := m.failures + 1);
    match NextCooldown(p, counted.failures)
    case None => (counted, false)
    case Some(span) => (Touched(counted.(cooldownUntil := Some(now + span)), now), true)
  }

  // ---------- histories of one record ----------

  datatype Event =
    | Admit(acceptedUntil: Option<int>, now: int)
    | SetState(state: PeerState, now: int)
    | Success(now: int)
    | Failure(now: int)

  function Apply(p: CooldownPolicy, m: Member, e: Event): Member {
    match e
    case Admit(until, now) => Admitted(m, until, now)
    case SetState(state, now) => WithState(m, state, now)
    case Success(now) => Succeeded(m, now)
    case Failure(now) => Failed(m, p, now).0
  }

  function After(p: CooldownPolicy, m: Member, history: seq<Event>): Member {
    if history == [] then m else Apply(p, After(p, m, history[..|history| - 1]), history[|history| - 1])
  }

  predicate Resets(e: Event) {
    e.Admit? || e.Success?
  }

  /** The failures after the last success or admission, as positions in the history. */
  predicate IsOpenFailure(history: seq<Event>, i: nat) {
    i < |history| && history[i].Failure? && forall k :: i < k < |history| ==> !Resets(history[k])
  }

  function OpenFailures(history: seq<Event>): set<nat> {
    set i: nat | i < |history| && IsOpenFailure(history, i)
  }

  predicate IsLastFailure(history: seq<Event>, i: nat) {
    IsOpenFailure(history, i) && forall k :: i < k < |history| ==> !history[k].Failure?
  }

  /** The state that the events leave, seen on their own. */
  function StateAfter(initial: PeerState, history: seq<Event>): PeerState {
    if history == [] then initial
    else
      var before := StateAfter(initial, history[..|history| - 1]);
      match history[|history| - 1]
      case Admit(_, _) => Active
      case SetState(s, _) => s
      case Success(_) => if before == Cooldown then Active else before
      case Failure(_) => before
  }

  function AcceptedUntil(initial: Option<int>, history: seq<Event>): Option<int> {
    if history == [] then initial
    else if history[|history| - 1].Admit? then history[|history| - 1].acceptedUntil
    else AcceptedUntil(initial, history[..|history| - 1])
  }

  lemma OpenFailuresStep(history: seq<Event>)
    requires history != []
    ensures var n := |history| - 1;
      OpenFailures(history) ==
        if Resets(history[n]) then {}
        else if history[n].Failure? then OpenFailures(history[..n]) + {n}
        else OpenFailures(history[..n])
    ensures |history| - 1 !in OpenFailures(history[..|history| - 1])
  {
    var n := |history| - 1;
    forall i: nat | i < n ensures IsOpenFailure(history, i) <==> IsOpenFailure(history[..n], i) && !Resets(history[n]) {
    }
  }

  /**
   After any history a new record counts exactly the failures since its last
   success or admission, and its state and expiry are what the events left.
   */
  lemma {:induction false} CountsOpenFailures(p: CooldownPolicy, m: Member, history: seq<Event>)
    requires m.failures == 0
    ensures After(p, m, history).failures == |OpenFailures(history)|
    ensures After(p, m, history).state == StateAfter(m.state, history)
    ensures After(p, m, history).acceptedUntil == AcceptedUntil(m.acceptedUntil, history)
    ensures SameIdentity(After(p, m, history), m)
  {
    if history != [] {
      var n := |history| - 1;
      CountsOpenFailures(p, m, history[..n]);
      OpenFailuresStep(history);
      OneEvent(p, After(p, m, history[..n]), history[n]);
    }
  }

  /** What no event changes. */
  predicate SameIdentity(a: Member, b: Member) {
    a.nodeId == b.nodeId && a.manifestUrl == b.manifestUrl && a.orgId == b.orgId &&
    a.manifestRevision == b.manifestRevision
  }

  lemma OneEvent(p: CooldownPolicy, m: Member, e: Event)
    ensures Apply(p, m, e).failures == if Resets(e) then 0 else if e.Failure? then m.failures + 1 else m.failures
    ensures SameIdentity(Apply(p, m, e), m)
  {
  }

  /** The number of failures in a row that a failure brings its record to. */
  function Rank(history: seq<Event>, i: nat): nat
    requires i < |history|
  {
    |OpenFailures(history[..i + 1])|
  }

  /** The failure that the cooldown runs from: an open one whose backoff fits, with none such after it. */
  ghost predicate Anchors(p: CooldownPolicy, history: seq<Event>, i: nat) {
    IsOpenFailure(history, i) && NextCooldown(p, Rank(history, i)).Some? &&
    forall k :: i < k < |history| && history[k].Failure? ==> NextCooldown(p, Rank(history, k)).None?
  }

  /** When the cooldown that a failure started ends. */
  function CooldownEnd(p: CooldownPolicy, history: seq<Event>, i: nat): int
    requires i < |history| && history[i].Failure? && NextCooldown(p, Rank(history, i)).Some?
  {
    history[i].now + NextCooldown(p, Rank(history, i)).value
  }

  lemma AnchorsStep(p: CooldownPolicy, history: seq<Event>, i: nat)
    requires i + 1 < |history|
    ensures var n := |history| - 1;
      Anchors(p, history, i) <==> Anchors(p, history[..n], i) && !Resets(history[n]) &&
                                  (history[n].Failure? ==> NextCooldown(p, Rank(history, n)).None?)
    ensures Rank(history[..|history| - 1], i) == Rank(history, i)
  {
    var n := |history| - 1;
    var rest := history[..n];
    forall k: nat | k < n ensures Rank(rest, k) == Rank(history, k) && rest[k] == history[k] {
      assert rest[..k + 1] == history[..k + 1];
    }
    assert IsOpenFailure(history, i) <==> IsOpenFailure(rest, i) && !Resets(history[n]);
  }

  /** A cooldown is that of the failure that anchors it, and unset without one. */
  ghost predicate Anchored(p: CooldownPolicy, history: seq<Event>, cooldownUntil: Option<int>) {
    (forall i: nat :: Anchors(p, history, i) ==> cooldownUntil == Some(CooldownEnd(p, history, i))) &&
    (cooldownUntil.Some? ==> exists i: nat :: Anchors(p, history, i))
  }

  /** A new last failure whose backoff fits is the anchor. */
  lemma AnchoredByLast(p: CooldownPolicy, history: seq<Event>)
    requires history != [] && history[|history| - 1].Failure?
    requires NextCooldown(p, |OpenFailures(history)|).Some?
    ensures Anchored(p, history,
                     Some(history[|history| - 1].now + NextCooldown(p, |OpenFailures(history)|).value))
  {
    var n := |history| - 1;
    assert history[..n + 1] == history;
    assert Anchors(p, history, n);
    forall i: nat | Anchors(p, history, i) ensures i == n {
    }
  }

  /** Any other event but a reset leaves the anchor where it is. */
  lemma AnchoredAsBefore(p: CooldownPolicy, history: seq<Event>, cooldownUntil: Option<int>)
    requires history != [] && !Resets(history[|history| - 1])
    requires history[|history| - 1].Failure? ==> NextCooldown(p, |OpenFailures(history)|).None?
    requires Anchored(p, history[..|history| - 1], cooldownUntil)
    ensures Anchored(p, history, cooldownUntil)
  {
    var n := |history| - 1;
    assert history[..n + 1] == history;
    forall i: nat | i < n
      ensures Anchors(p, history, i) <==> Anchors(p, history[..n], i)
      ensures Anchors(p, history, i) ==> CooldownEnd(p, history, i) == CooldownEnd(p, history[..n], i)
    {
      AnchorsStep(p, history, i);
    }
  }

  lemma CooldownOf(p: CooldownPolicy, m: Member, e: Event)
    ensures Apply(p, m, e).cooldownUntil ==
      if Resets(e) then None
      else if e.Failure? && NextCooldown(p, m.failures + 1).Some?
      then Some(e.now + NextCooldown(p, m.failures + 1).value)
      else m.cooldownUntil
  {
  }

  /** What the last event makes of the cooldown that the events before it left. */
  lemma LastEventCools(p: CooldownPolicy, m: Member, history: seq<Event>)
    requires m.failures == 0 && history != []
    ensures var n := |history| - 1;
      After(p, m, history).cooldownUntil ==
        if Resets(history[n]) then None
        else if history[n].Failure? && NextCooldown(p, |OpenFailures(history)|).Some?
        then Some(history[n].now + NextCooldown(p, |OpenFailures(history)|).value)
        else After(p, m, history[..n]).cooldownUntil
  {
    var n := |history| - 1;
    CountsOpenFailures(p, m, history[..n]);
    CountsOpenFailures(p, m, history);
    CooldownOf(p, After(p, m, history[..n]), history[n]);
  }

  lemma NoAnchorAfterReset(p: CooldownPolicy, history: seq<Event>)
    requires history != [] && Resets(history[|history| - 1])
    ensures Anchored(p, history, None)
  {
  }

  lemma {:induction false} CooldownFromAnchor(p: CooldownPolicy, m: Member, history: seq<Event>)
    requires m.failures == 0 && m.cooldownUntil == None
    ensures Anchored(p, history, After(p, m, history).cooldownUntil)
  {
    if history != [] {
      var n := |history| - 1;
      CooldownFromAnchor(p, m, history[..n]);
      LastEventCools(p, m, history);
      if Resets(history[n]) {
        NoAnchorAfterReset(p, history);
      } else if history[n].Failure? && NextCooldown(p, |OpenFailures(history)|).Some? {
        AnchoredByLast(p, history);
      } else {
        AnchoredAsBefore(p, history, After(p, m, history[..n]).cooldownUntil);
      }
    }
  }

  /** The events that stamp a record: all but a failure whose backoff does not fit. */
  ghost predicate Stamps(p: CooldownPolicy, history: seq<Event>, i: nat) {
    i < |history| && (history[i].Failure? ==> NextCooldown(p, Rank(history, i)).Some?)
  }

  ghost predicate IsLastStamp(p: CooldownPolicy, history: seq<Event>, i: nat) {
    Stamps(p, history, i) && forall k: nat :: i < k < |history| ==> !Stamps(p, history, k)
  }

  lemma StampsInPrefix(p: CooldownPolicy, history: seq<Event>, k: nat)
    requires k + 1 < |history|
    ensures Stamps(p, history[..|history| - 1], k) <==> Stamps(p, history, k)
  {
    assert history[..|history| - 1][..k + 1] == history[..k + 1];
  }

  /** A record carries the instant of the last event that stamped it. */
  lemma {:induction false} StampedByLast(p: CooldownPolicy, m: Member, history: seq<Event>, i: nat)
    requires m.failures == 0
    ensures IsLastStamp(p, history, i) ==> After(p, m, history).lastRefresh == Some(history[i].now)
    ensures (forall k: nat :: !Stamps(p, history, k)) ==> After(p, m, history).lastRefresh == m.lastRefresh
  {
    if history != [] {
      var n := |history| - 1;
      StampedByLast(p, m, history[..n], i);
      LastEventStamps(p, m, history);
      if !Stamps(p, history, n) {
        forall k: nat ensures Stamps(p, history[..n], k) <==> Stamps(p, history, k) {
          if k < n {
            StampsInPrefix(p, history, k);
          }
        }
      }
    }
  }

  lemma LastEventStamps(p: CooldownPolicy, m: Member, history: seq<Event>)
    requires m.failures == 0 && history != []
    ensures var n := |history| - 1;
      After(p, m, history).lastRefresh ==
        if Stamps(p, history, n) then Some(history[n].now) else After(p, m, history[..n]).lastRefresh
  {
    var n := |history| - 1;
    CountsOpenFailures(p, m, history[..n]);
    CountsOpenFailures(p, m, history);
    assert history[..n + 1] == history;
    StampOf(p, After(p, m, history[..n]), history[n]);
  }

  lemma StampOf(p: CooldownPolicy, m: Member, e: Event)
    ensures Apply(p, m, e).lastRefresh ==
      if e.Failure? && NextCooldown(p, m.failures + 1).None? then m.lastRefresh else Some(e.now)
  {
  }

  /**
   While the backoff of the open failures fits, the last of them is the anchor, and their number
   sizes the cooldown.
   */
  lemma LastFailureAnchors(p: CooldownPolicy, history: seq<Event>, last: nat, i: nat)
    requires IsLastFailure(history, last) && NextCooldown(p, |OpenFailures(history)|).Some?
    ensures Rank(history, last) == |OpenFailures(history)|
    ensures Anchors(p, history, i) <==> i == last
  {
    var upTo := history[..last + 1];
    forall k: nat ensures k in OpenFailures(upTo) <==> k in OpenFailures(history) {
    }
    assert OpenFailures(upTo) == OpenFailures(history);
  }

  /** The schedule: every cooldown that an anchor started has ended. */
  ghost predicate CooledDown(p: CooldownPolicy, history: seq<Event>, now: int) {
    forall i: nat :: Anchors(p, history, i) ==> now >= CooldownEnd(p, history, i)
  }

  /** After any history a record is eligible exactly when it is active, unexpired and cooled down. */
  lemma EligibleExactly(p: CooldownPolicy, m: Member, history: seq<Event>, now: int)
    requires m.failures == 0 && m.cooldownUntil == None
    ensures IsEligible(After(p, m, history), now) <==>
         && StateAfter(m.state, history) == Active
         && (AcceptedUntil(m.acceptedUntil, history).Some? ==> now < AcceptedUntil(m.acceptedUntil, history).value)
         && CooledDown(p, history, now)
  {
    CountsOpenFailures(p, m, history);
    CooldownFromAnchor(p, m, history);
  }

  /**
   While the backoff fits, that is the documented schedule: no open failure, or
   the last one is a full backoff of their number ago.
   */
  lemma ScheduleAsDocumented(p: CooldownPolicy, history: seq<Event>, now: int)
    requires NextCooldown(p, |OpenFailures(history)|).Some?
    ensures CooledDown(p, history, now) <==>
      forall i: nat :: IsLastFailure(history, i) ==>
          now >= history[i].now + NextCooldown(p, |OpenFailures(history)|).value
  {
    forall i: nat ensures Anchors(p, history, i) <==> IsLastFailure(history, i) {
      if Anchors(p, history, i) {
        LastFailureExists(history, i);
        var last: nat :| IsLastFailure(history, last);
        LastFailureAnchors(p, history, last, i);
      } else if IsLastFailure(history, i) {
        LastFailureAnchors(p, history, i, i);
      }
    }
    forall i: nat | IsLastFailure(history, i)
      ensures CooldownEnd(p, history, i) == history[i].now + NextCooldown(p, |OpenFailures(history)|).value
    {
      LastFailureAnchors(p, history, i, i);
    }
  }

  lemma {:induction false} LastFailureExists(history: seq<Event>, i: nat)
    requires IsOpenFailure(history, i)
    ensures exists last: nat :: IsLastFailure(history, last)
    decreases |history| - i
  {
    if k: nat :| i < k < |history| && history[k].Failure? {
      LastFailureExists(history, k);
    } else {
      assert IsLastFailure(history, i);
    }
  }

  /** From the failure on whose backoff does not fit, the cooldown no longer moves. */
  lemma OverflowFreezesCooldown(p: CooldownPolicy, m: Member, now: int)
    requires p.baseCooldown >= 0
    ensures NextCooldown(p, m.failures + 1) == None <==> !Failed(m, p, now).1
    ensures !Failed(m, p, now).1 ==> Failed(m, p, now).0 == m.(failures := m.failures + 1)
    ensures !Failed(m, p, now).1 && m.failures >= 0 ==>
              forall later :: !Failed(Failed(m, p, now).0, p, later).1
  {
    BackoffFitsExactly(p, m.failures + 1);
  }

  // ---------- eligible members and disclosure ----------

  type Table = Dict<Member>

  function Filter<T>(s: seq<T>, keep: T -> bool): seq<T> {
    if s == [] then []
    else Filter(s[..|s| - 1], keep) + if keep(s[|s| - 1]) then [s[|s| - 1]] else []
  }

  lemma {:induction false} FilterMembers<T>(s: seq<T>, keep: T -> bool)
    ensures forall x :: x in Filter(s, keep) <==> x in s && keep(x)
    ensures |Filter(s, keep)| <= |s|
  {
    if s != [] {
      var n := |s| - 1;
      FilterMembers(s[..n], keep);
      forall x ensures x in Filter(s, keep) <==> x in s && keep(x) {
        assert x in s <==> x in s[..n] || x == s[n];
      }
    }
  }

  /** How many of the first elements are kept. */
  function KeptBefore<T>(s: seq<T>, keep: T -> bool, i: nat): nat
    requires i <= |s|
  {
    if i == 0 then 0 else KeptBefore(s, keep, i - 1) + if keep(s[i - 1]) then 1 else 0
  }

  lemma {:induction false} KeptOfPrefix<T>(s: seq<T>, n: nat, keep: T -> bool, other: T -> bool, i: nat)
    requires i <= n <= |s| && forall x :: x in s ==> keep(x) == other(x)
    ensures KeptBefore(s[..n], other, i) == KeptBefore(s, keep, i)
  {
    if i > 0 {
      KeptOfPrefix(s, n, keep, other, i - 1);
    }
  }

  /** Filtering keeps the order: an element lands behind as many as are kept before it. */
  lemma {:induction false} FilterKeepsOrder<T>(s: seq<T>, keep: T -> bool)
    ensures |Filter(s, keep)| == KeptBefore(s, keep, |s|)
    ensures forall i: nat :: i < |s| && keep(s[i]) ==>
              KeptBefore(s, keep, i) < |Filter(s, keep)| && Filter(s, keep)[KeptBefore(s, keep, i)] == s[i]
  {
    if s != [] {
      var n := |s| - 1;
      FilterKeepsOrder(s[..n], keep);
      KeptOfPrefix(s, n, keep, keep, n);
      forall i: nat | i < n && keep(s[i])
        ensures KeptBefore(s, keep, i) < |Filter(s, keep)| && Filter(s, keep)[KeptBefore(s, keep, i)] == s[i]
      {
        KeptOfPrefix(s, n, keep, keep, i);
        assert s[..n][i] == s[i];
      }
    }
  }

  lemma FilterStep<T>(s: seq<T>, i: nat, keep: T -> bool)
    requires i < |s|
    ensures Filter(s[..i + 1], keep) == Filter(s[..i], keep) + if keep(s[i]) then [s[i]] else []
  {
    assert s[..i + 1][..i] == s[..i];
  }

  function EligibleAt(now: int): Member -> bool {
    m => IsEligible(m, now)
  }

  /** eligible_peers */
  function EligiblePeers(table: Table, now: int): seq<Member>
    requires WellFormed(table)
  {
    Filter(Values(table), EligibleAt(now))
  }

  datatype DisclosurePolicy = DisclosurePolicy(
    default: string,
    denied: set<string>,
    requesterDisclosure: map<string, string>)

  /** _disclosed_after */
  predicate DisclosedAfter(m: Member, since: int) {
    m.lastRefresh.None? || m.lastRefresh.value > since
  }

  function DisclosureFor(policy: DisclosurePolicy, requester: string): string {
    if requester in policy.requesterDisclosure then policy.requesterDisclosure[requester] else policy.default
  }

  function RefOf(m: Member, disclosure: string): MemberRef {
    MemberRef(m.nodeId, m.orgId, m.manifestUrl, Some(m.manifestRevision), disclosure)
  }

  predicate Disclosed(m: Member, policy: DisclosurePolicy, since: Option<int>, now: int) {
    IsEligible(m, now) && m.nodeId !in policy.denied && (since.None? || DisclosedAfter(m, since.value))
  }

  function DisclosedBy(policy: DisclosurePolicy, since: Option<int>, now: int): Member -> bool {
    m => Disclosed(m, policy, since, now)
  }

  /** disclose_members at an instant, for an already parsed cursor. */
  function DiscloseMembers(members: seq<Member>, requester: string, policy: DisclosurePolicy, since: Option<int>,
                           now: int): seq<MemberRef> {
    var kept := Filter(members, DisclosedBy(policy, since, now));
    seq(|kept|, i requires 0 <= i < |kept| => RefOf(kept[i], DisclosureFor(policy, requester)))
  }

  /** What a disclosure to a requester shows of a member, field by field. */
  predicate ShownAs(m: Member, policy: DisclosurePolicy, requester: string, r: MemberRef) {
    && r.nodeId == m.nodeId && r.orgId == m.orgId && r.manifestUrl == m.manifestUrl
    && r.manifestRevision == Some(m.manifestRevision)
    && (requester in policy.requesterDisclosure ==> r.disclosure == policy.requesterDisclosure[requester])
    && (requester !in policy.requesterDisclosure ==> r.disclosure == policy.default)
  }

  /** Whom a disclosure shows: eligible, not denied, and not stamped up to the cursor. */
  predicate IsShown(m: Member, policy: DisclosurePolicy, since: Option<int>, now: int) {
    && m.state == Active && m.nodeId !in policy.denied
    && (m.acceptedUntil.Some? ==> now < m.acceptedUntil.value)
    && (m.cooldownUntil.Some? ==> m.cooldownUntil.value <= now)
    && (since.Some? && m.lastRefresh.Some? ==> since.value < m.lastRefresh.value)
  }

  lemma RefShows(m: Member, policy: DisclosurePolicy, requester: string, r: MemberRef)
    ensures r == RefOf(m, DisclosureFor(policy, requester)) <==> ShownAs(m, policy, requester, r)
  {
  }

  /** A disclosure holds a ref of exactly each member it may show, in the order of the members. */
  lemma DisclosedRefs(members: seq<Member>, requester: string, policy: DisclosurePolicy, since: Option<int>, now: int,
                      r: MemberRef)
    ensures r in DiscloseMembers(members, requester, policy, since, now) <==>
      exists m :: m in members && IsShown(m, policy, since, now) && ShownAs(m, policy, requester, r)
  {
    var keep := DisclosedBy(policy, since, now);
    FilterMembers(members, keep);
    var kept := Filter(members, keep);
    var d := DisclosureFor(policy, requester);
    var refs := DiscloseMembers(members, requester, policy, since, now);
    assert |refs| == |kept| && forall i :: 0 <= i < |kept| ==> refs[i] == RefOf(kept[i], d);
    forall m: Member ensures keep(m) <==> IsShown(m, policy, since, now) {
    }
    if r in refs {
      var i :| 0 <= i < |refs| && refs[i] == r;
      assert kept[i] in kept;
      RefShows(kept[i], policy, requester, r);
    }
    if m :| m in members && IsShown(m, policy, since, now) && ShownAs(m, policy, requester, r) {
      assert m in kept;
      RefShows(m, policy, requester, r);
      var i :| 0 <= i < |kept| && kept[i] == m;
      assert refs[i] == r;
    }
  }

  function ShownBy(policy: DisclosurePolicy, since: Option<int>, now: int): Member -> bool {
    m => IsShown(m, policy, since, now)
  }

  /** The ref of a shown member stands behind those of the members shown before it. */
  lemma DisclosedInOrder(members: seq<Member>, requester: string, policy: DisclosurePolicy, since: Option<int>,
                         now: int, i: nat)
    requires i < |members| && IsShown(members[i], policy, since, now)
    ensures var refs := DiscloseMembers(members, requester, policy, since, now);
      var place := KeptBefore(members, ShownBy(policy, since, now), i);
      place < |refs| && ShownAs(members[i], policy, requester, refs[place])
  {
    var keep, shown := DisclosedBy(policy, since, now), ShownBy(policy, since, now);
    assert members[..|members|] == members;
    KeptOfPrefix(members, |members|, shown, keep, i);
    FilterKeepsOrder(members, keep);
    RefShows(members[i], policy, requester, RefOf(members[i], DisclosureFor(policy, requester)));
  }

  // ---------- what polling by cursor misses ----------

  /** The ways a table changes: policy applied to a stored record, a refreshed revision, a new record, a removal. */
  datatype Change =
    | Policy(nodeId: string, event: Event)
    | Bump(nodeId: string, revision: int, now: int)
    | Insert(member: Member, now: int)
    | Delete(nodeId: string)

  function ChangeOne(p: CooldownPolicy, members: map<string, Member>, ch: Change): map<string, Member> {
    match ch
    case Policy(id, e) => if id in members then members[id := Apply(p, members[id], e)] else members
    case Bump(id, revision, now) =>
      if id in members then members[id := Admitted(members[id].(manifestRevision := revision), None, now)] else members
    case Insert(m, now) => members[m.nodeId := Admitted(m, None, now)]
    case Delete(id) => members - {id}
  }

  function ChangeAll(p: CooldownPolicy, members: map<string, Member>, changes: seq<Change>): map<string, Member> {
    if changes == [] then members
    else ChangeOne(p, ChangeAll(p, members, changes[..|changes| - 1]), changes[|changes| - 1])
  }

  predicate StampedAfter(ch: Change, t: int) {
    match ch
    case Policy(_, e) => e.now > t
    case Bump(_, _, now) => now > t
    case Insert(_, now) => now > t
    case Delete(_) => true
  }

  /** Everything disclosure reads of a record. */
  predicate SameDisclosure(a: Member, b: Member) {
    a.(failures := 0) == b.(failures := 0)
  }

  lemma {:induction false} UnstampedIsUnchanged(p: CooldownPolicy, members: map<string, Member>, changes: seq<Change>,
                                                t: int, id: string)
    requires forall ch :: ch in changes ==> StampedAfter(ch, t)
    requires id in ChangeAll(p, members, changes)
    requires var last := ChangeAll(p, members, changes)[id].lastRefresh; last.Some? && last.value <= t
    ensures id in members && SameDisclosure(members[id], ChangeAll(p, members, changes)[id])
  {
    if changes != [] {
      var n := |changes| - 1;
      assert changes[n] in changes;
      UnstampedIsUnchanged(p, members, changes[..n], t, id);
    }
  }

  /** Not stamped since t0, and out of its cooldown by t1: what polling by cursor misses. */
  predicate EndedCooldown(m: Member, t0: int, t1: int) {
    m.lastRefresh.Some? && m.lastRefresh.value <= t0 && m.cooldownUntil.Some? && t0 < m.cooldownUntil.value <= t1
  }

  /**
   A member that a full disclosure at t1 shows is missed by polling at t0 and
   then with the cursor t0 exactly when its record was not stamped after t0 and
   its cooldown ended in between; every other one is in the second answer or was
   in the first, identically.
   */
  lemma MissedExactly(p: CooldownPolicy, before: map<string, Member>, changes: seq<Change>, policy: DisclosurePolicy,
                      t0: int, t1: int, id: string)
    requires t0 <= t1 && forall ch :: ch in changes ==> StampedAfter(ch, t0)
    requires id in ChangeAll(p, before, changes)
    requires Disclosed(ChangeAll(p, before, changes)[id], policy, None, t1)
    requires id in before ==> before[id].nodeId == ChangeAll(p, before, changes)[id].nodeId
    ensures var m := ChangeAll(p, before, changes)[id];
      var inDelta := Disclosed(m, policy, Some(t0), t1);
      var shown := id in before && Disclosed(before[id], policy, None, t0) &&
                   forall d :: RefOf(before[id], d) == RefOf(m, d);
      !inDelta && !shown <==> EndedCooldown(m, t0, t1)
  {
    var m := ChangeAll(p, before, changes)[id];
    if m.lastRefresh.Some? && m.lastRefresh.value <= t0 {
      UnstampedIsUnchanged(p, before, changes, t0, id);
    }
  }

  ghost predicate KeyedByNodeId(members: map<string, Member>) {
    forall id :: id in members ==> members[id].nodeId == id
  }

  ghost predicate Lists(members: seq<Member>, table: map<string, Member>) {
    forall m :: m in members <==> m.nodeId in table && table[m.nodeId] == m
  }

  lemma {:induction false} ChangesKeepKeys(p: CooldownPolicy, members: map<string, Member>, changes: seq<Change>)
    requires KeyedByNodeId(members)
    ensures KeyedByNodeId(ChangeAll(p, members, changes))
  {
    if changes != [] {
      ChangesKeepKeys(p, members, changes[..|changes| - 1]);
    }
  }

  /**
   Polling by cursor is complete up to cooldowns that ended: each ref of the full
   disclosure at t1 is in the answer to the cursor t0, or was in the full
   disclosure at t0, or is that of a record whose cooldown ended in between.
   */
  lemma PollingCompletes(p: CooldownPolicy, before: map<string, Member>, changes: seq<Change>, policy: DisclosurePolicy,
                         requester: string, first: seq<Member>, second: seq<Member>, t0: int, t1: int, r: MemberRef)
    requires t0 <= t1 && forall ch :: ch in changes ==> StampedAfter(ch, t0)
    requires KeyedByNodeId(before) && Lists(first, before) && Lists(second, ChangeAll(p, before, changes))
    requires r in DiscloseMembers(second, requester, policy, None, t1)
    ensures || r in DiscloseMembers(second, requester, policy, Some(t0), t1)
            || r in DiscloseMembers(first, requester, policy, None, t0)
            || exists m :: m in second && EndedCooldown(m, t0, t1) && ShownAs(m, policy, requester, r)
  {
    ChangesKeepKeys(p, before, changes);
    DisclosedRefs(second, requester, policy, None, t1, r);
    var m :| m in second && IsShown(m, policy, None, t1) && ShownAs(m, policy, requester, r);
    MissedExactly(p, before, changes, policy, t0, t1, m.nodeId);
    DisclosedRefs(second, requester, policy, Some(t0), t1, r);
    DisclosedRefs(first, requester, policy, None, t0, r);
    if m.nodeId in before {
      var old' := before[m.nodeId];
      assert old' in first;
      RefShows(m, policy, requester, r);
      RefShows(old', policy, requester, r);
    }
  }

  /**
   And it misses members that the library produces: one that failed once at t0
   is in the full disclosure when its cooldown ends, in no answer to the cursor
   t0, and was in no disclosure at t0.
   */
  lemma FailedOnceIsMissed(p: CooldownPolicy, policy: DisclosurePolicy, requester: string, m: Member, t0: int)
    requires m.state == Active && m.acceptedUntil == None && m.failures == 0 && m.nodeId !in policy.denied
    requires NextCooldown(p, 1).Some? && NextCooldown(p, 1).value > 0
    ensures var failed, t1 := Failed(m, p, t0).0, t0 + NextCooldown(p, 1).value;
      var r := RefOf(failed, DisclosureFor(policy, requester));
      && r in DiscloseMembers([failed], requester, policy, None, t1)
      && DiscloseMembers([failed], requester, policy, Some(t0), t1) == []
      && DiscloseMembers([failed], requester, policy, None, t0) == []
  {
    var failed, t1 := Failed(m, p, t0).0, t0 + NextCooldown(p, 1).value;
    var r := RefOf(failed, DisclosureFor(policy, requester));
    RefShows(failed, policy, requester, r);
    DisclosedRefs([failed], requester, policy, None, t1, r);
    assert failed in [failed];
    assert [failed][..0] == [];
    assert Filter([failed], DisclosedBy(policy, Some(t0), t1)) == [];
    assert Filter([failed], DisclosedBy(policy, None, t0)) == [];
  }

  // ---------- revocation ----------

  /** self_scoped_authorize */
  predicate SelfScoped(n: RevocationNotice) {
    n.issuer == n.revokedNodeId
  }

  type Authorize = RevocationNotice -> bool

  /** verify_revocation_notice, with the cryptography it is given. */
  type NoticeVerifier = (RevocationNotice, Jwk) -> bool

  function VerifierWith(c: Crypto): NoticeVerifier {
    (n, jwk) => VerifyNotice(c, n, jwk)
  }

  /** apply_revocation_notice: the state returned and the table afterwards. */
  function ApplyNotice(verify: NoticeVerifier, table: Table, n: RevocationNotice, federationId: string,
                       trusted: map<string, Jwk>, authorize: Authorize, now: int): (Option<PeerState>, Table) {
    match Get(table, n.revokedNodeId)
    case None => (None, table)
    case Some(m) =>
      if n.federationId != federationId || n.signature.None? then (Some(m.state), table)
      else if !authorize(n) then (Some(m.state), table)
      else if n.signature.value.keyId !in trusted || !verify(n, trusted[n.signature.value.keyId])
      then (Some(m.state), table)
      else (Some(Revoked), Put(table, n.revokedNodeId, WithState(m, Revoked, now)))
  }

  /** Both gates: a trusted key signed the notice, and its issuer may revoke this node. */
  predicate NoticeApplies(verify: NoticeVerifier, n: RevocationNotice, federationId: string, trusted: map<string, Jwk>,
                          authorize: Authorize) {
    n.federationId == federationId && authorize(n) && n.signature.Some? &&
    n.signature.value.keyId in trusted && verify(n, trusted[n.signature.value.keyId])
  }

  /** A notice for a known peer changes its record exactly when both gates pass, and then only its state and stamp. */
  lemma RevokesExactly(verify: NoticeVerifier, table: Table, n: RevocationNotice, federationId: string,
                       trusted: map<string, Jwk>, authorize: Authorize, now: int)
    ensures var (state, after) := ApplyNotice(verify, table, n, federationId, trusted, authorize, now);
      && (state.None? <==> n.revokedNodeId !in table.items)
      && (state.Some? && NoticeApplies(verify, n, federationId, trusted, authorize) ==>
            state == Some(Revoked) && after.order == table.order && after.items.Keys == table.items.Keys &&
            after.items[n.revokedNodeId] ==
              table.items[n.revokedNodeId].(state := Revoked, lastRefresh := Some(now)) &&
            forall k :: k in table.items && k != n.revokedNodeId ==> after.items[k] == table.items[k])
      && (!NoticeApplies(verify, n, federationId, trusted, authorize) ==>
            after == table && (state.Some? ==> state.value == table.items[n.revokedNodeId].state))
  {
  }

  /** What a notice leaves of a table it is applied to: its peer revoked and stamped, everything else as it was. */
  predicate RevokedIn(table: Table, id: string, now: int, after: Table) {
    && id in table.items && after.order == table.order
    && after.items == table.items[id := table.items[id].(state := Revoked, lastRefresh := Some(now))]
  }

  /**
   With the library's own verification, a signature made over one notice gets
   another about a known peer applied exactly when the two agree on every field,
   to the second, and the notice is of this federation and authorised.
   */
  lemma SignedNoticeRevokesExactly(c: Crypto, table: Table, n: RevocationNotice, other: RevocationNotice,
                                   key: Key, keyId: string, federationId: string, trusted: map<string, Jwk>,
                                   authorize: Authorize, now: int)
    requires SignaturesVerify(c) && SignaturesBind(c) && NoticesCanonical(c)
    requires other.revokedNodeId in table.items && keyId in trusted && trusted[keyId] == c.publicJwk(key)
    ensures var moved := other.(signature := SignNotice(c, n, key, keyId));
      var (state, after) := ApplyNotice(VerifierWith(c), table, moved, federationId, trusted, authorize, now);
      if SameNotice(n, other) && other.federationId == federationId && authorize(moved)
      then state == Some(Revoked) && RevokedIn(table, other.revokedNodeId, now, after)
      else state == Some(table.items[other.revokedNodeId].state) && after == table
  {
    var moved := other.(signature := SignNotice(c, n, key, keyId));
    SignatureOf(c, NoticeModel(n), key, keyId);
    MovedNoticeSignature(c, n, other, key, keyId, trusted[keyId]);
    RevokesExactly(VerifierWith(c), table, moved, federationId, trusted, authorize, now);
  }

  /** Whatever keys are trusted, a notice that its signature was not made over leaves the table as it was. */
  lemma ForgedNoticeIsIgnored(c: Crypto, table: Table, n: RevocationNotice, other: RevocationNotice,
                              key: Key, keyId: string, federationId: string, trusted: map<string, Jwk>,
                              authorize: Authorize, now: int)
    requires SignaturesVerify(c) && SignaturesBind(c) && NoticesCanonical(c) && !SameNotice(n, other)
    ensures var moved := other.(signature := SignNotice(c, n, key, keyId));
      ApplyNotice(VerifierWith(c), table, moved, federationId, trusted, authorize, now) ==
          (StateOf(table, other.revokedNodeId), table)
  {
    SignatureOf(c, NoticeModel(n), key, keyId);
    MovedNoticeSignature(c, n, other, key, keyId, if keyId in trusted then trusted[keyId] else map[]);
  }

  /** With nothing assumed, so does a notice without a signature or with one that is not base64url. */
  lemma UndecodableNoticeIsIgnored(c: Crypto, table: Table, n: RevocationNotice, federationId: string,
                                   trusted: map<string, Jwk>, authorize: Authorize, now: int)
    requires n.signature.Some? ==> Decode(n.signature.value.sig) == None
    ensures ApplyNotice(VerifierWith(c), table, n, federationId, trusted, authorize, now) ==
            (StateOf(table, n.revokedNodeId), table)
  {
    forall jwk ensures !VerifyNotice(c, n, jwk) {
      UndecodableFails(c, NoticeModel(n), jwk);
    }
  }

  function StateOf(table: Table, id: string): Option<PeerState> {
    if id in table.items then Some(table.items[id].state) else None
  }

  /** By default a signed notice is applied exactly when it is this very notice and about its own issuer. */
  lemma DefaultRevokesExactly(c: Crypto, table: Table, n: RevocationNotice, other: RevocationNotice,
                              key: Key, keyId: string, federationId: string, trusted: map<string, Jwk>, now: int)
    requires SignaturesVerify(c) && SignaturesBind(c) && NoticesCanonical(c)
    requires other.revokedNodeId in table.items && keyId in trusted && trusted[keyId] == c.publicJwk(key)
    requires table.items[other.revokedNodeId].state != Revoked
    ensures var moved := other.(signature := SignNotice(c, n, key, keyId));
      ApplyNotice(VerifierWith(c), table, moved, federationId, trusted, (x: RevocationNotice) => SelfScoped(x), now).0
        == Some(Revoked)
      <==> SameNotice(n, other) && other.federationId == federationId && other.issuer == other.revokedNodeId
  {
    SignedNoticeRevokesExactly(c, table, n, other, key, keyId, federationId, trusted,
                               (x: RevocationNotice) => SelfScoped(x), now);
  }

  /** By default no notice about another node is applied, whoever signed it. */
  lemma DefaultIsSelfScoped(verify: NoticeVerifier, table: Table, n: RevocationNotice, federationId: string,
                            trusted: map<string, Jwk>, now: int)
    requires n.issuer != n.revokedNodeId
    ensures ApplyNotice(verify, table, n, federationId, trusted, (x: RevocationNotice) => SelfScoped(x), now).1 == table
  {
    RevokesExactly(verify, table, n, federationId, trusted, (x: RevocationNotice) => SelfScoped(x), now);
  }

  // ---------- the imperative form ----------

  /** A stored record, which policy mutates in place. */
  class MemberRecord {
    const nodeId: string
    var manifestUrl: string
    var orgId: Option<string>
    var manifestRevision: int
    var state: PeerState
    var acceptedUntil: Option<int>
    var cooldownUntil: Option<int>
    var failures: int
    var lastRefresh: Option<int>

    function View(): Member
      reads this
    {
      Member(nodeId, manifestUrl, orgId, manifestRevision, state, acceptedUntil, cooldownUntil, failures, lastRefresh)
    }

    constructor (nodeId: string, manifestUrl: string, orgId: Option<string>, manifestRevision: int)
      ensures View() == NewMember(nodeId, manifestUrl, orgId, manifestRevision)
    {
      this.nodeId, this.manifestUrl, this.orgId, this.manifestRevision := nodeId, manifestUrl, orgId, manifestRevision;
      state, acceptedUntil, cooldownUntil, failures, lastRefresh := Active, None, None, 0, None;
    }

    method Touch(now: int)
      modifies this`lastRefresh
      ensures View() == Touched(old(View()), now)
    {
      lastRefresh := Some(now);
    }

    method Admit(acceptedUntil: Option<int>, now: int)
      modifies this
      ensures View() == Admitted(old(View()), acceptedUntil, now)
    {
      state := Active;
      this.acceptedUntil := acceptedUntil;
      failures := 0;
      cooldownUntil := None;
      Touch(now);
    }

    method SetState(state: PeerState, now: int)
      modifies this
      ensures View() == WithState(old(View()), state, now)
    {
      this.state := state;
      Touch(now);
    }

    method RecordSuccess(now: int)
      modifies this
      ensures View() == Succeeded(old(View()), now)
    {
      failures := 0;
      cooldownUntil := None;
      if state == Cooldown {
        state := Active;
      }
      Touch(now);
    }

    /** Returns false where computing the backoff raises OverflowError. */
    method RecordFailure(policy: CooldownPolicy, now: int) returns (ok: bool)
      modifies this
      ensures (View(), ok) == Failed(old(View()), policy, now)
    {
      failures := failures + 1;
      var span := NextCooldown(policy, failures);
      if span.None? {
        return false;
      }
      cooldownUntil := Some(now + span.value);
      Touch(now);
      return true;
    }

    method Eligible(now: int) returns (eligible: bool)
      ensures eligible == IsEligible(View(), now)
    {
      if state != Active {
        return false;
      }
      if acceptedUntil.Some? && now >= acceptedUntil.value {
        return false;
      }
      if cooldownUntil.Some? && now < cooldownUntil.value {
        return false;
      }
      return true;
    }
  }

  /** The in-memory membership store. */
  class MembershipTable {
    var peers: Dict<MemberRecord>

    ghost predicate Valid()
      reads this
    {
      WellFormed(peers) && forall k :: k in peers.items ==> peers.items[k].nodeId == k
    }

    ghost function Records(): set<MemberRecord>
      reads this
    {
      peers.items.Values
    }

    ghost function View(): Table
      reads this, Records()
    {
      Dict(peers.order, map k | k in peers.items :: peers.items[k].View())
    }

    constructor ()
      ensures Valid() && View() == Empty() && Records() == {}
    {
      peers := Empty();
    }

    method Fetch(nodeId: string) returns (rec: MemberRecord?)
      requires Valid()
      ensures rec == null <==> nodeId !in peers.items
      ensures rec != null ==> rec == peers.items[nodeId] && rec in Records() && rec.nodeId == nodeId
    {
      if nodeId in peers.items {
        rec := peers.items[nodeId];
      } else {
        rec := null;
      }
    }

    method Upsert(rec: MemberRecord)
      requires Valid()
      modifies this
      ensures Valid() && peers == Put(old(peers), rec.nodeId, rec)
      ensures Records() <= old(Records()) + {rec}
      ensures View() == Put(old(View()), rec.nodeId, rec.View())
    {
      PutWellFormed(peers, rec.nodeId, rec);
      peers := Put(peers, rec.nodeId, rec);
    }

    method Delete(nodeId: string)
      requires Valid()
      modifies this
      ensures Valid() && Records() <= old(Records())
      ensures View() == Remove(old(View()), nodeId)
    {
      RemoveWellFormed(peers, nodeId);
      peers := Remove(peers, nodeId);
    }

    /** values(): the stored records in the order they were first put. */
    method List() returns (recs: seq<MemberRecord>)
      requires Valid()
      ensures recs == Values(peers) && Views(recs) == Values(View())
      ensures forall r :: r in recs ==> r in Records()
    {
      recs := Values(peers);
      assert forall i :: 0 <= i < |recs| ==> recs[i].View() == Values(View())[i];
    }
  }

  ghost function Views(recs: seq<MemberRecord>): (members: seq<Member>)
    reads recs
  {
    seq(|recs|, i requires 0 <= i < |recs| reads recs => recs[i].View())
  }

  /** eligible_peers: what the eligible records hold at the instant, in the order of the table. */
  method Eligible(table: MembershipTable, now: int) returns (members: seq<Member>)
    requires table.Valid()
    ensures members == EligiblePeers(table.View(), now)
  {
    members := [];
    var recs := table.List();
    ghost var all, keep := Views(recs), EligibleAt(now);
    for i := 0 to |recs|
      invariant members == Filter(all[..i], keep)
    {
      var eligible := recs[i].Eligible(now);
      FilterStep(all, i, keep);
      if eligible {
        members := members + [recs[i].View()];
      }
    }
    assert all[..|recs|] == all;
    assert members == Filter(all, keep);
    assert all == Values(table.View());
    assert Filter(all, keep) == EligiblePeers(table.View(), now);
  }

  /** A newly built record of an admitted peer. */
  function FreshRecord(nodeId: string, url: string, orgId: string, revision: int, now: int): Member {
    Admitted(NewMember(nodeId, url, Some(orgId), revision), None, now)
  }

  /** upsert(admit(MemberRecord(...))): how every admitted peer enters the table. */
  method Enrol(table: MembershipTable, nodeId: string, url: string, orgId: string, revision: int, now: int)
    requires table.Valid()
    modifies table
    ensures table.Valid() && fresh(table.Records() - old(table.Records()))
    ensures table.View() == Put(old(table.View()), nodeId, FreshRecord(nodeId, url, orgId, revision, now))
  {
    ghost var before := table.View();
    var rec := new MemberRecord(nodeId, url, Some(orgId), revision);
    rec.Admit(None, now);
    assert table.View() == before;
    table.Upsert(rec);
  }

  /** upsert(set_state(rec, state)) for a stored record. */
  method Mark(table: MembershipTable, rec: MemberRecord, state: PeerState, now: int)
    requires table.Valid() && rec in table.Records()
    modifies table, rec
    ensures table.Valid() && table.Records() == old(table.Records())
    ensures table.View() == Put(old(table.View()), rec.nodeId, WithState(old(rec.View()), state, now))
    ensures rec.state == state
  {
    ghost var before := table.View();
    rec.SetState(state, now);
    assert table.View().items == before.items[rec.nodeId := rec.View()];
    table.Upsert(rec);
    assert table.peers.items == old(table.peers.items);
  }

  /** rec.manifest_revision = revision; upsert(admit(rec)) for a stored record. */
  method Readmit(table: MembershipTable, rec: MemberRecord, revision: int, now: int)
    requires table.Valid() && rec in table.Records()
    modifies table, rec
    ensures table.Valid() && table.Records() == old(table.Records())
    ensures table.View() ==
            Put(old(table.View()), rec.nodeId, Admitted(old(rec.View()).(manifestRevision := revision), None, now))
  {
    ghost var before := table.View();
    rec.manifestRevision := revision;
    rec.Admit(None, now);
    assert table.View().items == before.items[rec.nodeId := rec.View()];
    table.Upsert(rec);
    assert table.peers.items == old(table.peers.items);
  }

  /** apply_revocation_notice on the in-memory table. */
  method ApplyRevocationNotice(verify: NoticeVerifier, table: MembershipTable, n: RevocationNotice,
                               federationId: string, trusted: map<string, Jwk>, authorize: Authorize, now: int)
    returns (state: Option<PeerState>)
    requires table.Valid()
    modifies table, table.Records()
    ensures table.Valid() && table.Records() == old(table.Records())
    ensures (state, table.View()) == ApplyNotice(verify, old(table.View()), n, federationId, trusted, authorize, now)
  {
    var rec := table.Fetch(n.revokedNodeId);
    if rec == null {
      return None;
    }
    if n.federationId != federationId || n.signature.None? {
      return Some(rec.state);
    }
    if !authorize(n) {
      return Some(rec.state);
    }
    if n.signature.value.keyId !in trusted || !verify(n, trusted[n.signature.value.keyId]) {
      return Some(rec.state);
    }
    Mark(table, rec, Revoked, now);
    return Some(rec.state);
  }
}
