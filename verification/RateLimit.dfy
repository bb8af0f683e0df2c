/**
 The token-bucket rate limiter of `protocols/rate_limit.py`, in exact
 arithmetic, and the sliding-window limit that it turns out to enforce.
 */
module RateLimit {
  import opened Options

  datatype Limits = Limits(maxOperationRpsPerPeer: Option<int>)

  /** A bucket as a value: what it holds and the latest instant it was refilled at. */
  datatype Level = Level(tokens: real, updatedAt: real)

  function Min(a: real, b: real): real {
    if a <= b then a else b
  }

  function Max(a: real, b: real): real {
    if a >= b then a else b
  }

  /** Tokens gained over a span of time: the product `rate * span`, as repeated addition. */
  function Gain(rate: int, span: real): real
    decreases rate
  {
    if rate <= 0 then 0.0 else span + Gain(rate - 1, span)
  }

  lemma {:induction false} GainIsProduct(rate: int, span: real)
    requires rate >= 0
    ensures Gain(rate, span) == rate as real * span
    decreases rate
  {
    if rate > 0 {
      GainIsProduct(rate - 1, span);
      assert rate as real * span == (rate - 1) as real * span + span;
    }
  }

  lemma {:induction false} GainAdds(rate: int, a: real, b: real)
    requires rate >= 0
    ensures Gain(rate, a + b) == Gain(rate, a) + Gain(rate, b)
    ensures Gain(rate, 0.0) == 0.0
    decreases rate
  {
    if rate > 0 {
      GainAdds(rate - 1, a, b);
    }
  }

  lemma {:induction false} GainMonotone(rate: int, a: real, b: real)
    requires rate >= 0 && a <= b
    ensures Gain(rate, a) <= Gain(rate, b)
    decreases rate
  {
    if rate > 0 {
      GainMonotone(rate - 1, a, b);
    }
  }

  function Refill(b: Level, rate: int, now: real): Level {
    if now > b.updatedAt
    then Level(Min(rate as real, b.tokens + Gain(rate, now - b.updatedAt)), now)
    else b
  }

  /** One request against a bucket that is created full when the peer is new. */
  function Offer(b: Option<Level>, rate: int, now: real): (bool, Level) {
    var filled := Refill(b.GetOr(Level(rate as real, now)), rate, now);
    if filled.tokens < 1.0 then (false, filled) else (true, filled.(tokens := filled.tokens - 1.0))
  }

  type PeerLimits = map<string, Option<Limits>>

  function RateOf(limits: PeerLimits, peer: string): Option<int> {
    if peer in limits && limits[peer].Some? then limits[peer].value.maxOperationRpsPerPeer else None
  }

  function Get<V>(m: map<string, V>, k: string): Option<V> {
    if k in m then Some(m[k]) else None
  }

  /** allow */
  function AllowStep(limits: PeerLimits, levels: map<string, Level>, peer: string, now: real):
    (bool, map<string, Level>)
  {
    match RateOf(limits, peer)
    case None => (true, levels)
    case Some(rate) =>
      if rate <= 0 then (false, levels)
      else
        var (granted, level) := Offer(Get(levels, peer), rate, now);
        (granted, levels[peer := level])
  }

  // ---------- the imperative form ----------

  class Bucket {
    var tokens: real
    var updatedAt: real

    constructor (tokens: real, updatedAt: real)
      ensures this.tokens == tokens && this.updatedAt == updatedAt
    {
      this.tokens, this.updatedAt := tokens, updatedAt;
    }

    ghost function View(): Level
      reads this
    {
      Level(tokens, updatedAt)
    }

    /** The end of allow: the lazy refill, then the token of this request. */
    method Take(rate: int, now: real) returns (granted: bool)
      requires rate >= 0
      modifies this
      ensures (granted, View()) == Offer(Some(old(View())), rate, now)
    {
      var elapsed := Max(0.0, now - updatedAt);
      if elapsed != 0.0 {
        GainIsProduct(rate, elapsed);
        tokens := Min(rate as real, tokens + elapsed * rate as real);
        updatedAt := now;
      }
      if tokens < 1.0 {
        return false;
      }
      tokens := tokens - 1.0;
      return true;
    }
  }

  class TokenBucketRateLimiter {
    const peerLimits: PeerLimits
    var buckets: map<string, Bucket>

    ghost predicate Valid()
      reads this
    {
      forall p, q :: p in buckets && q in buckets && p != q ==> buckets[p] != buckets[q]
    }

    ghost function View(): map<string, Level>
      reads this, buckets.Values
    {
      map p | p in buckets :: buckets[p].View()
    }

    constructor (peerLimits: PeerLimits)
      ensures Valid() && View() == map[] && this.peerLimits == peerLimits
    {
      this.peerLimits := peerLimits;
      buckets := map[];
    }

    method Allow(peer: string, now: real) returns (granted: bool)
      requires Valid()
      modifies this, buckets.Values
      ensures Valid() && fresh(buckets.Values - old(buckets.Values))
      ensures (granted, View()) == AllowStep(peerLimits, old(View()), peer, now)
    {
      var limits := if peer in peerLimits then peerLimits[peer] else None;
      var rate := if limits.Some? then limits.value.maxOperationRpsPerPeer else None;
      if rate.None? {
        return true;
      }
      if rate.value <= 0 {
        return false;
      }
      if peer !in buckets {
        var created := new Bucket(rate.value as real, now);
        buckets := buckets[peer := created];
      }
      ghost var before := Get(old(View()), peer);
      assert buckets[peer].View() == before.GetOr(Level(rate.value as real, now));
      granted := buckets[peer].Take(rate.value, now);
      assert View() == old(View())[peer := buckets[peer].View()];
    }
  }

  // ---------- one peer's calls ----------

  /** The bucket of a peer after its calls; it has none before the first. */
  function After(rate: int, nows: seq<real>): Option<Level> {
    if nows == [] then None
    else Some(Offer(After(rate, nows[..|nows| - 1]), rate, nows[|nows| - 1]).1)
  }

  predicate Granted(rate: int, nows: seq<real>, i: nat)
    requires i < |nows|
  {
    Offer(After(rate, nows[..i]), rate, nows[i]).0
  }

  /** The clock of a run: the latest of the instants passed up to and including call i. */
  function Clock(nows: seq<real>, i: nat): real
    requires i < |nows|
  {
    if i == 0 then nows[0] else Max(Clock(nows, i - 1), nows[i])
  }

  /** The number of calls from i up to but not including j that were granted. */
  function Grants(rate: int, nows: seq<real>, i: nat, j: nat): nat
    requires i <= j <= |nows|
    decreases j
  {
    if i == j then 0 else Grants(rate, nows, i, j - 1) + if Granted(rate, nows, j - 1) then 1 else 0
  }

  /** What a window from call i through call k, with the grants before call k, leaves for call k. */
  function Allowance(rate: int, nows: seq<real>, i: nat, k: nat): real
    requires i <= k < |nows|
  {
    rate as real + Gain(rate, Clock(nows, k) - Clock(nows, i)) - Grants(rate, nows, i, k) as real
  }

  /** The bucket as call k finds it after its refill. */
  function Filled(rate: int, nows: seq<real>, k: nat): Level
    requires k < |nows|
  {
    Refill(After(rate, nows[..k]).GetOr(Level(rate as real, nows[k])), rate, nows[k])
  }

  ghost predicate Bounded(rate: int, nows: seq<real>, k: nat)
    requires k < |nows|
  {
    forall i :: 0 <= i <= k ==> Filled(rate, nows, k).tokens <= Allowance(rate, nows, i, k)
  }

  ghost predicate Attained(rate: int, nows: seq<real>, k: nat)
    requires k < |nows|
  {
    exists i :: 0 <= i <= k && Filled(rate, nows, k).tokens == Allowance(rate, nows, i, k)
  }

  lemma RefillRange(b: Level, rate: int, now: real)
    requires rate >= 1 && 0.0 <= b.tokens <= rate as real
    ensures 0.0 <= Refill(b, rate, now).tokens <= rate as real
    ensures Refill(b, rate, now).updatedAt == Max(b.updatedAt, now)
  {
    if now > b.updatedAt {
      GainAdds(rate, 0.0, 0.0);
      GainMonotone(rate, 0.0, now - b.updatedAt);
    }
  }

  /**
   After any calls the bucket holds between none and `rate` tokens and was last refilled at the
   latest instant seen.
   */
  lemma {:induction false} LevelInRange(rate: int, nows: seq<real>)
    requires rate >= 1 && nows != []
    ensures 0.0 <= After(rate, nows).value.tokens <= rate as real
    ensures After(rate, nows).value.updatedAt == Clock(nows, |nows| - 1)
    ensures 0.0 <= Filled(rate, nows, |nows| - 1).tokens <= rate as real
    ensures Filled(rate, nows, |nows| - 1).updatedAt == Clock(nows, |nows| - 1)
  {
    var n := |nows| - 1;
    if n == 0 {
      RefillRange(Level(rate as real, nows[0]), rate, nows[0]);
    } else {
      LevelInRange(rate, nows[..n]);
      ClockPrefix(nows, n, n - 1);
      RefillRange(After(rate, nows[..n]).value, rate, nows[n]);
    }
  }

  lemma {:induction false} ClockPrefix(nows: seq<real>, n: nat, i: nat)
    requires i < n <= |nows|
    ensures Clock(nows[..n], i) == Clock(nows, i)
  {
    if i > 0 {
      ClockPrefix(nows, n, i - 1);
    }
  }

  lemma {:induction false} GrantsPrefix(rate: int, nows: seq<real>, n: nat, i: nat, j: nat)
    requires i <= j <= n <= |nows|
    ensures Grants(rate, nows[..n], i, j) == Grants(rate, nows, i, j)
    decreases j
  {
    if i < j {
      GrantsPrefix(rate, nows, n, i, j - 1);
      assert nows[..n][..j - 1] == nows[..j - 1];
    }
  }

  lemma AfterIsSpent(rate: int, nows: seq<real>, k: nat)
    requires k < |nows|
    ensures After(rate, nows[..k + 1]).Some?
    ensures After(rate, nows[..k + 1]).value.tokens
        == Filled(rate, nows, k).tokens - (if Granted(rate, nows, k) then 1.0 else 0.0)
    ensures After(rate, nows[..k + 1]).value.updatedAt == Filled(rate, nows, k).updatedAt
    ensures Granted(rate, nows, k) <==> Filled(rate, nows, k).tokens >= 1.0
  {
    assert nows[..k + 1][..k] == nows[..k];
  }

  /** From call k to the next: the grant is lost and the clock's rise refills. */
  function Change(rate: int, nows: seq<real>, k: nat): real
    requires k + 1 < |nows|
  {
    Gain(rate, Clock(nows, k + 1) - Clock(nows, k)) - if Granted(rate, nows, k) then 1.0 else 0.0
  }

  lemma AllowanceStep(rate: int, nows: seq<real>, i: nat, k: nat)
    requires rate >= 0 && i <= k && k + 1 < |nows|
    ensures Allowance(rate, nows, i, k + 1) == Allowance(rate, nows, i, k) + Change(rate, nows, k)
  {
    var a, b, d := Clock(nows, i), Clock(nows, k), Clock(nows, k + 1);
    GainAdds(rate, b - a, d - b);
    assert (b - a) + (d - b) == d - a;
  }

  lemma AllowanceStarts(rate: int, nows: seq<real>, k: nat)
    requires rate >= 0 && k < |nows|
    ensures Allowance(rate, nows, k, k) == rate as real
  {
    GainAdds(rate, 0.0, 0.0);
  }

  lemma FilledStep(rate: int, nows: seq<real>, k: nat)
    requires rate >= 1 && k + 1 < |nows|
    ensures Filled(rate, nows, k + 1).tokens == Min(rate as real, Filled(rate, nows, k).tokens + Change(rate, nows, k))
  {
    AfterIsSpent(rate, nows, k);
    LevelInRange(rate, nows[..k + 1]);
    ClockPrefix(nows, k + 1, k);
    var b := After(rate, nows[..k + 1]).value;
    assert b.updatedAt == Clock(nows, k);
    GainAdds(rate, 0.0, 0.0);
  }

  lemma BoundedStep(rate: int, nows: seq<real>, k: nat)
    requires rate >= 1 && k + 1 < |nows| && Bounded(rate, nows, k)
    ensures Bounded(rate, nows, k + 1)
  {
    FilledStep(rate, nows, k);
    var next := k + 1;
    forall i | 0 <= i <= next ensures Filled(rate, nows, next).tokens <= Allowance(rate, nows, i, next) {
      if i <= k {
        AllowanceStep(rate, nows, i, k);
        assert Filled(rate, nows, k).tokens <= Allowance(rate, nows, i, k);
      } else {
        AllowanceStarts(rate, nows, next);
      }
    }
  }

  lemma AttainedStep(rate: int, nows: seq<real>, k: nat)
    requires rate >= 1 && k + 1 < |nows| && Attained(rate, nows, k)
    ensures Attained(rate, nows, k + 1)
  {
    FilledStep(rate, nows, k);
    AllowanceStarts(rate, nows, k + 1);
    var i :| 0 <= i <= k && Filled(rate, nows, k).tokens == Allowance(rate, nows, i, k);
    AllowanceStep(rate, nows, i, k);
    var start := if Filled(rate, nows, k + 1).tokens == rate as real then k + 1 else i;
    assert Filled(rate, nows, k + 1).tokens == Allowance(rate, nows, start, k + 1);
  }

  /** What a bucket holds is the smallest allowance of the windows that end at the call. */
  lemma {:induction false} FilledIsSmallestAllowance(rate: int, nows: seq<real>, k: nat)
    requires rate >= 1 && k < |nows|
    ensures Bounded(rate, nows, k) && Attained(rate, nows, k)
  {
    if k == 0 {
      AllowanceStarts(rate, nows, 0);
      assert Filled(rate, nows, 0).tokens == Allowance(rate, nows, 0, 0);
    } else {
      FilledIsSmallestAllowance(rate, nows, k - 1);
      BoundedStep(rate, nows, k - 1);
      AttainedStep(rate, nows, k - 1);
    }
  }

  /** What a rate earns over a span of time. */
  function Earned(rate: int, span: real): real {
    rate as real * span
  }

  lemma GainIsEarned(rate: int, span: real)
    requires rate >= 0
    ensures Gain(rate, span) == Earned(rate, span)
  {
    GainIsProduct(rate, span);
  }

  /** The sliding-window limit, stated on instants and earlier answers alone. */
  ghost predicate WithinEveryWindow(rate: int, nows: seq<real>, k: nat)
    requires k < |nows|
  {
    forall i :: 0 <= i <= k ==>
      Grants(rate, nows, i, k) as real + 1.0 <= rate as real + Earned(rate, Clock(nows, k) - Clock(nows, i))
  }

  /**
   A call is granted exactly when granting it keeps every window that ends at it
   within `rate` plus `rate` times the rise of the clock in the window, even when
   the instants passed go backwards.
   */
  lemma GrantedExactly(rate: int, nows: seq<real>, k: nat)
    requires rate >= 1 && k < |nows|
    ensures Granted(rate, nows, k) <==> WithinEveryWindow(rate, nows, k)
  {
    FilledIsSmallestAllowance(rate, nows, k);
    AfterIsSpent(rate, nows, k);
    if Granted(rate, nows, k) {
      forall i | 0 <= i <= k
        ensures Grants(rate, nows, i, k) as real + 1.0 <= rate as real + Earned(rate, Clock(nows, k) - Clock(nows, i))
      {
        GainIsEarned(rate, Clock(nows, k) - Clock(nows, i));
        assert Filled(rate, nows, k).tokens <= Allowance(rate, nows, i, k);
      }
    } else {
      var i :| 0 <= i <= k && Filled(rate, nows, k).tokens == Allowance(rate, nows, i, k);
      GainIsEarned(rate, Clock(nows, k) - Clock(nows, i));
      assert Grants(rate, nows, i, k) as real + 1.0 > rate as real + Earned(rate, Clock(nows, k) - Clock(nows, i));
    }
  }

  lemma {:induction false} GrantsWithinGain(rate: int, nows: seq<real>, i: nat, k: nat)
    requires rate >= 1 && i <= k < |nows|
    ensures Grants(rate, nows, i, k + 1) as real <= rate as real + Gain(rate, Clock(nows, k) - Clock(nows, i))
  {
    FilledIsSmallestAllowance(rate, nows, k);
    AfterIsSpent(rate, nows, k);
    if Granted(rate, nows, k) {
      assert Filled(rate, nows, k).tokens <= Allowance(rate, nows, i, k);
    } else if i < k {
      GrantsWithinGain(rate, nows, i, k - 1);
      ClockRises(nows, k);
      GainMonotone(rate, Clock(nows, k - 1) - Clock(nows, i), Clock(nows, k) - Clock(nows, i));
    } else {
      GainAdds(rate, 0.0, 0.0);
    }
  }

  lemma ClockRises(nows: seq<real>, k: nat)
    requires 0 < k < |nows|
    ensures Clock(nows, k - 1) <= Clock(nows, k)
  {
  }

  /** In any stretch of consecutive calls at most `rate` plus `rate` times the rise of the clock are granted. */
  lemma GrantsBounded(rate: int, nows: seq<real>, i: nat, k: nat)
    requires rate >= 1 && i <= k < |nows|
    ensures Grants(rate, nows, i, k + 1) as real <= rate as real + Earned(rate, Clock(nows, k) - Clock(nows, i))
  {
    GrantsWithinGain(rate, nows, i, k);
    GainIsEarned(rate, Clock(nows, k) - Clock(nows, i));
  }

  lemma OneToken(rate: int, gap: real)
    requires rate >= 1 && gap >= 1.0 / rate as real
    ensures gap > 0.0 && Gain(rate, gap) >= 1.0
  {
    GainIsProduct(rate, 1.0 / rate as real);
    GainMonotone(rate, 1.0 / rate as real, gap);
  }

  /** Each call comes after the one before it, by the time of a token or more. */
  ghost predicate TokenApart(rate: int, nows: seq<real>) {
    forall i, j :: 0 <= i < |nows| && j == i + 1 < |nows| ==> nows[j] > nows[i] && Gain(rate, nows[j] - nows[i]) >= 1.0
  }

  lemma {:induction false} ApartClock(rate: int, nows: seq<real>, k: nat)
    requires TokenApart(rate, nows) && k < |nows|
    ensures Clock(nows, k) == nows[k]
  {
    if k > 0 {
      ApartClock(rate, nows, k - 1);
      assert nows[k] > nows[k - 1];
    }
  }

  lemma ApartGranted(rate: int, nows: seq<real>, k: nat)
    requires rate >= 1 && TokenApart(rate, nows) && k + 1 < |nows|
    ensures Filled(rate, nows, k + 1).tokens >= 1.0
  {
    FilledStep(rate, nows, k);
    ApartClock(rate, nows, k);
    ApartClock(rate, nows, k + 1);
    assert Change(rate, nows, k) >= 1.0 - if Granted(rate, nows, k) then 1.0 else 0.0;
    AfterIsSpent(rate, nows, k);
    LevelInRange(rate, nows[..k + 1]);
  }

  /** A caller whose calls are at least the time of one token apart is never refused. */
  lemma SpacedCallsGranted(rate: int, nows: seq<real>, k: nat)
    requires rate >= 1 && k < |nows|
    requires forall i :: 0 < i < |nows| ==> nows[i] - nows[i - 1] >= 1.0 / rate as real
    ensures Granted(rate, nows, k)
  {
    forall i, j | 0 <= i < |nows| && j == i + 1 < |nows|
      ensures nows[j] > nows[i] && Gain(rate, nows[j] - nows[i]) >= 1.0
    {
      OneToken(rate, nows[j] - nows[i]);
    }
    AfterIsSpent(rate, nows, k);
    if k > 0 {
      ApartGranted(rate, nows, k - 1);
    }
  }

  // ---------- refilling eagerly ----------

  function RefillAll(b: Level, rate: int, ticks: seq<real>): Level
    decreases ticks
  {
    if ticks == [] then b else RefillAll(Refill(b, rate, ticks[0]), rate, ticks[1..])
  }

  /** The bucket that is also refilled at the given instants before each call. */
  function EagerAfter(rate: int, nows: seq<real>, ticks: seq<seq<real>>): Option<Level>
    requires |ticks| == |nows|
  {
    if nows == [] then None
    else
      var n := |nows| - 1;
      Some(Offer(Ticked(EagerAfter(rate, nows[..n], ticks[..n]), rate, ticks[n]), rate, nows[n]).1)
  }

  function Ticked(b: Option<Level>, rate: int, ticks: seq<real>): Option<Level> {
    if b.Some? then Some(RefillAll(b.value, rate, ticks)) else None
  }

  predicate EagerGranted(rate: int, nows: seq<real>, ticks: seq<seq<real>>, i: nat)
    requires i < |nows| == |ticks|
  {
    Offer(Ticked(EagerAfter(rate, nows[..i], ticks[..i]), rate, ticks[i]), rate, nows[i]).0
  }

  /** Refilling on the way to an instant changes nothing of the refill at that instant. */
  lemma RefillTwice(b: Level, rate: int, tick: real, now: real)
    requires rate >= 1 && b.tokens <= rate as real && tick <= Max(b.updatedAt, now)
    ensures Refill(Refill(b, rate, tick), rate, now) == Refill(b, rate, now)
    ensures Refill(b, rate, tick).tokens <= rate as real
    ensures Max(Refill(b, rate, tick).updatedAt, now) == Max(b.updatedAt, now)
  {
    if b.updatedAt < tick < now {
      GainAdds(rate, tick - b.updatedAt, now - tick);
      assert (tick - b.updatedAt) + (now - tick) == now - b.updatedAt;
      GainAdds(rate, 0.0, 0.0);
      GainMonotone(rate, 0.0, now - tick);
    }
  }

  lemma {:induction false} RefillAllThenRefill(b: Level, rate: int, ticks: seq<real>, now: real)
    requires rate >= 1 && b.tokens <= rate as real
    requires forall t :: t in ticks ==> t <= Max(b.updatedAt, now)
    ensures Refill(RefillAll(b, rate, ticks), rate, now) == Refill(b, rate, now)
    decreases ticks
  {
    if ticks != [] {
      assert ticks[0] in ticks;
      RefillTwice(b, rate, ticks[0], now);
      forall t | t in ticks[1..] ensures t <= Max(Refill(b, rate, ticks[0]).updatedAt, now) {
        assert t in ticks;
      }
      RefillAllThenRefill(Refill(b, rate, ticks[0]), rate, ticks[1..], now);
    }
  }

  /**
   Lazy refill refines an eager one: refilling at any instants that the clock
   has reached by the next call changes no answer and no level after a call.
   */
  lemma {:induction false} EagerRefillIsInvisible(rate: int, nows: seq<real>, ticks: seq<seq<real>>)
    requires rate >= 1 && |ticks| == |nows|
    requires forall i, t :: 0 <= i < |nows| && t in ticks[i] ==> t <= Clock(nows, i)
    ensures EagerAfter(rate, nows, ticks) == After(rate, nows)
    ensures forall i :: 0 <= i < |nows| ==> EagerGranted(rate, nows, ticks, i) == Granted(rate, nows, i)
  {
    if nows != [] {
      var n := |nows| - 1;
      var rest, restTicks := nows[..n], ticks[..n];
      forall i, t | 0 <= i < n && t in restTicks[i] ensures t <= Clock(rest, i) {
        ClockPrefix(nows, n, i);
      }
      EagerRefillIsInvisible(rate, rest, restTicks);
      forall i | 0 <= i < n ensures EagerGranted(rate, nows, ticks, i) == Granted(rate, nows, i) {
        assert EagerGranted(rate, rest, restTicks, i) == Granted(rate, rest, i);
        assert rest[..i] == nows[..i] && restTicks[..i] == ticks[..i];
      }
      if n > 0 {
        LevelInRange(rate, rest);
        ClockPrefix(nows, n, n - 1);
        RefillAllThenRefill(After(rate, rest).value, rate, ticks[n], nows[n]);
      }
    }
  }

  // ---------- many peers ----------

  datatype Request = Request(peer: string, now: real)

  function LevelsAfter(limits: PeerLimits, requests: seq<Request>): map<string, Level> {
    if requests == [] then map[]
    else
      var last := requests[|requests| - 1];
      AllowStep(limits, LevelsAfter(limits, requests[..|requests| - 1]), last.peer, last.now).1
  }

  /** The instants of one peer's requests. */
  function Own(requests: seq<Request>, peer: string): seq<real> {
    if requests == [] then []
    else
      var last := requests[|requests| - 1];
      Own(requests[..|requests| - 1], peer) + if last.peer == peer then [last.now] else []
  }

  predicate LimitedTo(limits: PeerLimits, peer: string, rate: int) {
    peer in limits && limits[peer] == Some(Limits(Some(rate)))
  }

  predicate Unlimited(limits: PeerLimits, peer: string) {
    peer !in limits || limits[peer] == None || limits[peer] == Some(Limits(None))
  }

  lemma {:induction false} OwnLevel(limits: PeerLimits, requests: seq<Request>, peer: string)
    ensures var rate := RateOf(limits, peer);
      Get(LevelsAfter(limits, requests), peer) ==
      if rate.Some? && rate.value > 0 then After(rate.value, Own(requests, peer)) else None
  {
    if requests != [] {
      var n := |requests| - 1;
      OwnLevel(limits, requests[..n], peer);
      var own := Own(requests[..n], peer);
      assert LevelsAfter(limits, requests)
          == AllowStep(limits, LevelsAfter(limits, requests[..n]), requests[n].peer, requests[n].now).1;
      if requests[n].peer == peer {
        assert Own(requests, peer) == own + [requests[n].now];
        assert (own + [requests[n].now])[..|own|] == own;
      } else {
        assert Own(requests, peer) == own;
      }
    }
  }

  /** A peer with a limit above zero has the bucket that its own calls alone make; no other peer has one. */
  lemma OwnBucket(limits: PeerLimits, requests: seq<Request>, peer: string, rate: int)
    ensures LimitedTo(limits, peer, rate) && rate >= 1 ==>
              Get(LevelsAfter(limits, requests), peer) == After(rate, Own(requests, peer))
    ensures (LimitedTo(limits, peer, rate) && rate <= 0) || Unlimited(limits, peer) ==>
              peer !in LevelsAfter(limits, requests)
  {
    OwnLevel(limits, requests, peer);
  }

  /** How request i of an interleaved run is answered. */
  predicate Answer(limits: PeerLimits, requests: seq<Request>, i: nat)
    requires i < |requests|
  {
    AllowStep(limits, LevelsAfter(limits, requests[..i]), requests[i].peer, requests[i].now).0
  }

  /** The instants of the peer's requests up to and including request i. */
  function OwnUpTo(requests: seq<Request>, i: nat): seq<real>
    requires i < |requests|
  {
    Own(requests[..i], requests[i].peer) + [requests[i].now]
  }

  /** A peer is answered in a run interleaved with other peers as in a run of its own calls alone. */
  lemma PeersAreIndependent(limits: PeerLimits, requests: seq<Request>, i: nat, rate: int)
    requires i < |requests| && LimitedTo(limits, requests[i].peer, rate) && rate >= 1
    ensures Answer(limits, requests, i) == Granted(rate, OwnUpTo(requests, i), |OwnUpTo(requests, i)| - 1)
  {
    var peer := requests[i].peer;
    var own := Own(requests[..i], peer);
    OwnBucket(limits, requests[..i], peer, rate);
    assert (own + [requests[i].now])[..|own|] == own;
  }

  /**
   In any interleaving, a request of a peer with a limit above zero is granted exactly when that keeps every
   window of the peer's own calls within the limit; one of a peer with a limit of zero or less never
   is, and one of a peer without a limit always.
   */
  lemma AllowedExactly(limits: PeerLimits, requests: seq<Request>, i: nat, rate: int)
    requires i < |requests|
    ensures LimitedTo(limits, requests[i].peer, rate) && rate >= 1 ==>
      (Answer(limits, requests, i) <==>
         WithinEveryWindow(rate, OwnUpTo(requests, i), |OwnUpTo(requests, i)| - 1))
    ensures LimitedTo(limits, requests[i].peer, rate) && rate <= 0 ==> !Answer(limits, requests, i)
    ensures Unlimited(limits, requests[i].peer) ==> Answer(limits, requests, i)
  {
    if LimitedTo(limits, requests[i].peer, rate) && rate >= 1 {
      PeersAreIndependent(limits, requests, i, rate);
      GrantedExactly(rate, OwnUpTo(requests, i), |OwnUpTo(requests, i)| - 1);
    }
  }
}
