/** `ConnectorRateLimiter`: a token bucket, and the schedule of single moments it amounts to. */
module TokenBucket {
  import opened Options
  import opened Reals

  datatype Config = Config(rate: real, capacity: real)

  predicate Sound(c: Config) {
    c.rate > 0.0 && c.capacity >= 1.0
  }

  datatype Bucket = Bucket(tokens: real, updated: real)

  /** The tokens gained between two moments. */
  function Gained(c: Config, from: real, to: real): real {
    (to - from) * c.rate
  }

  function Refilled(c: Config, b: Bucket, now: real): real {
    Min(c.capacity, b.tokens + Gained(c, b.updated, now))
  }

  /** The time until a bucket with less than one token holds one. */
  function DelayOf(c: Config, tokens: real): real
    requires Sound(c)
  {
    (1.0 - tokens) / c.rate
  }

  /** One call: the bucket after it, and the delay returned if no token was there. */
  function Acquire(c: Config, b: Bucket, now: real): (Bucket, Option<real>)
    requires Sound(c)
  {
    var tokens := Refilled(c, b, now);
    if tokens >= 1.0 then (Bucket(tokens - 1.0, now), None)
    else (Bucket(tokens, now), Some(DelayOf(c, tokens)))
  }

  class ConnectorRateLimiter {
    const ratePerSecond: real
    const capacity: real
    var tokens: real
    var updated: real

    /** A rate that is not positive or a burst below one is an error. */
    static method Create(rate: real, burst: int, now: real) returns (r: Option<ConnectorRateLimiter>)
      ensures r.None? <==> rate <= 0.0 || burst < 1
      ensures r.Some? ==> fresh(r.value) && r.value.Settings() == Config(rate, burst as real) && Sound(r.value.Settings())
      ensures r.Some? ==> r.value.State() == Bucket(burst as real, now)
    {
      if rate <= 0.0 || burst < 1 {
        return None;
      }
      var limiter := new ConnectorRateLimiter.Full(rate, burst as real, now);
      return Some(limiter);
    }

    constructor Full(rate: real, capacity: real, now: real)
      ensures Settings() == Config(rate, capacity) && State() == Bucket(capacity, now)
    {
      ratePerSecond, this.capacity, tokens, updated := rate, capacity, capacity, now;
    }

    function Settings(): Config {
      Config(ratePerSecond, capacity)
    }

    function State(): Bucket
      reads this
    {
      Bucket(tokens, updated)
    }

    /** None when a token was taken, and otherwise the delay until one is there. */
    method TryAcquire(now: real) returns (delay: Option<real>)
      requires Sound(Settings())
      modifies this
      ensures (State(), delay) == Acquire(Settings(), old(State()), now)
      ensures var refilled := old(tokens) + (now - old(updated)) * ratePerSecond;
              var held := if refilled <= capacity then refilled else capacity;
              && updated == now
              && (held >= 1.0 ==> delay == None && tokens == held - 1.0)
              && (held < 1.0 ==> delay.Some? && delay.value * ratePerSecond == 1.0 - held && tokens == held)
    {
      ghost var before := State();
      tokens := Min(capacity, tokens + (now - updated) * ratePerSecond);
      updated := now;
      assert tokens == Refilled(Settings(), before, now);
      if tokens >= 1.0 {
        tokens := tokens - 1.0;
        return None;
      }
      var remaining := (1.0 - tokens) / ratePerSecond;
      assert remaining == DelayOf(Settings(), tokens);
      return Some(remaining);
    }

    /**
     * The loop of `wait`, with the clock readings of its rounds; each round but the last sleeps the delay it computed.
     * With nobody else acquiring, two rounds are enough.
     */
    method Wait(readings: seq<real>) returns (rounds: nat, acquired: bool)
      requires Sound(Settings())
      modifies this
      ensures rounds <= |readings| && State() == After(Settings(), old(State()), readings[..rounds])
      ensures acquired == (rounds > 0 && Granted(Settings(), old(State()), readings[..rounds]) == 1)
      ensures !acquired ==> rounds == |readings| && Granted(Settings(), old(State()), readings) == 0
      ensures |readings| >= 2 && SleepsBetween(Settings(), old(State()), readings[0], readings[1]) ==> acquired && rounds <= 2
    {
      ghost var c, before := Settings(), State();
      rounds, acquired := 0, false;
      while rounds < |readings| && !acquired
        invariant rounds <= |readings| && State() == After(c, before, readings[..rounds])
        invariant Granted(c, before, readings[..rounds]) == if acquired then 1 else 0
        invariant acquired ==> rounds > 0
        invariant rounds >= 2 && SleepsBetween(c, before, readings[0], readings[1]) ==> acquired && rounds <= 2
      {
        hide Acquire;
        assert readings[..rounds + 1][..rounds] == readings[..rounds];
        SecondRound(c, before, readings, rounds);
        var delay := TryAcquire(readings[rounds]);
        rounds := rounds + 1;
        acquired := delay == None;
      }
      assert rounds == |readings| ==> readings[..rounds] == readings;
    }
  }

  // ---- runs ------------------------------------------------------------------------------------------------

  function After(c: Config, b: Bucket, times: seq<real>): Bucket
    requires Sound(c)
  {
    if times == [] then b else Acquire(c, After(c, b, times[..|times| - 1]), times[|times| - 1]).0
  }

  /** Whether the last of the calls took a token. */
  predicate LastGranted(c: Config, b: Bucket, times: seq<real>)
    requires Sound(c) && times != []
  {
    Acquire(c, After(c, b, times[..|times| - 1]), times[|times| - 1]).1 == None
  }

  function Granted(c: Config, b: Bucket, times: seq<real>): nat
    requires Sound(c)
  {
    if times == [] then 0 else Granted(c, b, times[..|times| - 1]) + if LastGranted(c, b, times) then 1 else 0
  }

  ghost predicate Ordered(from: real, times: seq<real>) {
    && (forall i | 0 <= i < |times| :: from <= times[i])
    && forall i, j | 0 <= i < j < |times| :: times[i] <= times[j]
  }

  /** The second reading is at least the returned delay after the first. */
  predicate SleepsBetween(c: Config, b: Bucket, first: real, second: real)
    requires Sound(c)
  {
    var delay := Acquire(c, b, first).1;
    delay.Some? ==> first + delay.value <= second
  }

  // ---- the schedule ------------------------------------------------------------------------------------------

  /** The moment from which the bucket holds a token. */
  function ReadyAt(c: Config, b: Bucket): real
    requires Sound(c)
  {
    b.updated + DelayOf(c, b.tokens)
  }

  /** How far before a call the ready moment may lag: the burst less the token taken. */
  function Slack(c: Config): real
    requires Sound(c)
  {
    (c.capacity - 1.0) / c.rate
  }

  /** The ready moment after a call: one token later if it was granted, and never more than the slack behind. */
  function Advance(c: Config, ready: real, now: real): real
    requires Sound(c)
  {
    if ready <= now then Max(ready, now - Slack(c)) + 1.0 / c.rate else ready
  }

  function ScheduleAfter(c: Config, ready: real, times: seq<real>): real
    requires Sound(c)
  {
    if times == [] then ready else Advance(c, ScheduleAfter(c, ready, times[..|times| - 1]), times[|times| - 1])
  }

  /** x/rate <= y exactly when x <= y * rate. */
  lemma DivideLeq(x: real, y: real, rate: real)
    requires rate > 0.0
    ensures x / rate <= y <==> x <= y * rate
  {
    var q := x / rate;
    assert q * rate == x;
    assert (y - q) * rate == y * rate - x;
    assert y - q >= 0.0 <==> (y - q) * rate >= 0.0;
  }

  lemma DivideSum(x: real, y: real, rate: real)
    requires rate > 0.0
    ensures (x + y) / rate == x / rate + y / rate && (x * rate) / rate == x
  {
  }

  /** A call is granted exactly from the ready moment on. */
  lemma GrantedWhenReady(c: Config, b: Bucket, now: real)
    requires Sound(c)
    ensures Acquire(c, b, now).1 == None <==> ReadyAt(c, b) <= now
  {
    DivideLeq(1.0 - b.tokens, now - b.updated, c.rate);
  }

  lemma ReadyOf(c: Config, tokens: real, b: Bucket, now: real)
    requires Sound(c) && tokens == b.tokens + Gained(c, b.updated, now)
    ensures now + DelayOf(c, tokens) == ReadyAt(c, b)
  {
    DivideSum(1.0 - b.tokens, -((now - b.updated) * c.rate), c.rate);
    DivideSum(now - b.updated, 0.0, c.rate);
    assert 1.0 - tokens == 1.0 - b.tokens + -((now - b.updated) * c.rate);
  }

  /** A call moves the ready moment as the schedule says. */
  lemma AcquireAdvances(c: Config, b: Bucket, now: real)
    requires Sound(c)
    ensures ReadyAt(c, Acquire(c, b, now).0) == Advance(c, ReadyAt(c, b), now)
  {
    GrantedWhenReady(c, b, now);
    var tokens := b.tokens + Gained(c, b.updated, now);
    ReadyOf(c, tokens, b, now);
    if ReadyAt(c, b) <= now {
      DivideSum(1.0 - Min(c.capacity, tokens), 1.0, c.rate);
      DivideSum(1.0 - c.capacity, c.capacity - 1.0, c.rate);
      DivideLeq(c.capacity - tokens, 0.0, c.rate);
      DivideSum(1.0 - tokens, c.capacity - 1.0, c.rate);
    }
  }

  /** The token bucket decides every call as the schedule does: one moment is all its state. */
  lemma {:induction false} BucketIsSchedule(c: Config, b: Bucket, times: seq<real>)
    requires Sound(c)
    ensures ReadyAt(c, After(c, b, times)) == ScheduleAfter(c, ReadyAt(c, b), times)
    ensures times != [] ==>
              var n := |times| - 1;
              LastGranted(c, b, times) <==> ScheduleAfter(c, ReadyAt(c, b), times[..n]) <= times[n]
  {
    if times != [] {
      var n := |times| - 1;
      BucketIsSchedule(c, b, times[..n]);
      AcquireAdvances(c, After(c, b, times[..n]), times[n]);
      GrantedWhenReady(c, After(c, b, times[..n]), times[n]);
      hide Acquire, ReadyAt, Advance;
    }
  }

  // ---- the delay ---------------------------------------------------------------------------------------------

  /** A refused call's delay is exact: the bucket is ready at that moment and not before. */
  lemma DelayIsExact(c: Config, b: Bucket, now: real)
    requires Sound(c) && Acquire(c, b, now).1.Some?
    ensures now + Acquire(c, b, now).1.value == ReadyAt(c, Acquire(c, b, now).0) == ReadyAt(c, b)
  {
    GrantedWhenReady(c, b, now);
    AcquireAdvances(c, b, now);
  }

  lemma {:induction false} RefusedKeepReady(c: Config, ready: real, times: seq<real>)
    requires Sound(c) && forall i | 0 <= i < |times| :: times[i] < ready
    ensures ScheduleAfter(c, ready, times) == ready
  {
    if times != [] {
      RefusedKeepReady(c, ready, times[..|times| - 1]);
    }
  }

  /**
   * After a refusal at `now`, every call before now + delay is refused too, however many there are,
   * and the next call is granted exactly when it comes at now + delay or later.
   */
  lemma WaitingTheDelaySuffices(c: Config, b: Bucket, now: real, between: seq<real>, next: real)
    requires Sound(c) && Acquire(c, b, now).1.Some?
    requires var delay := Acquire(c, b, now).1.value; forall i | 0 <= i < |between| :: between[i] < now + delay
    ensures var (after, delay) := Acquire(c, b, now);
            && Granted(c, after, between) == 0
            && (LastGranted(c, after, between + [next]) <==> now + delay.value <= next)
  {
    var after := Acquire(c, b, now).0;
    DelayIsExact(c, b, now);
    NoneGranted(c, after, between);
    RefusedKeepReady(c, ReadyAt(c, after), between);
    BucketIsSchedule(c, after, between + [next]);
    assert (between + [next])[..|between|] == between;
    hide Acquire, ReadyAt;
  }

  lemma {:induction false} NoneGranted(c: Config, b: Bucket, times: seq<real>)
    requires Sound(c) && forall i | 0 <= i < |times| :: times[i] < ReadyAt(c, b)
    ensures Granted(c, b, times) == 0
  {
    hide Acquire, ReadyAt;
    if times != [] {
      var n := |times| - 1;
      NoneGranted(c, b, times[..n]);
      BucketIsSchedule(c, b, times);
      RefusedKeepReady(c, ReadyAt(c, b), times[..n]);
    }
  }

  /** The second round of `wait` succeeds if the first was refused and slept. */
  lemma SecondRound(c: Config, b: Bucket, readings: seq<real>, round: nat)
    requires Sound(c) && round < |readings|
    ensures round == 1 && SleepsBetween(c, b, readings[0], readings[1]) && !LastGranted(c, b, readings[..1]) ==>
              LastGranted(c, b, readings[..2])
  {
    if round == 1 {
      assert readings[..1][..0] == [] && readings[..2][..1] == readings[..1];
      if Acquire(c, b, readings[0]).1.Some? {
        WaitingTheDelaySuffices(c, b, readings[0], [], readings[1]);
        assert [] + [readings[1]] == [readings[1]] && [readings[1]][..0] == [];
      }
    }
  }

  // ---- the bound ---------------------------------------------------------------------------------------------

  lemma GainedSplit(c: Config, from: real, mid: real, to: real)
    ensures Gained(c, from, mid) + Gained(c, mid, to) == Gained(c, from, to)
  {
  }

  lemma GainedNonNegative(c: Config, from: real, to: real)
    requires Sound(c) && from <= to
    ensures Gained(c, from, to) >= 0.0
  {
  }

  /** Tokens left and tokens granted together never outgrow the tokens at the start and those refilled. */
  lemma {:induction false} TokensConserved(c: Config, b: Bucket, times: seq<real>)
    requires Sound(c)
    ensures var end := After(c, b, times);
            end.tokens + Granted(c, b, times) as real <= b.tokens + Gained(c, b.updated, end.updated)
  {
    if times == [] {
    } else {
      hide Gained, DelayOf;
      var n := |times| - 1;
      TokensConserved(c, b, times[..n]);
      GainedSplit(c, b.updated, After(c, b, times[..n]).updated, times[n]);
    }
  }

  ghost predicate Holds(c: Config, b: Bucket) {
    0.0 <= b.tokens <= c.capacity
  }

  lemma AcquireStays(c: Config, b: Bucket, now: real)
    requires Sound(c) && Holds(c, b) && b.updated <= now
    ensures var after := Acquire(c, b, now).0; Holds(c, after) && after.updated == now
    ensures Holds(c, Bucket(Refilled(c, b, now), now))
  {
    GainedNonNegative(c, b.updated, now);
    hide Gained, DelayOf;
  }

  /** A bucket never holds less than nothing or more than a burst. */
  lemma {:induction false} TokensStay(c: Config, b: Bucket, times: seq<real>)
    requires Sound(c) && Holds(c, b) && Ordered(b.updated, times)
    ensures var end := After(c, b, times);
            Holds(c, end) && end.updated == if times == [] then b.updated else times[|times| - 1]
  {
    if times != [] {
      var n := |times| - 1;
      TokensStay(c, b, times[..n]);
      AcquireStays(c, After(c, b, times[..n]), times[n]);
      hide Acquire;
    }
  }

  /** However a run came to where it is, calls i to j are granted at most burst + rate * (time between them) tokens. */
  lemma GrantBound(c: Config, b: Bucket, times: seq<real>, i: nat, j: nat)
    requires Sound(c) && Holds(c, b) && Ordered(b.updated, times)
    requires i <= j < |times|
    ensures var start := After(c, b, times[..i]);
            Granted(c, start, times[i..j + 1]) as real <= c.capacity + Gained(c, times[i], times[j])
  {
    var start := After(c, b, times[..i]);
    var part := times[i..j + 1];
    TokensStay(c, b, times[..i]);
    assert part[0] == times[i] && part[|part| - 1] == times[j];
    hide Gained, Granted, After;
    FirstCall(c, start, part);
  }

  lemma FirstCall(c: Config, b: Bucket, times: seq<real>)
    requires Sound(c) && Holds(c, b) && Ordered(b.updated, times) && times != []
    ensures Granted(c, b, times) as real <= c.capacity + Gained(c, times[0], times[|times| - 1])
  {
    hide Gained, Granted, After, Acquire, Refilled;
    var full := Bucket(Refilled(c, b, times[0]), times[0]);
    AcquireStays(c, b, times[0]);
    FromRefilled(c, b, times);
    TokensConserved(c, full, times);
    TokensStay(c, full, times);
  }

  /** Refilling first changes nothing for calls from then on. */
  lemma {:induction false} FromRefilled(c: Config, b: Bucket, times: seq<real>)
    requires Sound(c) && times != []
    ensures var full := Bucket(Refilled(c, b, times[0]), times[0]);
            After(c, full, times) == After(c, b, times) && Granted(c, full, times) == Granted(c, b, times)
  {
    if |times| > 1 {
      FromRefilled(c, b, times[..|times| - 1]);
    } else {
      assert times[..0] == [];
    }
  }

  /** The bound is reached: a full bucket grants a whole burst at one moment. */
  lemma {:induction false} FullBurst(c: Config, now: real, calls: nat)
    requires Sound(c) && calls as real <= c.capacity
    ensures var times := seq(calls, _ => now);
            Granted(c, Bucket(c.capacity, now), times) == calls
            && After(c, Bucket(c.capacity, now), times) == Bucket(c.capacity - calls as real, now)
  {
    if calls > 0 {
      FullBurst(c, now, calls - 1);
      var times: seq<real> := seq(calls, _ => now);
      assert times[..calls - 1] == seq(calls - 1, _ => now);
      assert Gained(c, now, now) == 0.0;
      hide Gained, DelayOf;
      assert Acquire(c, Bucket(c.capacity - (calls - 1) as real, now), now) == (Bucket(c.capacity - calls as real, now), None);
    }
  }
}
