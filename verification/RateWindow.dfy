/** `BearerTokenAuth._rate_allowed`: a pruned deque of grant times per principal, against the full grant history. */
module RateWindow {
  import opened Options

  const WINDOW: real := 60.0

  type Times = map<string, seq<real>>

  function TimesOf(m: Times, p: string): seq<real> {
    if p in m then m[p] else []
  }

  datatype Call = Call(principal: string, now: real)

  /** The deque without its leading entries at or before the cutoff. */
  function Prune(w: seq<real>, cutoff: real): seq<real> {
    if w != [] && w[0] <= cutoff then Prune(w[1..], cutoff) else w
  }

  /** The first k entries are at or before the cutoff, and the next is not. */
  predicate Stale(w: seq<real>, cutoff: real, k: nat) {
    k <= |w| && (forall i | 0 <= i < k :: w[i] <= cutoff) && (k < |w| ==> w[k] > cutoff)
  }

  /** What is dropped are the leading entries at or before the cutoff, up to the first one after it. */
  lemma {:induction false} PruneDrops(w: seq<real>, cutoff: real) returns (k: nat)
    ensures Stale(w, cutoff, k) && Prune(w, cutoff) == w[k..]
  {
    if w != [] && w[0] <= cutoff {
      var rest := w[1..];
      var m := PruneDrops(rest, cutoff);
      k := m + 1;
      assert rest[m..] == w[k..];
      assert forall i | 0 < i < |w| :: w[i] == rest[i - 1];
    } else {
      k := 0;
    }
  }

  /** A call on one deque. */
  function Decide(w: seq<real>, limit: nat, now: real): (seq<real>, bool) {
    var kept := Prune(w, now - WINDOW);
    if |kept| >= limit then (kept, false) else (kept + [now], true)
  }

  class BearerTokenAuth {
    const limit: Option<nat>
    var windows: Times

    /** A limit below one is an error. */
    static method Create(limit: Option<int>) returns (r: Option<BearerTokenAuth>)
      ensures r.None? <==> limit.Some? && limit.value < 1
      ensures r.Some? ==> fresh(r.value) && r.value.windows == map[]
      ensures r.Some? ==> r.value.limit == if limit.Some? then Some(limit.value as nat) else None
    {
      if limit.Some? && limit.value < 1 {
        return None;
      }
      var auth := new BearerTokenAuth.OfLimit(if limit.Some? then Some(limit.value as nat) else None);
      return Some(auth);
    }

    constructor OfLimit(limit: Option<nat>)
      ensures this.limit == limit && windows == map[]
    {
      this.limit := limit;
      windows := map[];
    }

    method RateAllowed(principal: string, now: real) returns (allowed: bool)
      modifies this`windows
      ensures limit == None ==> allowed && windows == old(windows)
      ensures limit.Some? ==> (windows, allowed) == Next(old(windows), limit.value, Call(principal, now))
      ensures limit.Some? ==>
                var before := TimesOf(old(windows), principal); var after := TimesOf(windows, principal);
                && (forall q | q != principal :: TimesOf(windows, q) == TimesOf(old(windows), q))
                && exists k: nat ::
                     && Stale(before, now - 60.0, k) && (allowed <==> |before| - k < limit.value)
                     && after == before[k..] + if allowed then [now] else []
    {
      if limit == None {
        return true;
      }
      var cutoff := now - WINDOW;
      var window := TimesOf(windows, principal);
      while window != [] && window[0] <= cutoff
        invariant Prune(window, cutoff) == Prune(TimesOf(old(windows), principal), cutoff)
      {
        window := window[1..];
      }
      ghost var k := PruneDrops(TimesOf(old(windows), principal), cutoff);
      hide Prune, Stale;
      allowed := |window| < limit.value;
      if allowed {
        window := window + [now];
      }
      windows := windows[principal := window];
      assert TimesOf(windows, principal) == TimesOf(old(windows), principal)[k..] + if allowed then [now] else [];
    }
  }

  function Next(windows: Times, limit: nat, c: Call): (Times, bool) {
    var (kept, allowed) := Decide(TimesOf(windows, c.principal), limit, c.now);
    (windows[c.principal := kept], allowed)
  }

  /** The deques and the decisions after some calls. */
  function Run(limit: nat, calls: seq<Call>): (Times, seq<bool>) {
    if calls == [] then (map[], [])
    else
      var (windows, decisions) := Run(limit, calls[..|calls| - 1]);
      var (after, allowed) := Next(windows, limit, calls[|calls| - 1]);
      (after, decisions + [allowed])
  }

  // ---- the full history -----------------------------------------------------------------------------------

  /** How many of the times lie in (low, high]. */
  function Within(h: seq<real>, low: real, high: real): nat {
    if h == [] then 0
    else Within(h[..|h| - 1], low, high) + if low < h[|h| - 1] <= high then 1 else 0
  }

  /** Nothing is ever forgotten, and a call is allowed while fewer than the limit were granted in its last minute. */
  function Reference(limit: nat, calls: seq<Call>): (Times, seq<bool>) {
    if calls == [] then (map[], [])
    else
      var (history, decisions) := Reference(limit, calls[..|calls| - 1]);
      var c := calls[|calls| - 1];
      var h := TimesOf(history, c.principal);
      var allowed := Within(h, c.now - 60.0, c.now) < limit;
      (if allowed then history[c.principal := h + [c.now]] else history, decisions + [allowed])
  }

  /** Each principal's readings are in order. */
  ghost predicate Ordered(calls: seq<Call>) {
    forall i, j | 0 <= i < j < |calls| && calls[i].principal == calls[j].principal :: calls[i].now <= calls[j].now
  }

  /** The deque is what the history still needs, for readings from `now` on. */
  ghost predicate Agrees(w: seq<real>, h: seq<real>, now: real) {
    && |w| <= |h| && w == h[|h| - |w|..]
    && (forall i, j | 0 <= i < j < |h| :: h[i] <= h[j])
    && (forall i | 0 <= i < |h| :: h[i] <= now)
    && (forall i | 0 <= i < |h| - |w| :: h[i] <= now - WINDOW)
  }

  lemma {:induction false} PruneAgrees(w: seq<real>, h: seq<real>, now: real)
    requires Agrees(w, h, now)
    ensures var kept := Prune(w, now - WINDOW);
            Agrees(kept, h, now) && (kept != [] ==> kept[0] > now - WINDOW)
    decreases |w|
  {
    if w != [] && w[0] <= now - WINDOW {
      assert w[0] == h[|h| - |w|];
      PruneAgrees(w[1..], h, now);
    }
  }

  /** The recent times of an ordered history are its tail. */
  lemma {:induction false} WithinIsTail(h: seq<real>, k: nat, low: real, high: real)
    requires k <= |h|
    requires forall i | 0 <= i < k :: h[i] <= low
    requires forall i | k <= i < |h| :: low < h[i] <= high
    ensures Within(h, low, high) == |h| - k
  {
    if h != [] {
      var n := |h| - 1;
      WithinIsTail(h[..n], if k <= n then k else n, low, high);
    }
  }

  lemma GrantAgrees(w: seq<real>, h: seq<real>, now: real)
    requires Agrees(w, h, now)
    ensures Agrees(w + [now], h + [now], now)
  {
    assert w + [now] == (h + [now])[|h| - |w|..];
  }

  /** The entries the deque keeps are the history's recent ones. */
  lemma KeptAreRecent(w: seq<real>, h: seq<real>, now: real)
    requires Agrees(w, h, now) && (w != [] ==> w[0] > now - WINDOW)
    ensures Within(h, now - WINDOW, now) == |w|
  {
    var k := |h| - |w|;
    forall i | k <= i < |h| ensures now - WINDOW < h[i] <= now {
      assert h[k] == w[0] && h[k] <= h[i];
    }
    WithinIsTail(h, k, now - WINDOW, now);
  }

  /** One call on the deque and on the history: the same decision, and they still agree. */
  lemma DecideAgrees(w: seq<real>, h: seq<real>, limit: nat, now: real)
    requires Agrees(w, h, now)
    ensures var (after, allowed) := Decide(w, limit, now);
            && allowed == (Within(h, now - WINDOW, now) < limit)
            && Agrees(after, if allowed then h + [now] else h, now)
  {
    hide Agrees, Within, Prune;
    PruneAgrees(w, h, now);
    var kept := Prune(w, now - WINDOW);
    KeptAreRecent(kept, h, now);
    GrantAgrees(kept, h, now);
  }

  lemma AgreesLater(w: seq<real>, h: seq<real>, now: real, later: real)
    requires Agrees(w, h, now) && now <= later
    ensures Agrees(w, h, later)
  {
  }

  /** The run and the reference agree for every principal, from its last reading on. */
  ghost predicate RunAgrees(limit: nat, calls: seq<Call>) {
    && Run(limit, calls).1 == Reference(limit, calls).1
    && forall p, now: real | (forall i | 0 <= i < |calls| && calls[i].principal == p :: calls[i].now <= now) ::
         Agrees(TimesOf(Run(limit, calls).0, p), TimesOf(Reference(limit, calls).0, p), now)
  }

  lemma RunSnoc(limit: nat, calls: seq<Call>, c: Call)
    ensures var (windows, decisions) := Run(limit, calls);
            Run(limit, calls + [c]) == (Next(windows, limit, c).0, decisions + [Next(windows, limit, c).1])
  {
    assert (calls + [c])[..|calls|] == calls;
  }

  lemma ReferenceSnoc(limit: nat, calls: seq<Call>, c: Call)
    ensures var (history, decisions) := Reference(limit, calls);
            var h := TimesOf(history, c.principal);
            var allowed := Within(h, c.now - WINDOW, c.now) < limit;
            && Reference(limit, calls + [c]).1 == decisions + [allowed]
            && Reference(limit, calls + [c]).0 == if allowed then history[c.principal := h + [c.now]] else history
  {
    assert (calls + [c])[..|calls|] == calls;
  }

  lemma RunAgreesNext(limit: nat, calls: seq<Call>, c: Call)
    requires RunAgrees(limit, calls)
    requires forall i | 0 <= i < |calls| && calls[i].principal == c.principal :: calls[i].now <= c.now
    ensures RunAgrees(limit, calls + [c])
  {
    var all := calls + [c];
    RunSnoc(limit, calls, c);
    ReferenceSnoc(limit, calls, c);
    var windows, history := Run(limit, calls).0, Reference(limit, calls).0;
    var w, h := TimesOf(windows, c.principal), TimesOf(history, c.principal);
    hide Agrees, Within, Decide, Run, Reference;
    assert Agrees(w, h, c.now);
    DecideAgrees(w, h, limit, c.now);
    assert all[|calls|] == c && forall i | 0 <= i < |calls| :: all[i] == calls[i];
    forall p, now: real | forall i | 0 <= i < |all| && all[i].principal == p :: all[i].now <= now
      ensures Agrees(TimesOf(Run(limit, all).0, p), TimesOf(Reference(limit, all).0, p), now)
    {
      if p == c.principal {
        AgreesLater(TimesOf(Run(limit, all).0, p), TimesOf(Reference(limit, all).0, p), c.now, now);
      } else {
        assert TimesOf(Run(limit, all).0, p) == TimesOf(windows, p);
        assert TimesOf(Reference(limit, all).0, p) == TimesOf(history, p);
      }
    }
  }

  lemma {:induction false} OrderedRunAgrees(limit: nat, calls: seq<Call>)
    requires Ordered(calls)
    ensures RunAgrees(limit, calls)
  {
    if calls != [] {
      var n := |calls| - 1;
      assert calls == calls[..n] + [calls[n]];
      OrderedRunAgrees(limit, calls[..n]);
      hide RunAgrees;
      RunAgreesNext(limit, calls[..n], calls[n]);
    }
  }

  /** Pruned deques decide every call exactly as the full grant history would. */
  lemma DecidesAsHistory(limit: nat, calls: seq<Call>)
    requires Ordered(calls)
    ensures Run(limit, calls).1 == Reference(limit, calls).1
  {
    OrderedRunAgrees(limit, calls);
  }

  // ---- agreement needs the order ------------------------------------------------------------------------------

  /** The calls of cs at the given positions, in order. */
  ghost predicate PickedAt(ds: seq<Call>, cs: seq<Call>, at: seq<nat>) {
    && |at| == |ds| && (forall k | 0 <= k < |ds| :: at[k] < |cs| && ds[k] == cs[at[k]])
    && forall k, l | 0 <= k < l < |ds| :: at[k] < at[l]
  }

  /** Some of the calls of cs, in their order. */
  ghost predicate Picked(ds: seq<Call>, cs: seq<Call>) {
    exists at: seq<nat> :: PickedAt(ds, cs, at)
  }

  ghost predicate Agree(limit: nat, calls: seq<Call>) {
    Run(limit, calls).1 == Reference(limit, calls).1
  }

  lemma PickedOrdered(ds: seq<Call>, cs: seq<Call>)
    requires Ordered(cs) && Picked(ds, cs)
    ensures Ordered(ds)
  {
    var at: seq<nat> :| PickedAt(ds, cs, at);
    forall k, l | 0 <= k < l < |ds| && ds[k].principal == ds[l].principal ensures ds[k].now <= ds[l].now {
      assert cs[at[k]] == ds[k] && cs[at[l]] == ds[l];
    }
  }

  /** Two calls out of order: the deque still holds the first grant, which the second call's last minute does not. */
  lemma LatePairDisagrees(c: Call, d: Call)
    requires c.principal == d.principal && d.now < c.now
    ensures !Agree(1, [c, d])
  {
    RunSnoc(1, [], c);
    RunSnoc(1, [c], d);
    ReferenceSnoc(1, [], c);
    ReferenceSnoc(1, [c], d);
    assert [] + [c] == [c] && [c] + [d] == [c, d] && [] + [c.now] == [c.now];
    assert Run(1, []) == (map[], []) && Reference(1, []) == (map[], []);
    assert Within([], c.now - WINDOW, c.now) == 0 && [c.now][..0] == [] && Within([], d.now - WINDOW, d.now) == 0;
    assert Decide([], 1, c.now) == ([c.now], true) && Decide([c.now], 1, d.now) == ([c.now], false);
    assert Within([c.now], d.now - WINDOW, d.now) == 0;
    hide Run, Reference, Decide, Within;
    assert Run(1, [c, d]).1[1] != Reference(1, [c, d]).1[1];
  }

  /** The deques decide every selection of the calls as the history does, under every limit, exactly when readings are in order. */
  lemma AgreeIffOrdered(cs: seq<Call>)
    ensures Ordered(cs) <==> forall limit: nat, ds: seq<Call> | limit >= 1 && Picked(ds, cs) :: Agree(limit, ds)
  {
    hide Agree;
    if Ordered(cs) {
      forall limit: nat, ds: seq<Call> | limit >= 1 && Picked(ds, cs) ensures Agree(limit, ds) {
        OrderedSelectionAgrees(limit, ds, cs);
      }
    } else {
      var i, j :| 0 <= i < j < |cs| && cs[i].principal == cs[j].principal && cs[j].now < cs[i].now;
      LatePairDisagrees(cs[i], cs[j]);
      assert PickedAt([cs[i], cs[j]], cs, [i, j]);
    }
  }

  lemma OrderedSelectionAgrees(limit: nat, ds: seq<Call>, cs: seq<Call>)
    requires Ordered(cs) && Picked(ds, cs)
    ensures Agree(limit, ds)
  {
    PickedOrdered(ds, cs);
    DecidesAsHistory(limit, ds);
  }

  // ---- one principal --------------------------------------------------------------------------------------------

  /** A principal's readings, in the order of its calls. */
  function ReadingsOf(calls: seq<Call>, p: string): seq<real> {
    if calls == [] then []
    else
      var n := |calls| - 1;
      ReadingsOf(calls[..n], p) + if calls[n].principal == p then [calls[n].now] else []
  }

  /** The deque and the granted times after some readings of one principal. */
  function Solo(limit: nat, readings: seq<real>): (seq<real>, seq<real>) {
    if readings == [] then ([], [])
    else
      var (w, log) := Solo(limit, readings[..|readings| - 1]);
      SoloNext(limit, w, log, readings[|readings| - 1])
  }

  function SoloNext(limit: nat, w: seq<real>, log: seq<real>, now: real): (seq<real>, seq<real>) {
    var (after, allowed) := Decide(w, limit, now);
    (after, if allowed then log + [now] else log)
  }

  /** The times granted to a principal, in the order of the calls. */
  function Granted(calls: seq<Call>, decisions: seq<bool>, p: string): seq<real>
    requires |decisions| == |calls|
  {
    if calls == [] then []
    else
      var n := |calls| - 1;
      Granted(calls[..n], decisions[..n], p) + if decisions[n] && calls[n].principal == p then [calls[n].now] else []
  }

  ghost function Log(limit: nat, calls: seq<Call>, p: string): seq<real> {
    Solo(limit, ReadingsOf(calls, p)).1
  }

  lemma SoloSnoc(limit: nat, readings: seq<real>, now: real)
    ensures Solo(limit, readings + [now]) == SoloNext(limit, Solo(limit, readings).0, Solo(limit, readings).1, now)
  {
    assert (readings + [now])[..|readings|] == readings;
  }

  lemma ReadingsSnoc(calls: seq<Call>, c: Call, p: string)
    ensures ReadingsOf(calls + [c], p) == if c.principal == p then ReadingsOf(calls, p) + [c.now] else ReadingsOf(calls, p)
  {
    assert (calls + [c])[..|calls|] == calls;
  }

  lemma GrantedSnoc(calls: seq<Call>, decisions: seq<bool>, c: Call, allowed: bool, p: string)
    requires |decisions| == |calls|
    ensures Granted(calls + [c], decisions + [allowed], p)
         == if allowed && c.principal == p then Granted(calls, decisions, p) + [c.now] else Granted(calls, decisions, p)
  {
    assert (calls + [c])[..|calls|] == calls && (decisions + [allowed])[..|calls|] == decisions;
  }

  /** Principals do not meet: each one's deque and grants depend on its own readings only. */
  lemma {:induction false} PrincipalsAreSolo(limit: nat, calls: seq<Call>, p: string)
    ensures TimesOf(Run(limit, calls).0, p) == Solo(limit, ReadingsOf(calls, p)).0
    ensures |Run(limit, calls).1| == |calls| && Granted(calls, Run(limit, calls).1, p) == Log(limit, calls, p)
  {
    if calls != [] {
      hide Decide, Granted, Run, Solo, ReadingsOf;
      var n := |calls| - 1;
      var before, c := calls[..n], calls[n];
      assert calls == before + [c];
      PrincipalsAreSolo(limit, before, p);
      RunSnoc(limit, before, c);
      ReadingsSnoc(before, c, p);
      SoloSnoc(limit, ReadingsOf(before, p), c.now);
      GrantedSnoc(before, Run(limit, before).1, c, Next(Run(limit, before).0, limit, c).1, p);
    }
  }

  // ---- the bound ------------------------------------------------------------------------------------------------

  /** The deque is the end of the log; what was dropped was a minute old at some reading, none of which is above `high`. */
  ghost predicate Tracks(w: seq<real>, log: seq<real>, high: real) {
    && |w| <= |log| && w == log[|log| - |w|..]
    && forall i | 0 <= i < |log| - |w| :: log[i] <= high - WINDOW
  }

  lemma {:induction false} PruneTracks(w: seq<real>, log: seq<real>, high: real, now: real)
    requires Tracks(w, log, high) && now <= high
    ensures Tracks(Prune(w, now - WINDOW), log, high)
    decreases |w|
  {
    if w != [] && w[0] <= now - WINDOW {
      assert w[0] == log[|log| - |w|];
      PruneTracks(w[1..], log, high, now);
    }
  }

  lemma NextTracks(limit: nat, w: seq<real>, log: seq<real>, high: real, now: real)
    requires Tracks(w, log, high) && now <= high
    ensures Tracks(SoloNext(limit, w, log, now).0, SoloNext(limit, w, log, now).1, high)
  {
    PruneTracks(w, log, high, now);
    var kept := Prune(w, now - WINDOW);
    assert kept + [now] == (log + [now])[|log| - |kept|..];
  }

  lemma {:induction false} SoloTracks(limit: nat, readings: seq<real>, high: real)
    requires forall i | 0 <= i < |readings| :: readings[i] <= high
    ensures Tracks(Solo(limit, readings).0, Solo(limit, readings).1, high)
  {
    if readings != [] {
      var n := |readings| - 1;
      SoloTracks(limit, readings[..n], high);
      NextTracks(limit, Solo(limit, readings[..n]).0, Solo(limit, readings[..n]).1, high, readings[n]);
      hide Tracks, SoloNext;
    }
  }

  /** When the first k times are not above `low`, only the others can count. */
  lemma {:induction false} WithinTail(h: seq<real>, k: nat, low: real, high: real)
    requires k <= |h| && forall i | 0 <= i < k :: h[i] <= low
    ensures Within(h, low, high) <= |h| - k
  {
    if h != [] {
      var n := |h| - 1;
      WithinTail(h[..n], if k <= n then k else n, low, high);
    }
  }

  lemma WithinSnoc(h: seq<real>, x: real, low: real, high: real)
    ensures Within(h + [x], low, high) == Within(h, low, high) + if low < x <= high then 1 else 0
  {
    assert (h + [x])[..|h|] == h;
  }

  /** No reading lies more than e behind an earlier one. */
  ghost predicate Skewed(readings: seq<real>, e: real) {
    forall i, j | 0 <= i < j < |readings| :: readings[i] - e <= readings[j]
  }

  /** One more grant in a window shortened by the skew: the deque still holds all of the window's grants. */
  lemma GrantInWindow(limit: nat, w: seq<real>, log: seq<real>, now: real, low: real, high: real)
    requires Tracks(w, log, low + WINDOW) && now <= low + WINDOW && Within(log, low, high) <= limit
    ensures Within(SoloNext(limit, w, log, now).1, low, high) <= limit
  {
    var kept := Prune(w, now - WINDOW);
    PruneTracks(w, log, low + WINDOW, now);
    WithinTail(log, |log| - |kept|, low, high);
    WithinSnoc(log, now, low, high);
  }

  lemma GrantOutside(limit: nat, w: seq<real>, log: seq<real>, now: real, low: real, high: real)
    requires !(low < now <= high) && Within(log, low, high) <= limit
    ensures Within(SoloNext(limit, w, log, now).1, low, high) <= limit
  {
    WithinSnoc(log, now, low, high);
  }

  lemma {:induction false} SoloSkewed(limit: nat, readings: seq<real>, e: real, t: real)
    requires 0.0 <= e && Skewed(readings, e)
    ensures Within(Solo(limit, readings).1, t - WINDOW + e, t) <= limit
  {
    if readings != [] {
      var n := |readings| - 1;
      var before, now := readings[..n], readings[n];
      SoloSkewed(limit, before, e, t);
      var (w, log) := Solo(limit, before);
      assert Solo(limit, readings) == SoloNext(limit, w, log, now);
      hide SoloNext, Within, Tracks;
      if t - WINDOW + e < now <= t {
        SoloTracks(limit, before, t + e);
        assert t - WINDOW + e + WINDOW == t + e;
        GrantInWindow(limit, w, log, now, t - WINDOW + e, t);
      } else {
        GrantOutside(limit, w, log, now, t - WINDOW + e, t);
      }
    }
  }

  /**
   * If no reading of a principal lies more than e behind an earlier one, the principal is granted at most the limit
   * in any (t - 60 + e, t], for any moment t whatever.
   */
  lemma SkewedBound(limit: nat, calls: seq<Call>, p: string, e: real, t: real)
    requires 0.0 <= e && Skewed(ReadingsOf(calls, p), e)
    ensures Within(Log(limit, calls, p), t - WINDOW + e, t) <= limit
  {
    SoloSkewed(limit, ReadingsOf(calls, p), e, t);
  }

  lemma {:induction false} OrderedReadings(calls: seq<Call>, p: string, high: real)
    requires Ordered(calls) && forall i | 0 <= i < |calls| && calls[i].principal == p :: calls[i].now <= high
    ensures Skewed(ReadingsOf(calls, p), 0.0) && forall r | r in ReadingsOf(calls, p) :: r <= high
  {
    if calls != [] {
      var n := |calls| - 1;
      if calls[n].principal == p {
        OrderedReadings(calls[..n], p, calls[n].now);
        var before := ReadingsOf(calls[..n], p);
        assert forall i | 0 <= i < |before| :: before[i] in before;
      } else {
        OrderedReadings(calls[..n], p, high);
      }
    }
  }

  /** An upper bound of the readings. */
  lemma {:induction false} Highest(calls: seq<Call>) returns (high: real)
    ensures forall i | 0 <= i < |calls| :: calls[i].now <= high
  {
    high := 0.0;
    if calls != [] {
      high := Highest(calls[..|calls| - 1]);
      if high < calls[|calls| - 1].now {
        high := calls[|calls| - 1].now;
      }
    }
  }

  /** In order, no principal is granted more than the limit in (t - 60, t]. */
  lemma WindowBound(limit: nat, calls: seq<Call>, p: string, t: real)
    requires Ordered(calls)
    ensures |Run(limit, calls).1| == |calls|
    ensures Within(Granted(calls, Run(limit, calls).1, p), t - 60.0, t) <= limit
  {
    PrincipalsAreSolo(limit, calls, p);
    var high := Highest(calls);
    OrderedReadings(calls, p, high);
    SkewedBound(limit, calls, p, 0.0, t);
  }

  // ---- readings out of order ----------------------------------------------------------------------------------

  /** Any two grants are a minute apart, the later call's time being the larger. */
  ghost predicate Spaced(log: seq<real>) {
    forall i, j | 0 <= i < j < |log| :: log[i] <= log[j] - WINDOW
  }

  function LastOf(log: seq<real>): seq<real> {
    if log == [] then [] else [log[|log| - 1]]
  }

  lemma SpacedSnoc(log: seq<real>, now: real)
    requires Spaced(log) && (log != [] ==> log[|log| - 1] <= now - WINDOW)
    ensures Spaced(log + [now])
  {
    forall i | 0 <= i < |log| ensures log[i] <= now - WINDOW {
      assert i < |log| - 1 ==> log[i] <= log[|log| - 1] - WINDOW;
    }
  }

  lemma SingleDecided(log: seq<real>, now: real)
    ensures SoloNext(1, LastOf(log), log, now)
         == if log != [] && log[|log| - 1] > now - WINDOW then (LastOf(log), log) else ([now], log + [now])
  {
    var w := LastOf(log);
    if log != [] {
      assert w[1..] == [];
      assert Prune(w[1..], now - WINDOW) == [];
    }
    assert [] + [now] == [now];
  }

  /** Under a limit of one, the deque holds exactly the last grant. */
  lemma {:induction false} LimitOneSpaces(readings: seq<real>)
    ensures Spaced(Solo(1, readings).1) && Solo(1, readings).0 == LastOf(Solo(1, readings).1)
  {
    if readings != [] {
      var n := |readings| - 1;
      LimitOneSpaces(readings[..n]);
      var log := Solo(1, readings[..n]).1;
      assert Solo(1, readings) == SoloNext(1, LastOf(log), log, readings[n]);
      hide Solo, SoloNext;
      SingleDecided(log, readings[n]);
      if !(log != [] && log[|log| - 1] > readings[n] - WINDOW) {
        SpacedSnoc(log, readings[n]);
      }
    }
  }

  lemma {:induction false} SpacedWithin(log: seq<real>, t: real)
    requires Spaced(log)
    ensures Within(log, t - WINDOW, t) <= 1
  {
    if log != [] {
      var n := |log| - 1;
      SpacedWithin(log[..n], t);
      if t - WINDOW < log[n] <= t {
        WithinTail(log[..n], n, t - WINDOW, t);
      }
    }
  }

  lemma {:induction false} PruneAll(w: seq<real>, cutoff: real)
    requires forall i | 0 <= i < |w| :: w[i] <= cutoff
    ensures Prune(w, cutoff) == []
  {
    if w != [] {
      PruneAll(w[1..], cutoff);
    }
  }

  function Zeros(n: nat): (r: seq<real>)
    ensures |r| == n && forall i | 0 <= i < n :: r[i] == 0.0
  {
    seq(n, _ => 0.0)
  }

  lemma ZerosDecided(limit: nat, n: nat)
    requires n < limit
    ensures SoloNext(limit, Zeros(n), Zeros(n), 0.0) == (Zeros(n + 1), Zeros(n + 1))
  {
    assert Prune(Zeros(n), 0.0 - WINDOW) == Zeros(n);
    assert Zeros(n) + [0.0] == Zeros(n + 1);
  }

  lemma {:induction false} BurstGranted(limit: nat, n: nat)
    requires n <= limit
    ensures Solo(limit, Zeros(n)) == (Zeros(n), Zeros(n))
  {
    if n > 0 {
      BurstGranted(limit, n - 1);
      SoloSnoc(limit, Zeros(n - 1), 0.0);
      ZerosDecided(limit, n - 1);
      hide Solo, SoloNext;
      assert Zeros(n) == Zeros(n - 1) + [0.0];
    } else {
      assert Zeros(0) == [];
    }
  }

  /** As many readings as the limit at 0, one at 60, and then one that is e late. */
  function LateReadings(limit: nat, e: real): seq<real> {
    Zeros(limit) + [WINDOW] + [WINDOW - e]
  }

  lemma LateDecided(limit: nat, log: seq<real>, e: real)
    requires limit >= 2 && e >= 0.0
    ensures SoloNext(limit, Zeros(limit), log, WINDOW) == ([WINDOW], log + [WINDOW])
    ensures e <= WINDOW ==> SoloNext(limit, [WINDOW], log, WINDOW - e).1 == log + [WINDOW - e]
  {
    PruneAll(Zeros(limit), 0.0);
    assert [] + [WINDOW] == [WINDOW];
  }

  lemma LateLog(limit: nat, e: real)
    requires limit >= 2 && 0.0 <= e <= WINDOW
    ensures Solo(limit, LateReadings(limit, e)).1 == LateReadings(limit, e)
  {
    BurstGranted(limit, limit);
    SoloSnoc(limit, Zeros(limit), WINDOW);
    SoloSnoc(limit, Zeros(limit) + [WINDOW], WINDOW - e);
    LateDecided(limit, Zeros(limit), e);
    LateDecided(limit, Zeros(limit) + [WINDOW], e);
    hide Solo, SoloNext;
  }

  lemma {:induction false} AllWithin(n: nat, low: real, high: real)
    requires low < 0.0 <= high
    ensures Within(Zeros(n), low, high) == n
  {
    if n > 0 {
      AllWithin(n - 1, low, high);
      assert Zeros(n)[..n - 1] == Zeros(n - 1);
    }
  }

  /** Calls of one principal with these readings. */
  function CallsAt(readings: seq<real>): (calls: seq<Call>)
    ensures |calls| == |readings| && forall i | 0 <= i < |calls| :: calls[i] == Call("p", readings[i])
  {
    seq(|readings|, i requires 0 <= i < |readings| => Call("p", readings[i]))
  }

  lemma {:induction false} ReadingsOfCallsAt(readings: seq<real>)
    ensures ReadingsOf(CallsAt(readings), "p") == readings
  {
    if readings != [] {
      var n := |readings| - 1;
      ReadingsOfCallsAt(readings[..n]);
      assert CallsAt(readings)[..n] == CallsAt(readings[..n]);
      assert readings == readings[..n] + [readings[n]];
    }
  }

  /**
   * The clock is read before the lock is taken, so a reading can reach the deque after a later one. Under a limit of
   * two or more, the reading 60 forgets grants that a reading e before it should still count.
   */
  lemma LateReadingExceedsLimit(limit: nat, e: real, d: real)
    requires limit >= 2 && 0.0 <= d < e <= WINDOW
    ensures var calls, t := CallsAt(LateReadings(limit, e)), WINDOW - e;
            Skewed(ReadingsOf(calls, "p"), e) && Within(Log(limit, calls, "p"), t - WINDOW + d, t) == limit + 1
  {
    var t := WINDOW - e;
    ReadingsOfCallsAt(LateReadings(limit, e));
    LateLog(limit, e);
    AllWithin(limit, t - WINDOW + d, t);
    WithinSnoc(Zeros(limit), WINDOW, t - WINDOW + d, t);
    WithinSnoc(Zeros(limit) + [WINDOW], t, t - WINDOW + d, t);
    hide Solo, ReadingsOf, Within;
  }

  ghost predicate WithinLimit(limit: nat, calls: seq<Call>, p: string, d: real, t: real) {
    Within(Log(limit, calls, p), t - 60.0 + d, t) <= limit
  }

  /** With readings at most e late, no principal is granted more than the limit in any (t - 60 + d, t]. */
  ghost predicate KeepsShortened(limit: nat, e: real, d: real) {
    forall calls: seq<Call>, p: string, t: real | Skewed(ReadingsOf(calls, p), e) :: WithinLimit(limit, calls, p, d, t)
  }

  lemma {:induction false} WithinAtMost(h: seq<real>, low: real, bottom: real, high: real)
    requires low <= bottom
    ensures Within(h, bottom, high) <= Within(h, low, high)
  {
    if h != [] {
      WithinAtMost(h[..|h| - 1], low, bottom, high);
    }
  }

  /** From a limit of two on, the window must be shortened by exactly the lateness. */
  lemma KeepsShortenedIff(limit: nat, e: real, d: real)
    requires limit >= 2 && 0.0 <= e <= WINDOW && 0.0 <= d
    ensures KeepsShortened(limit, e, d) <==> e <= d
  {
    if e <= d {
      forall calls: seq<Call>, p: string, t: real | Skewed(ReadingsOf(calls, p), e) ensures WithinLimit(limit, calls, p, d, t) {
        SkewedBound(limit, calls, p, e, t);
        WithinAtMost(Log(limit, calls, p), t - WINDOW + e, t - WINDOW + d, t);
      }
    } else {
      LateReadingExceedsLimit(limit, e, d);
      assert !WithinLimit(limit, CallsAt(LateReadings(limit, e)), "p", d, WINDOW - e);
    }
  }

  /** Whatever order the readings come in, no principal is granted more than the limit in any (t - 60, t]. */
  ghost predicate KeepsBound(limit: nat) {
    forall calls: seq<Call>, p: string, t: real :: WithinLimit(limit, calls, p, 0.0, t)
  }

  /** Exactly a limit of one needs no order. */
  lemma KeepsBoundIffOne(limit: nat)
    requires limit >= 1
    ensures KeepsBound(limit) <==> limit == 1
  {
    if limit == 1 {
      forall calls: seq<Call>, p: string, t: real ensures WithinLimit(1, calls, p, 0.0, t) {
        LimitOneSpaces(ReadingsOf(calls, p));
        SpacedWithin(Log(1, calls, p), t);
      }
    } else {
      LateReadingExceedsLimit(limit, 1.0, 0.0);
      assert !WithinLimit(limit, CallsAt(LateReadings(limit, 1.0)), "p", 0.0, 59.0);
    }
  }
}
