/** `build_session_exchanges`: a session's memories and telemetry events grouped into exchanges. */
module ExchangeBuilder {
  import opened Options
  import opened Bytes
  import opened Sequences

  /** Absent and empty texts are not told apart by the code; both are "". */
  datatype Memory = Memory(id: string, role: string, evidenceClass: string, promptId: string, observedAt: string)

  /** createdAt holds the code points of the timestamp, which is compared as text. */
  datatype Event = Event(id: string, promptId: string, memoryId: string, createdAt: seq<int>)

  datatype Exchange = Exchange(promptIds: seq<string>, responseIds: seq<string>, eventIds: seq<string>,
                               promptId: string, promptTime: Option<string>, responseTime: Option<string>)

  function NonSummary(ms: seq<Memory>): seq<Memory> {
    if ms == [] then []
    else NonSummary(ms[..|ms| - 1]) + if ms[|ms| - 1].evidenceClass != "summary" then [ms[|ms| - 1]] else []
  }

  /** Every memory is looked at on its own, and kept in order unless it is a summary. */
  lemma {:induction false} NonSummarySplits(ms: seq<Memory>, m: Memory, ns: seq<Memory>)
    ensures NonSummary(ms + [m] + ns) == NonSummary(ms) + (if m.evidenceClass == "summary" then [] else [m]) + NonSummary(ns)
  {
    if ns == [] {
      assert ms + [m] + ns == ms + [m] && (ms + [m])[..|ms|] == ms;
    } else {
      var n := |ns| - 1;
      var all := ms + [m] + ns;
      assert all[..|all| - 1] == ms + [m] + ns[..n];
      NonSummarySplits(ms, m, ns[..n]);
    }
  }

  // ---- events ----------------------------------------------------------------------------------------

  datatype Link = ByPrompt(id: string) | ByMemory(id: string)

  predicate Matches(e: Event, link: Link) {
    link.id != "" && link.id == if link.ByPrompt? then e.promptId else e.memoryId
  }

  /** The events with a link, oldest first. */
  function Linked(es: seq<Event>, link: Link): seq<Event> {
    if es == [] then []
    else Linked(es[..|es| - 1], link) + if Matches(es[|es| - 1], link) then [es[|es| - 1]] else []
  }

  /** The ids of events put into an insertion-ordered dictionary that already holds some. */
  function Merge(ids: seq<string>, es: seq<Event>): seq<string> {
    if es == [] then ids
    else
      var r, id := Merge(ids, es[..|es| - 1]), es[|es| - 1].id;
      if id in r then r else r + [id]
  }

  function MergeMemory(ids: seq<string>, es: seq<Event>, m: Memory): seq<string> {
    Merge(Merge(ids, Linked(es, ByMemory(m.id))), Linked(es, ByPrompt(m.promptId)))
  }

  function MergeMemories(ids: seq<string>, es: seq<Event>, ms: seq<Memory>): seq<string> {
    if ms == [] then ids else MergeMemory(MergeMemories(ids, es, ms[..|ms| - 1]), es, ms[|ms| - 1])
  }

  /** The event belongs to the memory, by memory id or by prompt id. */
  predicate Touches(e: Event, m: Memory) {
    (m.id != "" && e.memoryId == m.id) || (m.promptId != "" && e.promptId == m.promptId)
  }

  /** The events under each id, as the two lookup dictionaries hold them. */
  type Index = map<string, seq<Event>>

  function Lookup(g: Index, id: string): seq<Event> {
    if id in g then g[id] else []
  }

  function AddTo(g: Index, id: string, e: Event): Index {
    g[id := Lookup(g, id) + [e]]
  }

  ghost predicate Indexes(g: Index, es: seq<Event>, link: string -> Link) {
    forall id ::
      && Lookup(g, id) == Linked(es, link(id))
      && (id in g <==> Linked(es, link(id)) != [])
  }

  lemma IndexNext(g: Index, es: seq<Event>, i: nat, link: string -> Link, id: string)
    requires i < |es| && Indexes(g, es[..i], link)
    requires forall x :: Matches(es[i], link(x)) <==> x != "" && x == id
    ensures Indexes(if id != "" then AddTo(g, id, es[i]) else g, es[..i + 1], link)
  {
    assert es[..i + 1][..i] == es[..i];
    hide Matches;
    assert forall x :: Linked(es[..i + 1], link(x))
                    == Linked(es[..i], link(x)) + if Matches(es[i], link(x)) then [es[i]] else [];
    hide Linked;
  }

  // ---- turns -----------------------------------------------------------------------------------------

  datatype Turn = Turn(prompt: Option<Memory>, responses: seq<Memory>) {
    function Members(): seq<Memory> {
      if prompt.Some? then [prompt.value] + responses else responses
    }
  }

  predicate IsUser(m: Memory) {
    m.role == "user"
  }

  /** A user memory opens a turn; every other memory joins the open one. */
  function Turns(ms: seq<Memory>): (ts: seq<Turn>)
    ensures ms != [] ==> ts != []
  {
    if ms == [] then []
    else
      var ts, m := Turns(ms[..|ms| - 1]), ms[|ms| - 1];
      if IsUser(m) then ts + [Turn(Some(m), [])]
      else if ts == [] then [Turn(None, [m])]
      else
        var last := ts[|ts| - 1];
        ts[..|ts| - 1] + [Turn(last.prompt, last.responses + [m])]
  }

  function ExchangeOf(t: Turn, es: seq<Event>): Exchange {
    Exchange(if t.prompt.Some? then [t.prompt.value.id] else [],
             Ids(t.responses),
             MergeMemories([], es, t.Members()),
             if t.prompt.Some? then t.prompt.value.promptId else "",
             if t.prompt.Some? then Some(t.prompt.value.observedAt) else None,
             if t.responses != [] then Some(t.responses[|t.responses| - 1].observedAt) else None)
  }

  function Ids(ms: seq<Memory>): (ids: seq<string>)
    ensures |ids| == |ms| && forall i | 0 <= i < |ms| :: ids[i] == ms[i].id
  {
    seq(|ms|, i requires 0 <= i < |ms| => ms[i].id)
  }

  function ExchangesOf(ts: seq<Turn>, es: seq<Event>): (xs: seq<Exchange>)
    ensures |xs| == |ts| && forall i | 0 <= i < |ts| :: xs[i] == ExchangeOf(ts[i], es)
  {
    seq(|ts|, i requires 0 <= i < |ts| => ExchangeOf(ts[i], es))
  }

  /** The prompt ids the turns carry. */
  ghost predicate Seen(ts: seq<Turn>, p: string) {
    p != "" && exists i :: 0 <= i < |ts| && ts[i].prompt.Some? && ts[i].prompt.value.promptId == p
  }

  /** The turn still open, if anything has opened one. */
  ghost function OpenTurn(prompt: Option<Memory>, responses: seq<Memory>): seq<Turn> {
    if prompt == None && responses == [] then [] else [Turn(prompt, responses)]
  }

  ghost function EventIds(es: seq<Event>, prompt: Option<Memory>, responses: seq<Memory>): seq<string> {
    MergeMemories([], es, Turn(prompt, responses).Members())
  }

  // ---- prompt ids no turn carries ----------------------------------------------------------------------

  ghost predicate Unseen(ms: seq<Memory>, es: seq<Event>, p: string) {
    Linked(es, ByPrompt(p)) != [] && !Seen(Turns(ms), p)
  }

  function Earliest(es: seq<Event>): (t: seq<int>)
    requires es != []
  {
    var last := es[|es| - 1].createdAt;
    if |es| == 1 then last
    else
      var before := Earliest(es[..|es| - 1]);
      if LexLeq(before, last) then before else last
  }

  predicate Before(es: seq<Event>, p: string, q: string) {
    var x, y := Linked(es, ByPrompt(p)), Linked(es, ByPrompt(q));
    x != [] && y != [] && LexLeq(Earliest(x), Earliest(y))
  }

  /** The ids once each, by the time of their first event. */
  ghost predicate InOrder(ps: seq<string>, es: seq<Event>) {
    NoDuplicates(ps) && forall i, j | 0 <= i < j < |ps| :: Before(es, ps[i], ps[j])
  }

  function EventsOnly(p: string, es: seq<Event>): Exchange {
    var found := Linked(es, ByPrompt(p));
    Exchange([], [], seq(|found|, i requires 0 <= i < |found| => found[i].id), p, None, None)
  }

  function Extras(ps: seq<string>, es: seq<Event>): (xs: seq<Exchange>)
    ensures |xs| == |ps| && forall i | 0 <= i < |ps| :: xs[i] == EventsOnly(ps[i], es)
  {
    seq(|ps|, i requires 0 <= i < |ps| => EventsOnly(ps[i], es))
  }

  // ---- the whole build ---------------------------------------------------------------------------------

  ghost predicate IsUnseenOrder(ms: seq<Memory>, es: seq<Event>, ps: seq<string>) {
    InOrder(ps, es) && forall p :: p in ps <==> Unseen(ms, es, p)
  }

  function Exchanges(ms: seq<Memory>, es: seq<Event>, ps: seq<string>): seq<Exchange> {
    ExchangesOf(Turns(ms), es) + Extras(ps, es)
  }

  /** What a build may leave: equally early prompt ids may come in any order. */
  ghost predicate Built(ms: seq<Memory>, es: seq<Event>, before: seq<Exchange>, after: seq<Exchange>) {
    if before != [] then after == before
    else exists ps :: IsUnseenOrder(ms, es, ps) && after == Exchanges(ms, es, ps)
  }

  datatype Report = Unchanged | Empty | Done(built: nat)

  class Session {
    var memories: seq<Memory>
    var events: seq<Event>
    var exchanges: seq<Exchange>

    method GroupEvents() returns (byPrompt: Index, byMemory: Index)
      ensures Indexes(byPrompt, events, p => ByPrompt(p))
      ensures Indexes(byMemory, events, m => ByMemory(m))
    {
      byPrompt, byMemory := map[], map[];
      for i := 0 to |events|
        invariant Indexes(byPrompt, events[..i], p => ByPrompt(p))
        invariant Indexes(byMemory, events[..i], m => ByMemory(m))
      {
        hide *;
        var e := events[i];
        IndexNext(byPrompt, events, i, p => ByPrompt(p), e.promptId);
        IndexNext(byMemory, events, i, m => ByMemory(m), e.memoryId);
        byPrompt := if e.promptId != "" then AddTo(byPrompt, e.promptId, e) else byPrompt;
        byMemory := if e.memoryId != "" then AddTo(byMemory, e.memoryId, e) else byMemory;
      }
      assert events[..|events|] == events;
    }

    /** Records the open turn, if there is one. */
    method Flush(prompt: Option<Memory>, responses: seq<Memory>, eventIds: seq<string>, seen: set<string>)
      returns (nowSeen: set<string>)
      requires eventIds == EventIds(events, prompt, responses)
      modifies this`exchanges
      ensures exchanges == old(exchanges) + ExchangesOf(OpenTurn(prompt, responses), events)
      ensures forall p :: p in nowSeen <==> p in seen || Seen(OpenTurn(prompt, responses), p)
    {
      nowSeen := seen;
      if prompt == None && responses == [] && eventIds == [] {
        return;
      }
      var promptIds := if prompt.Some? then [prompt.value.id] else [];
      var promptId := if prompt.Some? then prompt.value.promptId else "";
      var promptTime := if prompt.Some? then Some(prompt.value.observedAt) else None;
      var responseTime := if responses != [] then Some(responses[|responses| - 1].observedAt) else None;
      if promptId != "" {
        nowSeen := nowSeen + {promptId};
        assert OpenTurn(prompt, responses)[0].prompt.Some?;
      }
      exchanges := exchanges + [Exchange(promptIds, Ids(responses), eventIds, promptId, promptTime, responseTime)];
    }

    method Build() returns (r: Report)
      modifies this`exchanges
      ensures Built(NonSummary(memories), events, old(exchanges), exchanges)
      ensures r == if old(exchanges) != [] then Unchanged
                   else if NonSummary(memories) == [] && events == [] then Empty else Done(|exchanges|)
    {
      if exchanges != [] {
        return Unchanged;
      }
      var ms := NonSummary(memories);
      if ms == [] && events == [] {
        NothingUnseen(ms);
        return Empty;
      }
      var byPrompt, byMemory := GroupEvents();
      var seen := RecordTurns(ms, byPrompt, byMemory);
      var order := SortByEarliest(byPrompt.Keys - seen);
      RecordRest(order, byPrompt);
      assert IsUnseenOrder(ms, events, order) by {
        hide InOrder, Seen, Turns;
      }
      return Done(|exchanges|);
    }

    method RecordRest(order: seq<string>, byPrompt: Index)
      requires Indexes(byPrompt, events, p => ByPrompt(p))
      modifies this`exchanges
      ensures exchanges == old(exchanges) + Extras(order, events)
    {
      for k := 0 to |order|
        invariant exchanges == old(exchanges) + Extras(order[..k], events)
      {
        var found := Lookup(byPrompt, order[k]);
        exchanges := exchanges
          + [Exchange([], [], seq(|found|, i requires 0 <= i < |found| => found[i].id), order[k], None, None)];
        assert Extras(order[..k + 1], events) == Extras(order[..k], events) + [EventsOnly(order[k], events)];
      }
      assert order[..|order|] == order;
    }

    method RecordTurns(ms: seq<Memory>, byPrompt: Index, byMemory: Index) returns (seen: set<string>)
      requires exchanges == []
      requires Indexes(byPrompt, events, p => ByPrompt(p)) && Indexes(byMemory, events, m => ByMemory(m))
      modifies this`exchanges
      ensures exchanges == ExchangesOf(Turns(ms), events)
      ensures forall p :: p in seen <==> Seen(Turns(ms), p)
    {
      var prompt: Option<Memory>, responses: seq<Memory>, eventIds: seq<string> := None, [], [];
      seen := {};
      ghost var closed: seq<Turn> := [];
      for i := 0 to |ms|
        invariant i == 0 ==> closed == []
        invariant i > 0 <==> prompt != None || responses != []
        invariant Turns(ms[..i]) == closed + OpenTurn(prompt, responses)
        invariant eventIds == EventIds(events, prompt, responses)
        invariant exchanges == ExchangesOf(closed, events)
        invariant forall p :: p in seen <==> Seen(closed, p)
      {
        hide *;
        var m := ms[i];
        TurnsNext(ms, i, closed, prompt, responses);
        if IsUser(m) {
          seen := Flush(prompt, responses, eventIds, seen);
          CloseTurn(closed, prompt, responses, events);
          closed := closed + OpenTurn(prompt, responses);
          prompt, responses, eventIds := Some(m), [], [];
          OpensWith(events, m);
        } else {
          JoinsTurn(events, prompt, responses, m);
          responses := responses + [m];
        }
        eventIds := Merge(Merge(eventIds, Lookup(byMemory, m.id)), Lookup(byPrompt, m.promptId));
        Looked(events, byPrompt, byMemory, m);
      }
      hide *;
      assert ms[..|ms|] == ms;
      seen := Flush(prompt, responses, eventIds, seen);
      CloseTurn(closed, prompt, responses, events);
    }

    /** sorted(ids, key=earliest_event): equally early ids come in some order. */
    method SortByEarliest(ids: set<string>) returns (order: seq<string>)
      requires forall p | p in ids :: Linked(events, ByPrompt(p)) != []
      ensures InOrder(order, events) && forall p :: p in order <==> p in ids
    {
      order := [];
      var rest := ids;
      while rest != {}
        invariant rest <= ids && InOrder(order, events)
        invariant forall p :: p in order <==> p in ids && p !in rest
        invariant AllBefore(order, rest, events)
      {
        ghost var first := FirstExists(rest, events);
        assert IsFirst(first, rest, events);
        var p :| p in rest && forall q | q in rest :: Before(events, p, q);
        hide *;
        OrderNext(order, p, rest, events);
        rest := rest - {p};
        order := order + [p];
      }
    }

    lemma NothingUnseen(ms: seq<Memory>)
      requires ms == [] && events == []
      ensures IsUnseenOrder(ms, events, []) && Exchanges(ms, events, []) == []
    {
    }
  }

  lemma TurnsNext(ms: seq<Memory>, i: nat, closed: seq<Turn>, prompt: Option<Memory>, responses: seq<Memory>)
    requires i < |ms| && Turns(ms[..i]) == closed + OpenTurn(prompt, responses)
    requires if i == 0 then closed == [] else prompt != None || responses != []
    ensures Turns(ms[..i + 1]) == if IsUser(ms[i]) then closed + OpenTurn(prompt, responses) + [Turn(Some(ms[i]), [])]
                                  else closed + [Turn(prompt, responses + [ms[i]])]
  {
    assert ms[..i + 1][..i] == ms[..i];
    if i == 0 {
      assert Turns(ms[..i]) == [] && responses + [ms[i]] == [ms[i]];
    } else {
      assert (closed + OpenTurn(prompt, responses))[..|closed|] == closed;
    }
  }

  lemma CloseTurn(closed: seq<Turn>, prompt: Option<Memory>, responses: seq<Memory>, es: seq<Event>)
    ensures var all := closed + OpenTurn(prompt, responses);
            && (forall p :: Seen(all, p) <==> Seen(closed, p) || Seen(OpenTurn(prompt, responses), p))
            && ExchangesOf(all, es) == ExchangesOf(closed, es) + ExchangesOf(OpenTurn(prompt, responses), es)
  {
    hide ExchangeOf;
    var all := closed + OpenTurn(prompt, responses);
    forall p ensures Seen(all, p) <==> Seen(closed, p) || Seen(OpenTurn(prompt, responses), p) {
      assert forall i | 0 <= i < |closed| :: all[i] == closed[i];
      assert forall i | 0 <= i < |OpenTurn(prompt, responses)| ::
          all[|closed| + i] == OpenTurn(prompt, responses)[i];
    }
  }

  lemma OpensWith(es: seq<Event>, m: Memory)
    ensures EventIds(es, Some(m), []) == MergeMemory([], es, m)
  {
    assert Turn(Some(m), []).Members() == [m] && [m][..0] == [];
    assert MergeMemories([], es, [m]) == MergeMemory(MergeMemories([], es, []), es, m);
  }

  lemma JoinsTurn(es: seq<Event>, prompt: Option<Memory>, responses: seq<Memory>, m: Memory)
    ensures EventIds(es, prompt, responses + [m]) == MergeMemory(EventIds(es, prompt, responses), es, m)
  {
    var before, after := Turn(prompt, responses).Members(), Turn(prompt, responses + [m]).Members();
    assert after == before + [m] && after[..|before|] == before;
  }

  lemma Looked(es: seq<Event>, byPrompt: Index, byMemory: Index, m: Memory)
    requires Indexes(byPrompt, es, p => ByPrompt(p)) && Indexes(byMemory, es, x => ByMemory(x))
    ensures forall ids :: Merge(Merge(ids, Lookup(byMemory, m.id)), Lookup(byPrompt, m.promptId)) == MergeMemory(ids, es, m)
  {
    hide Merge, Linked, Lookup;
  }

  lemma BeforeIsTotal(es: seq<Event>, p: string, q: string)
    requires Linked(es, ByPrompt(p)) != [] && Linked(es, ByPrompt(q)) != []
    ensures Before(es, p, q) || Before(es, q, p)
  {
    LexTotal(Earliest(Linked(es, ByPrompt(p))), Earliest(Linked(es, ByPrompt(q))));
  }

  lemma BeforeIsTransitive(es: seq<Event>, p: string, q: string, r: string)
    requires Before(es, p, q) && Before(es, q, r)
    ensures Before(es, p, r)
  {
    LexTransitive(Earliest(Linked(es, ByPrompt(p))), Earliest(Linked(es, ByPrompt(q))), Earliest(Linked(es, ByPrompt(r))));
  }

  /** One of the ids is no later than any other. */
  ghost predicate IsFirst(p: string, ids: set<string>, es: seq<Event>) {
    p in ids && forall q | q in ids :: Before(es, p, q)
  }

  ghost predicate AllBefore(order: seq<string>, rest: set<string>, es: seq<Event>) {
    forall i, q | 0 <= i < |order| && q in rest :: Before(es, order[i], q)
  }

  lemma OrderNext(order: seq<string>, p: string, rest: set<string>, es: seq<Event>)
    requires InOrder(order, es) && p !in order && p in rest && AllBefore(order, rest, es)
    requires forall q | q in rest :: Before(es, p, q)
    ensures InOrder(order + [p], es) && AllBefore(order + [p], rest - {p}, es)
  {
    AppendOnce(order, p);
    hide Before, NoDuplicates;
  }

  lemma {:induction false} FirstExists(ids: set<string>, es: seq<Event>) returns (p: string)
    requires ids != {} && forall p | p in ids :: Linked(es, ByPrompt(p)) != []
    ensures IsFirst(p, ids, es)
    decreases |ids|
  {
    hide Before, Linked;
    p :| p in ids;
    BeforeIsTotal(es, p, p);
    var rest := ids - {p};
    assert forall q | q in ids :: q in rest || q == p;
    if rest != {} {
      var f := FirstExists(rest, es);
      BeforeIsTotal(es, p, f);
      if Before(es, p, f) {
        forall q | q in rest ensures Before(es, p, q) {
          BeforeIsTransitive(es, p, f, q);
        }
      } else {
        p := f;
      }
    }
  }

  // ---- what a build means ------------------------------------------------------------------------------

  function Flatten(ts: seq<Turn>): seq<Memory> {
    if ts == [] then [] else Flatten(ts[..|ts| - 1]) + ts[|ts| - 1].Members()
  }

  /** Turns begin with a user memory, which only the first may lack, and no other memory of theirs is a user's. */
  ghost predicate WellCut(ts: seq<Turn>) {
    forall i | 0 <= i < |ts| ::
      && (ts[i].prompt.Some? ==> IsUser(ts[i].prompt.value))
      && (ts[i].prompt == None ==> i == 0 && ts[i].responses != [])
      && (forall j | 0 <= j < |ts[i].responses| :: !IsUser(ts[i].responses[j]))
  }

  lemma FlattenAppend(ts: seq<Turn>, t: Turn)
    ensures Flatten(ts + [t]) == Flatten(ts) + t.Members()
  {
    assert (ts + [t])[..|ts|] == ts;
  }

  /** One more response in the last turn is one more memory at the end. */
  lemma FlattenExtend(ts: seq<Turn>, t: Turn, m: Memory)
    ensures Flatten(ts + [Turn(t.prompt, t.responses + [m])]) == Flatten(ts + [t]) + [m]
  {
    hide Flatten;
    FlattenAppend(ts, t);
    FlattenAppend(ts, Turn(t.prompt, t.responses + [m]));
  }

  /** Turns, one memory longer. */
  lemma TurnsSnoc(ms: seq<Memory>, m: Memory)
    ensures var ts := Turns(ms);
            Turns(ms + [m]) == if IsUser(m) then ts + [Turn(Some(m), [])]
                               else if ts == [] then [Turn(None, [m])]
                               else ts[..|ts| - 1] + [Turn(ts[|ts| - 1].prompt, ts[|ts| - 1].responses + [m])]
  {
    assert (ms + [m])[..|ms|] == ms;
  }

  lemma {:induction false} TurnsAreWellCut(ms: seq<Memory>)
    ensures WellCut(Turns(ms)) && Flatten(Turns(ms)) == ms
  {
    if ms != [] {
      hide Turns, Flatten, WellCut;
      var n := |ms| - 1;
      var m, before := ms[n], Turns(ms[..n]);
      assert ms == ms[..n] + [m];
      TurnsAreWellCut(ms[..n]);
      TurnsSnoc(ms[..n], m);
      if before == [] || IsUser(m) {
        WellCutOpen(before, m);
        FlattenAppend(before, OpenedBy(m));
        assert [OpenedBy(m)] == [] + [OpenedBy(m)];
      } else {
        var init, last := before[..|before| - 1], before[|before| - 1];
        assert before == init + [last];
        FlattenExtend(init, last, m);
        WellCutExtend(init, last, m);
      }
    }
  }

  function OpenedBy(m: Memory): (t: Turn)
    ensures t.Members() == [m]
  {
    if IsUser(m) then Turn(Some(m), []) else Turn(None, [m])
  }

  lemma WellCutOpen(ts: seq<Turn>, m: Memory)
    requires WellCut(ts) && (ts == [] || IsUser(m))
    ensures WellCut(ts + [OpenedBy(m)])
  {
  }

  lemma WellCutExtend(ts: seq<Turn>, t: Turn, m: Memory)
    requires WellCut(ts + [t]) && !IsUser(m)
    ensures WellCut(ts + [Turn(t.prompt, t.responses + [m])])
  {
    var cut := ts + [t];
    assert cut[|ts|] == t && forall i | 0 <= i < |ts| :: cut[i] == ts[i];
  }

  /** The last memory of a well-formed cut, and the cut of the others. */
  function Uncut(ts: seq<Turn>): (r: seq<Turn>)
    requires ts != []
  {
    var n := |ts| - 1;
    var last := ts[n];
    if last.responses == [] || (last.prompt == None && |last.responses| == 1) then ts[..n]
    else ts[..n] + [Turn(last.prompt, last.responses[..|last.responses| - 1])]
  }

  lemma UncutIsWellCut(ts: seq<Turn>)
    requires ts != [] && WellCut(ts)
    ensures WellCut(Uncut(ts))
  {
    assert forall i | 0 <= i < |Uncut(ts)| && i < |ts| - 1 :: Uncut(ts)[i] == ts[i];
  }

  lemma UncutKeeps(ts: seq<Turn>) returns (m: Memory)
    requires ts != [] && WellCut(ts)
    ensures Flatten(ts) == Flatten(Uncut(ts)) + [m]
    ensures ts == if IsUser(m) then Uncut(ts) + [Turn(Some(m), [])]
                  else if Uncut(ts) == [] then [Turn(None, [m])]
                  else var k := |Uncut(ts)| - 1; Uncut(ts)[..k] + [Turn(Uncut(ts)[k].prompt, Uncut(ts)[k].responses + [m])]
  {
    hide Flatten;
    var n := |ts| - 1;
    var last := ts[n];
    assert ts == ts[..n] + [last];
    FlattenAppend(ts[..n], last);
    if last.responses == [] {
      m := last.prompt.value;
    } else {
      var k := |last.responses| - 1;
      m := last.responses[k];
      assert last.responses == last.responses[..k] + [m];
      if last.prompt == None && k == 0 {
        assert last.responses == [m];
      } else {
        FlattenAppend(ts[..n], Turn(last.prompt, last.responses[..k]));
        assert Uncut(ts)[..n] == ts[..n];
      }
    }
  }

  /** No other well-formed cut of the same memories exists. */
  lemma {:induction false} OnlyCut(ts: seq<Turn>)
    requires WellCut(ts)
    ensures Turns(Flatten(ts)) == ts
    decreases |Flatten(ts)|
  {
    if ts != [] {
      hide Flatten, WellCut, Uncut;
      var m := UncutKeeps(ts);
      UncutIsWellCut(ts);
      OnlyCut(Uncut(ts));
      TurnsSnoc(Flatten(Uncut(ts)), m);
      hide Turns;
    }
  }

  /** The memories an exchange lists. */
  function MemoryIds(xs: seq<Exchange>): seq<string> {
    if xs == [] then [] else MemoryIds(xs[..|xs| - 1]) + xs[|xs| - 1].promptIds + xs[|xs| - 1].responseIds
  }

  lemma TurnIds(t: Turn, es: seq<Event>)
    ensures var x := ExchangeOf(t, es); x.promptIds + x.responseIds == Ids(t.Members())
  {
  }

  lemma MemoryIdsAppend(xs: seq<Exchange>, x: Exchange)
    ensures MemoryIds(xs + [x]) == MemoryIds(xs) + (x.promptIds + x.responseIds)
  {
    assert (xs + [x])[..|xs|] == xs;
  }

  lemma {:induction false} TurnMemoryIds(ts: seq<Turn>, es: seq<Event>)
    ensures MemoryIds(ExchangesOf(ts, es)) == Ids(Flatten(ts))
  {
    if ts != [] {
      hide *;
      var n := |ts| - 1;
      var init, last := ts[..n], ts[n];
      assert ts == init + [last];
      TurnMemoryIds(init, es);
      TurnIds(last, es);
      FlattenAppend(init, last);
      IdsConcat(Flatten(init), last.Members());
      var xs, x := ExchangesOf(init, es), ExchangeOf(last, es);
      MemoryIdsAppend(xs, x);
      ExchangesAppend(init, last, es);
    }
  }

  lemma ExchangesAppend(ts: seq<Turn>, t: Turn, es: seq<Event>)
    ensures ExchangesOf(ts + [t], es) == ExchangesOf(ts, es) + [ExchangeOf(t, es)]
  {
    hide ExchangeOf;
  }

  lemma IdsConcat(a: seq<Memory>, b: seq<Memory>)
    ensures Ids(a + b) == Ids(a) + Ids(b)
  {
  }

  lemma {:induction false} ExtrasListNoMemories(xs: seq<Exchange>, ps: seq<string>, es: seq<Event>)
    ensures MemoryIds(xs + Extras(ps, es)) == MemoryIds(xs)
  {
    if ps == [] {
      assert xs + Extras(ps, es) == xs;
    } else {
      var n := |ps| - 1;
      ExtrasListNoMemories(xs, ps[..n], es);
      var all := xs + Extras(ps, es);
      assert all[..|all| - 1] == xs + Extras(ps[..n], es) && all[|all| - 1] == EventsOnly(ps[n], es);
    }
  }

  /** Prompt and response ids, read in order, are the session's non-summary memories, each exactly once. */
  lemma ExchangesPartition(ms: seq<Memory>, es: seq<Event>, xs: seq<Exchange>)
    requires Built(ms, es, [], xs)
    ensures MemoryIds(xs) == Ids(ms)
  {
    var ps :| IsUnseenOrder(ms, es, ps) && xs == Exchanges(ms, es, ps);
    ExtrasListNoMemories(ExchangesOf(Turns(ms), es), ps, es);
    TurnMemoryIds(Turns(ms), es);
    TurnsAreWellCut(ms);
  }

  function Users(ms: seq<Memory>): nat {
    if ms == [] then 0 else Users(ms[..|ms| - 1]) + if IsUser(ms[|ms| - 1]) then 1 else 0
  }

  lemma {:induction false} TurnCount(ms: seq<Memory>)
    ensures |Turns(ms)| == Users(ms) + if ms != [] && !IsUser(ms[0]) then 1 else 0
  {
    if ms != [] {
      TurnCount(ms[..|ms| - 1]);
    }
  }

  /** One exchange a user turn, one for what precedes the first, one a prompt id that no turn carries. */
  lemma ExchangeCount(ms: seq<Memory>, es: seq<Event>, xs: seq<Exchange>, unseen: set<string>)
    requires Built(ms, es, [], xs) && forall p :: p in unseen <==> Unseen(ms, es, p)
    ensures |xs| == Users(ms) + (if ms != [] && !IsUser(ms[0]) then 1 else 0) + |unseen|
  {
    var ps :| IsUnseenOrder(ms, es, ps) && xs == Exchanges(ms, es, ps);
    TurnCount(ms);
    DistinctCount(ps, unseen);
  }

  lemma {:induction false} InLinked(e: Event, es: seq<Event>, link: Link)
    ensures e in Linked(es, link) <==> e in es && Matches(e, link)
  {
    if es != [] {
      InLinked(e, es[..|es| - 1], link);
      assert es == es[..|es| - 1] + [es[|es| - 1]];
    }
  }

  ghost predicate HasId(es: seq<Event>, id: string) {
    exists e :: e in es && e.id == id
  }

  lemma {:induction false} InMerge(id: string, ids: seq<string>, es: seq<Event>)
    ensures id in Merge(ids, es) <==> id in ids || HasId(es, id)
  {
    if es != [] {
      InMerge(id, ids, es[..|es| - 1]);
      assert es == es[..|es| - 1] + [es[|es| - 1]];
    }
  }

  /** An event with this id belongs to one of the memories. */
  ghost predicate Reached(id: string, es: seq<Event>, ms: seq<Memory>) {
    exists e, m :: e in es && e.id == id && m in ms && Touches(e, m)
  }

  lemma InMergeMemory(id: string, ids: seq<string>, es: seq<Event>, m: Memory)
    ensures id in MergeMemory(ids, es, m) <==> id in ids || Reached(id, es, [m])
  {
    var strong, weak := Linked(es, ByMemory(m.id)), Linked(es, ByPrompt(m.promptId));
    InMerge(id, ids, strong);
    InMerge(id, Merge(ids, strong), weak);
    forall e ensures e in strong <==> e in es && Matches(e, ByMemory(m.id)) {
      InLinked(e, es, ByMemory(m.id));
    }
    forall e ensures e in weak <==> e in es && Matches(e, ByPrompt(m.promptId)) {
      InLinked(e, es, ByPrompt(m.promptId));
    }
    assert m in [m];
  }

  /** A turn's exchange lists the events of its memories, and no other. */
  lemma {:induction false} TurnEvents(id: string, es: seq<Event>, ms: seq<Memory>)
    ensures id in MergeMemories([], es, ms) <==> Reached(id, es, ms)
  {
    hide MergeMemory, Touches;
    if ms != [] {
      var n := |ms| - 1;
      TurnEvents(id, es, ms[..n]);
      InMergeMemory(id, MergeMemories([], es, ms[..n]), es, ms[n]);
      assert ms == ms[..n] + [ms[n]];
    }
  }

  /** Each event once. */
  lemma {:induction false} MergeOnce(ids: seq<string>, es: seq<Event>)
    requires NoDuplicates(ids)
    ensures NoDuplicates(Merge(ids, es))
  {
    hide NoDuplicates;
    if es != [] {
      var r, id := Merge(ids, es[..|es| - 1]), es[|es| - 1].id;
      MergeOnce(ids, es[..|es| - 1]);
      if id !in r {
        AppendOnce(r, id);
      }
    }
  }

  /** The linked events are found one by one, in the order of the list. */
  lemma {:induction false} LinkedSplits(es: seq<Event>, fs: seq<Event>, link: Link)
    ensures Linked(es + fs, link) == Linked(es, link) + Linked(fs, link)
  {
    if fs == [] {
      assert es + fs == es;
    } else {
      var n := |fs| - 1;
      assert (es + fs)[..|es + fs| - 1] == es + fs[..n];
      LinkedSplits(es, fs[..n], link);
    }
  }

  lemma LinkedOne(e: Event, id: string)
    ensures Linked([e], ByMemory(id)) == if id != "" && e.memoryId == id then [e] else []
    ensures Linked([e], ByPrompt(id)) == if id != "" && e.promptId == id then [e] else []
  {
    assert [e][..0] == [];
  }

  /** The exchange of a prompt id that no turn carries lists that id's events, in the order of the list. */
  lemma {:induction false} OwnEvents(p: string, es: seq<Event>, e: Event)
    ensures EventsOnly(p, es + [e]).eventIds
         == EventsOnly(p, es).eventIds + if p != "" && e.promptId == p then [e.id] else []
    ensures EventsOnly(p, es).promptId == p && EventsOnly(p, es).promptIds == EventsOnly(p, es).responseIds == []
  {
    LinkedSplits(es, [e], ByPrompt(p));
    LinkedOne(e, p);
    hide Linked;
  }

  lemma {:induction false} MergeExtends(ids: seq<string>, es: seq<Event>)
    ensures ids <= Merge(ids, es)
    ensures forall i | |ids| <= i < |Merge(ids, es)| :: Merge(ids, es)[i] !in ids && HasId(es, Merge(ids, es)[i])
  {
    if es != [] {
      var n := |es| - 1;
      MergeExtends(ids, es[..n]);
      assert es[n] in es && forall e | e in es[..n] :: e in es;
      var before := Merge(ids, es[..n]);
      assert forall k | 0 <= k < |ids| :: before[k] == ids[k];
    }
  }

  ghost predicate StrongIn(es: seq<Event>, id: string, m: Memory) {
    exists e :: e in es && e.id == id && m.id != "" && e.memoryId == m.id
  }

  ghost predicate WeakIn(es: seq<Event>, id: string, m: Memory) {
    exists e :: e in es && e.id == id && m.promptId != "" && e.promptId == m.promptId
  }

  /** What one memory adds comes after what was there: first the events of its id, then those of its prompt id alone. */
  lemma StrongLinksFirst(ids: seq<string>, es: seq<Event>, m: Memory) returns (k: nat)
    ensures var r := MergeMemory(ids, es, m);
            && ids <= r && |ids| <= k <= |r|
            && (forall i | |ids| <= i < k :: r[i] !in ids && StrongIn(es, r[i], m))
            && (forall i | k <= i < |r| :: r[i] !in ids && !StrongIn(es, r[i], m) && WeakIn(es, r[i], m))
  {
    var strong, weak := Linked(es, ByMemory(m.id)), Linked(es, ByPrompt(m.promptId));
    var first := Merge(ids, strong);
    var r := Merge(first, weak);
    k := |first|;
    MergeExtends(ids, strong);
    MergeExtends(first, weak);
    forall e ensures e in strong <==> e in es && m.id != "" && e.memoryId == m.id {
      InLinked(e, es, ByMemory(m.id));
    }
    forall e ensures e in weak <==> e in es && m.promptId != "" && e.promptId == m.promptId {
      InLinked(e, es, ByPrompt(m.promptId));
    }
    hide Merge, Linked;
    forall i | k <= i < |r| ensures r[i] !in ids && !StrongIn(es, r[i], m) && WeakIn(es, r[i], m) {
      assert forall j | 0 <= j < |ids| :: first[j] == ids[j];
      InMerge(r[i], ids, strong);
    }
    assert forall i | 0 <= i < k :: r[i] == first[i];
  }

  lemma {:induction false} TurnEventsOnce(es: seq<Event>, ms: seq<Memory>)
    ensures NoDuplicates(MergeMemories([], es, ms))
  {
    if ms != [] {
      hide NoDuplicates, Merge;
      var before, m := MergeMemories([], es, ms[..|ms| - 1]), ms[|ms| - 1];
      TurnEventsOnce(es, ms[..|ms| - 1]);
      MergeOnce(before, Linked(es, ByMemory(m.id)));
      MergeOnce(Merge(before, Linked(es, ByMemory(m.id))), Linked(es, ByPrompt(m.promptId)));
    }
  }

  /** The time an unseen prompt id is sorted by: that of one of its events, and none is earlier. */
  lemma {:induction false} EarliestIsFirst(es: seq<Event>)
    requires es != []
    ensures exists e :: e in es && e.createdAt == Earliest(es)
    ensures forall e | e in es :: e.createdAt == Earliest(es) || FirstDifference(Earliest(es), e.createdAt)
  {
    var n := |es| - 1;
    var last := es[n];
    assert last in es;
    if n > 0 {
      var before := es[..n];
      EarliestIsFirst(before);
      LexLeqIff(Earliest(before), last.createdAt);
      LexLeqIff(last.createdAt, Earliest(before));
      LexTotal(Earliest(before), last.createdAt);
      hide FirstDifference, LexLeq;
      forall e | e in es ensures e.createdAt == Earliest(es) || FirstDifference(Earliest(es), e.createdAt) {
        if e in before {
          DifferenceChains(Earliest(es), Earliest(before), e.createdAt);
        } else {
          assert e == last;
        }
      }
      assert forall e | e in before :: e in es;
    } else {
      assert es == [last];
    }
  }

  lemma DifferenceChains(x: seq<int>, y: seq<int>, z: seq<int>)
    requires (x == y || FirstDifference(x, y)) && (y == z || FirstDifference(y, z))
    ensures x == z || FirstDifference(x, z)
  {
    LexLeqIff(x, y);
    LexLeqIff(y, z);
    LexTransitive(x, y, z);
    LexLeqIff(x, z);
  }

  /** A turn's exchange has the prompt's id and time, where the turn has a prompt, and the time of its last response. */
  lemma TurnIsTimed(t: Turn, es: seq<Event>)
    ensures var x := ExchangeOf(t, es);
            && (t.prompt.Some? ==> x.promptIds == [t.prompt.value.id] && x.promptId == t.prompt.value.promptId
                                   && x.promptTime == Some(t.prompt.value.observedAt))
            && (t.prompt.None? ==> x.promptIds == [] && x.promptId == "" && x.promptTime == None)
            && |x.responseIds| == |t.responses| && (x.responseTime.Some? <==> t.responses != [])
            && (t.responses != [] ==> x.responseTime == Some(t.responses[|t.responses| - 1].observedAt))
  {
  }

  lemma {:induction false} InFlatten(m: Memory, ts: seq<Turn>)
    ensures m in Flatten(ts) <==> exists i :: 0 <= i < |ts| && m in ts[i].Members()
  {
    if ts != [] {
      var n := |ts| - 1;
      InFlatten(m, ts[..n]);
      assert ts == ts[..n] + [ts[n]];
    }
  }

  ghost predicate Lands(id: string, xs: seq<Exchange>) {
    exists i :: 0 <= i < |xs| && id in xs[i].eventIds
  }

  lemma LandsInTurns(id: string, ms: seq<Memory>, es: seq<Event>)
    ensures Lands(id, ExchangesOf(Turns(ms), es)) <==> Reached(id, es, ms)
  {
    hide MergeMemories, Turns, Touches, Flatten;
    var ts := Turns(ms);
    var xs := ExchangesOf(ts, es);
    TurnsAreWellCut(ms);
    forall i | 0 <= i < |ts| ensures id in xs[i].eventIds <==> Reached(id, es, ts[i].Members()) {
      TurnEvents(id, es, ts[i].Members());
    }
    forall m ensures m in ms <==> exists i :: 0 <= i < |ts| && m in ts[i].Members() {
      InFlatten(m, ts);
    }
  }

  lemma LandsInExtras(id: string, ps: seq<string>, es: seq<Event>)
    ensures Lands(id, Extras(ps, es)) <==> exists e :: e in es && e.id == id && e.promptId != "" && e.promptId in ps
  {
    var xs := Extras(ps, es);
    forall i, e | 0 <= i < |ps| ensures e in Linked(es, ByPrompt(ps[i])) <==> e in es && e.promptId != "" && e.promptId == ps[i] {
      InLinked(e, es, ByPrompt(ps[i]));
    }
    forall i | 0 <= i < |ps| ensures id in xs[i].eventIds <==> HasId(Linked(es, ByPrompt(ps[i])), id) {
      var found := Linked(es, ByPrompt(ps[i]));
      assert forall k | 0 <= k < |found| :: xs[i].eventIds[k] == found[k].id;
    }
  }

  /** A prompt id is recorded with a turn or on its own. */
  lemma PromptIdIsCovered(ms: seq<Memory>, es: seq<Event>, ps: seq<string>, e: Event)
    requires IsUnseenOrder(ms, es, ps) && e in es && e.promptId != ""
    ensures e.promptId in ps || exists m :: m in ms && Touches(e, m)
  {
    InLinked(e, es, ByPrompt(e.promptId));
    if Seen(Turns(ms), e.promptId) {
      SeenIffPrompted(ms, e.promptId);
      var m :| m in ms && m.promptId == e.promptId;
      assert Touches(e, m);
    }
  }

  /** An event lands in some exchange exactly when it carries a prompt id or belongs to a listed memory. */
  lemma EventsLand(ms: seq<Memory>, es: seq<Event>, xs: seq<Exchange>, id: string)
    requires Built(ms, es, [], xs)
    ensures Lands(id, xs) <==> exists e :: e in es && e.id == id && (e.promptId != "" || exists m :: m in ms && Touches(e, m))
  {
    var ps :| IsUnseenOrder(ms, es, ps) && xs == Exchanges(ms, es, ps);
    var turns, extras := ExchangesOf(Turns(ms), es), Extras(ps, es);
    assert xs == turns + extras;
    hide Lands, Exchanges, Linked, MergeMemories, Turns, Touches, IsUnseenOrder;
    LandsInTurns(id, ms, es);
    LandsInExtras(id, ps, es);
    LandsInEither(id, turns, extras);
    forall e | e in es && e.id == id && e.promptId != "" ensures e.promptId in ps || exists m :: m in ms && Touches(e, m) {
      PromptIdIsCovered(ms, es, ps, e);
    }
  }

  lemma LandsInEither(id: string, xs: seq<Exchange>, ys: seq<Exchange>)
    ensures Lands(id, xs + ys) <==> Lands(id, xs) || Lands(id, ys)
  {
    assert forall i | 0 <= i < |ys| :: (xs + ys)[|xs| + i] == ys[i];
    assert forall i | 0 <= i < |xs| :: (xs + ys)[i] == xs[i];
  }

  // ---- when an event is listed once ------------------------------------------------------------------------

  ghost predicate ListedOnce(id: string, xs: seq<Exchange>) {
    forall i, j | 0 <= i < |xs| && 0 <= j < |xs| && id in xs[i].eventIds && id in xs[j].eventIds :: i == j
  }

  ghost predicate DistinctIds(es: seq<Event>) {
    forall i, j | 0 <= i < |es| && 0 <= j < |es| && es[i].id == es[j].id :: i == j
  }

  /** The event belongs to one of the memories. */
  ghost predicate Reaches(e: Event, ms: seq<Memory>) {
    exists m :: m in ms && Touches(e, m)
  }

  ghost predicate OneTurnAtMost(e: Event, ts: seq<Turn>) {
    forall i, j | 0 <= i < |ts| && 0 <= j < |ts| && Reaches(e, ts[i].Members()) && Reaches(e, ts[j].Members()) :: i == j
  }

  /** A user memory carries the prompt id. */
  ghost predicate Prompted(ms: seq<Memory>, p: string) {
    exists m :: m in ms && IsUser(m) && m.promptId == p
  }

  lemma SeenIffPrompted(ms: seq<Memory>, p: string)
    ensures Seen(Turns(ms), p) <==> p != "" && Prompted(ms, p)
  {
    var ts := Turns(ms);
    TurnsAreWellCut(ms);
    hide Flatten, Turns;
    if Seen(ts, p) {
      var i :| 0 <= i < |ts| && ts[i].prompt.Some? && ts[i].prompt.value.promptId == p;
      InFlatten(ts[i].prompt.value, ts);
      assert ts[i].prompt.value in ts[i].Members();
    }
    if p != "" && Prompted(ms, p) {
      var m :| m in ms && IsUser(m) && m.promptId == p;
      InFlatten(m, ts);
      var i :| 0 <= i < |ts| && m in ts[i].Members();
      assert ts[i].prompt == Some(m);
    }
  }

  lemma ReachedByOne(e: Event, es: seq<Event>, ms: seq<Memory>)
    requires DistinctIds(es) && e in es
    ensures Reached(e.id, es, ms) <==> Reaches(e, ms)
  {
  }

  lemma OnceInTurns(e: Event, es: seq<Event>, ts: seq<Turn>)
    requires DistinctIds(es) && e in es
    ensures ListedOnce(e.id, ExchangesOf(ts, es)) <==> OneTurnAtMost(e, ts)
  {
    var xs := ExchangesOf(ts, es);
    forall i | 0 <= i < |ts| ensures e.id in xs[i].eventIds <==> Reaches(e, ts[i].Members()) {
      hide MergeMemories, Reached, Reaches, DistinctIds;
      TurnEvents(e.id, es, ts[i].Members());
      ReachedByOne(e, es, ts[i].Members());
    }
    hide ExchangeOf, Reaches, DistinctIds;
  }

  lemma InExtra(e: Event, es: seq<Event>, p: string)
    requires DistinctIds(es) && e in es
    ensures e.id in EventsOnly(p, es).eventIds <==> p != "" && e.promptId == p
  {
    var found, ids := Linked(es, ByPrompt(p)), EventsOnly(p, es).eventIds;
    InLinked(e, es, ByPrompt(p));
    if e in found {
      var k :| 0 <= k < |found| && found[k] == e;
      assert ids[k] == e.id;
    }
    if e.id in ids {
      var k :| 0 <= k < |ids| && ids[k] == e.id;
      assert found[k] in found;
      InLinked(found[k], es, ByPrompt(p));
      assert found[k] == e;
    }
  }

  lemma OnceInExtras(e: Event, es: seq<Event>, ps: seq<string>)
    requires DistinctIds(es) && e in es && NoDuplicates(ps)
    ensures ListedOnce(e.id, Extras(ps, es))
    ensures Lands(e.id, Extras(ps, es)) <==> e.promptId != "" && e.promptId in ps
  {
    var xs := Extras(ps, es);
    forall i | 0 <= i < |ps| ensures e.id in xs[i].eventIds <==> ps[i] != "" && e.promptId == ps[i] {
      InExtra(e, es, ps[i]);
    }
    hide EventsOnly, DistinctIds;
  }

  lemma OnceInEither(id: string, xs: seq<Exchange>, ys: seq<Exchange>)
    ensures ListedOnce(id, xs + ys) <==> ListedOnce(id, xs) && ListedOnce(id, ys) && !(Lands(id, xs) && Lands(id, ys))
  {
    var all := xs + ys;
    assert forall i | 0 <= i < |xs| :: all[i] == xs[i];
    assert forall i | 0 <= i < |ys| :: all[|xs| + i] == ys[i];
    assert forall k | 0 <= k < |all| :: if k < |xs| then all[k] == xs[k] else all[k] == ys[k - |xs|];
  }

  /** A prompt id of some event gets an exchange of its own exactly when no user memory carries it. */
  lemma OwnExchangeIff(ms: seq<Memory>, es: seq<Event>, ps: seq<string>, e: Event)
    requires IsUnseenOrder(ms, es, ps) && e in es && e.promptId != ""
    ensures e.promptId in ps <==> !Prompted(ms, e.promptId)
  {
    InLinked(e, es, ByPrompt(e.promptId));
    SeenIffPrompted(ms, e.promptId);
    hide InOrder, Prompted, Seen, Turns, Linked;
    assert e.promptId in ps <==> Unseen(ms, es, e.promptId);
  }

  /**
   * Where event ids are distinct, an event is listed in no more than one exchange exactly when its memories are all of
   * one turn and either it has no prompt id, or a user memory carries that prompt id, or it belongs to no memory.
   */
  lemma ListedOnceIff(ms: seq<Memory>, es: seq<Event>, xs: seq<Exchange>, e: Event)
    requires Built(ms, es, [], xs) && DistinctIds(es) && e in es
    ensures ListedOnce(e.id, xs) <==>
              OneTurnAtMost(e, Turns(ms)) && (e.promptId == "" || Prompted(ms, e.promptId) || !Reaches(e, ms))
  {
    var ps :| IsUnseenOrder(ms, es, ps) && xs == Exchanges(ms, es, ps);
    var turns, extras := ExchangesOf(Turns(ms), es), Extras(ps, es);
    assert xs == turns + extras;
    if e.promptId != "" {
      OwnExchangeIff(ms, es, ps, e);
    }
    LandsInTurns(e.id, ms, es);
    ReachedByOne(e, es, ms);
    assert NoDuplicates(ps);
    hide *;
    OnceInTurns(e, es, Turns(ms));
    OnceInExtras(e, es, ps);
    OnceInEither(e.id, turns, extras);
  }

  /** Building again adds nothing, also when the first build found nothing to record. */
  lemma BuildAgain(ms: seq<Memory>, es: seq<Event>, before: seq<Exchange>, once: seq<Exchange>, twice: seq<Exchange>)
    requires Built(ms, es, before, once) && Built(ms, es, once, twice)
    ensures twice == once
  {
    if once == [] {
      var ps :| IsUnseenOrder(ms, es, ps) && once == Exchanges(ms, es, ps);
      var qs :| IsUnseenOrder(ms, es, qs) && twice == Exchanges(ms, es, qs);
      assert ps == [] by {
        assert |Extras(ps, es)| == |ps|;
      }
      DistinctCount(qs, {});
    }
  }
}
