/** The append-only event log: hash-chained envelopes over canonical JSON. */
module EventChain {
  import opened Options
  import opened Bytes
  import opened CanonicalJson

  /** An ASCII literal as a text. */
  function Lit(s: string): (t: Text)
    requires forall i | 0 <= i < |s| :: s[i] < 128 as char
    ensures |t| == |s| && forall i | 0 <= i < |s| :: t[i] == s[i] as int
  {
    seq<Scalar>(|s|, i requires 0 <= i < |s| => s[i] as int)
  }

  const EVIDENCE_CLASSES: set<Text> := {
    Lit("declared_intent"), Lit("observed_event"), Lit("extracted_proposition"), Lit("inference"), Lit("summary"),
    Lit("policy")
  }

  datatype Event = Event(sequence: int, eventType: Text, subject: Text, payload: seq<Field>,
                         previous: Option<Text>, evidence: Text)

  datatype Error = NegativeSequence | InvalidEvidenceClass
  datatype Result<+T> = Success(value: T) | Failure(error: Error)

  /** The checks made when an event is constructed. */
  function Checked(e: Event): Result<Event> {
    if e.sequence < 0 then Failure(NegativeSequence)
    else if e.evidence !in EVIDENCE_CLASSES then Failure(InvalidEvidenceClass)
    else Success(e)
  }

  function Optional(t: Option<Text>): Json {
    match t
    case None => Null
    case Some(s) => Str(s)
  }

  const KEYS: seq<Text> := [
    Lit("schema"), Lit("canonicalization"), Lit("sequence"), Lit("event_type"), Lit("subject_id"), Lit("payload"),
    Lit("previous_hash"), Lit("evidence_class")
  ]

  function EnvelopeValues(e: Event): seq<Json> {
    [Str(Lit("xibalba.memory.event.v1")), Str(Lit("xibalba.canonical-json.v1")), Int(e.sequence), Str(e.eventType),
     Str(e.subject), Obj(e.payload), Optional(e.previous), Str(e.evidence)]
  }

  function EnvelopeFields(e: Event): (fields: seq<Field>)
    ensures |fields| == 8
    ensures forall i | 0 <= i < 8 :: fields[i] == Field(KEYS[i], EnvelopeValues(e)[i])
  {
    seq(8, i requires 0 <= i < 8 => Field(KEYS[i], EnvelopeValues(e)[i]))
  }

  function Envelope(e: Event): Json {
    Obj(EnvelopeFields(e))
  }

  /** Lower-case hex. */
  function HexText(b: Bytes): (t: Text)
    ensures |t| == 2 * |b|
  {
    if b == [] then [] else [HexDigit(b[0] / 16), HexDigit(b[0] % 16)] + HexText(b[1..])
  }

  const DIGEST_PREFIX: Text := Lit("sha256:")

  function DigestText(d: Digest): Text {
    DIGEST_PREFIX + HexText(d)
  }

  function EventDigest(h: Hash, e: Event): Text {
    DigestText(h(Print(Envelope(e))))
  }

  /** `append_event`: the next sequence number, linked to the last event's digest. */
  function Append(h: Hash, events: seq<Event>, eventType: Text, subject: Text, payload: seq<Field>, evidence: Text)
    : Result<Event>
  {
    var previous := if events == [] then None else Some(EventDigest(h, events[|events| - 1]));
    Checked(Event(|events|, eventType, subject, payload, previous, evidence))
  }

  datatype Verdict = Valid(length: nat, head: Option<Text>) | Invalid(sequence: nat)

  /** The verdict on the remaining events, given the expected sequence number and parent. */
  function Verify(h: Hash, events: seq<Event>, expected: nat, previous: Option<Text>): Verdict {
    if events == [] then Valid(expected, previous)
    else if events[0].sequence != expected || events[0].previous != previous then Invalid(expected)
    else Verify(h, events[1..], expected + 1, Some(EventDigest(h, events[0])))
  }

  method VerifyEvents(h: Hash, events: seq<Event>) returns (verdict: Verdict)
    ensures verdict == Verify(h, events, 0, None)
  {
    var expected, previous: Option<Text> := 0, None;
    var i := 0;
    while i < |events|
      invariant expected == i <= |events|
      invariant Verify(h, events[i..], expected, previous) == Verify(h, events, 0, None)
    {
      var event := events[i];
      assert events[i..][0] == event && events[i..][1..] == events[i + 1..];
      if event.sequence != expected || event.previous != previous {
        return Invalid(expected);
      }
      previous := Some(EventDigest(h, event));
      expected := expected + 1;
      i := i + 1;
    }
    verdict := Valid(expected, previous);
  }

  // ---- chains grow at the end -------------------------------------------------------------------------

  /** Verifying one more event: everything before it, then its own links. */
  lemma {:induction false} VerifyLast(h: Hash, events: seq<Event>, e: Event, expected: nat, previous: Option<Text>)
    ensures Verify(h, events + [e], expected, previous) ==
              match Verify(h, events, expected, previous)
              case Invalid(k) => Invalid(k)
              case Valid(n, head) =>
                if e.sequence == n && e.previous == head then Valid(n + 1, Some(EventDigest(h, e))) else Invalid(n)
    decreases |events|
  {
    hide EventDigest;
    if events == [] {
      assert ([e] + [])[1..] == [];
      assert [] + [e] == [e];
    } else {
      assert (events + [e])[1..] == events[1..] + [e];
      VerifyLast(h, events[1..], e, expected + 1, Some(EventDigest(h, events[0])));
    }
  }

  /** The head of a valid chain is the digest of its last event, its length the number of events. */
  lemma HeadOfValid(h: Hash, events: seq<Event>)
    requires Verify(h, events, 0, None).Valid?
    ensures Verify(h, events, 0, None) ==
              Valid(|events|, if events == [] then None else Some(EventDigest(h, events[|events| - 1])))
    decreases |events|
  {
    hide EventDigest;
    if events != [] {
      var k := |events| - 1;
      assert events == events[..k] + [events[k]];
      VerifyLast(h, events[..k], events[k], 0, None);
      HeadOfValid(h, events[..k]);
    }
  }

  /** Appending to a valid chain keeps it valid. */
  lemma AppendKeepsValid(h: Hash, events: seq<Event>, eventType: Text, subject: Text, payload: seq<Field>, evidence: Text)
    requires Verify(h, events, 0, None).Valid?
    ensures var e := Append(h, events, eventType, subject, payload, evidence);
            e.Failure? <==> evidence !in EVIDENCE_CLASSES
    ensures var e := Append(h, events, eventType, subject, payload, evidence);
            e.Success? ==>
              && e.value.eventType == eventType && e.value.subject == subject && e.value.payload == payload
              && e.value.evidence == evidence && e.value.sequence == |events|
    ensures var e := Append(h, events, eventType, subject, payload, evidence);
            e.Success? ==> Verify(h, events + [e.value], 0, None) == Valid(|events| + 1, Some(EventDigest(h, e.value)))
  {
    hide Verify, EventDigest, EVIDENCE_CLASSES;
    HeadOfValid(h, events);
    var e := Append(h, events, eventType, subject, payload, evidence);
    if e.Success? {
      VerifyLast(h, events, e.value, 0, None);
    }
  }

  // ---- a head commits to the whole chain --------------------------------------------------------------

  lemma {:induction false} HexInjective(a: Bytes, b: Bytes)
    requires HexText(a) == HexText(b)
    ensures a == b
  {
    if a != [] {
      var x, y := HexText(a), HexText(b);
      assert x[0] == HexDigit(a[0] / 16) && x[1] == HexDigit(a[0] % 16) && x[2..] == HexText(a[1..]);
      assert y[0] == HexDigit(b[0] / 16) && y[1] == HexDigit(b[0] % 16) && y[2..] == HexText(b[1..]);
      HexInjective(a[1..], b[1..]);
      assert a[0] == a[0] / 16 * 16 + a[0] % 16 && b[0] == b[0] / 16 * 16 + b[0] % 16;
      assert a == [a[0]] + a[1..] && b == [b[0]] + b[1..];
    }
  }

  /** Each byte is two lower-case hex digits, the high one first. */
  lemma {:induction false} HexAt(b: Bytes, i: nat)
    requires i < |b|
    ensures HexText(b)[2 * i] == "0123456789abcdef"[b[i] / 16] as int
    ensures HexText(b)[2 * i + 1] == "0123456789abcdef"[b[i] % 16] as int
  {
    HexDigitIs(b[0] / 16);
    HexDigitIs(b[0] % 16);
    var head: Text := [HexDigit(b[0] / 16), HexDigit(b[0] % 16)];
    assert HexText(b) == head + HexText(b[1..]);
    hide HexDigit, HexText;
    if i > 0 {
      HexAt(b[1..], i - 1);
      assert (head + HexText(b[1..]))[2 * i] == HexText(b[1..])[2 * (i - 1)];
      assert (head + HexText(b[1..]))[2 * i + 1] == HexText(b[1..])[2 * (i - 1) + 1];
    }
  }

  lemma HexDigitIs(d: nat)
    requires d < 16
    ensures HexDigit(d) == "0123456789abcdef"[d] as int
  {
  }

  /** A digest's text: the prefix, and 64 hex digits that spell its bytes in order. */
  lemma DigestTextSpelled(d: Digest)
    ensures var t := DigestText(d);
            && |t| == 71 && t[..7] == Lit("sha256:")
            && forall i | 0 <= i < 32 ::
                 t[7 + 2 * i] == "0123456789abcdef"[d[i] / 16] as int && t[8 + 2 * i] == "0123456789abcdef"[d[i] % 16] as int
  {
    var t := DigestText(d);
    hide HexText;
    assert t[..7] == DIGEST_PREFIX && t[7..] == HexText(d);
    forall i | 0 <= i < 32
      ensures t[7 + 2 * i] == "0123456789abcdef"[d[i] / 16] as int && t[8 + 2 * i] == "0123456789abcdef"[d[i] % 16] as int
    {
      HexAt(d, i);
      assert t[7 + 2 * i] == t[7..][2 * i] && t[8 + 2 * i] == t[7..][2 * i + 1];
    }
  }

  lemma DigestTextInjective(a: Digest, b: Digest)
    requires DigestText(a) == DigestText(b)
    ensures a == b
  {
    SplitEqual(DIGEST_PREFIX, HexText(a), DIGEST_PREFIX, HexText(b));
    HexInjective(a, b);
  }

  /** The eight envelope keys are distinct: by length, and by first letter where lengths agree. */
  lemma KeysDistinct()
    ensures forall i, j | 0 <= i < j < 8 :: KEYS[i] != KEYS[j]
  {
    assert |KEYS[0]| == 6 && |KEYS[1]| == 16 && |KEYS[2]| == 8 && |KEYS[3]| == 10 && |KEYS[4]| == 10;
    assert |KEYS[5]| == 7 && |KEYS[6]| == 13 && |KEYS[7]| == 14;
    assert KEYS[3][0] == 101 && KEYS[4][0] == 115;
  }

  /** The hashed object, name by name. */
  lemma EnvelopeSpelled(e: Event)
    ensures Envelope(e) == Obj([
              Field(Lit("schema"), Str(Lit("xibalba.memory.event.v1"))),
              Field(Lit("canonicalization"), Str(Lit("xibalba.canonical-json.v1"))),
              Field(Lit("sequence"), Int(e.sequence)),
              Field(Lit("event_type"), Str(e.eventType)),
              Field(Lit("subject_id"), Str(e.subject)),
              Field(Lit("payload"), Obj(e.payload)),
              Field(Lit("previous_hash"), if e.previous == None then Null else Str(e.previous.value)),
              Field(Lit("evidence_class"), Str(e.evidence))])
  {
    hide Lit;
    var fields := EnvelopeFields(e);
    assert fields == [fields[0], fields[1], fields[2], fields[3], fields[4], fields[5], fields[6], fields[7]];
  }

  lemma EnvelopeWellFormed(e: Event)
    requires WellFormed(Obj(e.payload))
    ensures WellFormed(Envelope(e))
  {
    KeysDistinct();
    forall i | 0 <= i < 8 ensures WellFormed(EnvelopeFields(e)[i].value) {
      assert EnvelopeFields(e)[i].value == EnvelopeValues(e)[i];
    }
  }

  /** The same event: every attribute equal, the payload up to insertion order. */
  ghost predicate SameEvent(a: Event, b: Event) {
    && a.sequence == b.sequence && a.eventType == b.eventType && a.subject == b.subject
    && a.previous == b.previous && a.evidence == b.evidence && Same(Obj(a.payload), Obj(b.payload))
  }

  lemma SameEnvelopeEntry(a: Event, b: Event, i: nat)
    requires i < 8 && Same(Envelope(a), Envelope(b))
    ensures Same(EnvelopeValues(a)[i], EnvelopeValues(b)[i])
  {
    KeysDistinct();
    assert SameEntry(EnvelopeFields(a)[i], EnvelopeFields(b));
    var j :| 0 <= j < 8 && EnvelopeFields(a)[i].key == EnvelopeFields(b)[j].key
             && Same(EnvelopeFields(a)[i].value, EnvelopeFields(b)[j].value);
    assert KEYS[i] == KEYS[j];
  }

  lemma SameEnvelope(a: Event, b: Event)
    requires Same(Envelope(a), Envelope(b))
    ensures SameEvent(a, b)
  {
    SameEnvelopeEntry(a, b, 2);
    SameEnvelopeEntry(a, b, 3);
    SameEnvelopeEntry(a, b, 4);
    SameEnvelopeEntry(a, b, 5);
    SameEnvelopeEntry(a, b, 6);
    SameEnvelopeEntry(a, b, 7);
  }

  ghost function EventStrings(events: seq<Event>): set<Bytes> {
    set i | 0 <= i < |events| :: Print(Envelope(events[i]))
  }

  ghost predicate AllWellFormed(events: seq<Event>) {
    forall i | 0 <= i < |events| :: WellFormed(Obj(events[i].payload))
  }

  lemma SameDigest(h: Hash, a: Event, b: Event)
    requires WellFormed(Obj(a.payload)) && WellFormed(Obj(b.payload)) && EventDigest(h, a) == EventDigest(h, b)
    requires CollisionFree(h, {Print(Envelope(a)), Print(Envelope(b))})
    ensures SameEvent(a, b)
  {
    DigestTextInjective(h(Print(Envelope(a))), h(Print(Envelope(b))));
    EnvelopeWellFormed(a);
    EnvelopeWellFormed(b);
    PrintIffSame(Envelope(a), Envelope(b));
    SameEnvelope(a, b);
  }

  /** Two verified chains with one head are the same events, unless two of the strings hashed collide. */
  lemma {:induction false} HeadCommits(h: Hash, xs: seq<Event>, ys: seq<Event>)
    requires AllWellFormed(xs) && AllWellFormed(ys)
    requires Verify(h, xs, 0, None).Valid? && Verify(h, ys, 0, None).Valid?
    requires Verify(h, xs, 0, None).head == Verify(h, ys, 0, None).head
    requires CollisionFree(h, EventStrings(xs) + EventStrings(ys))
    ensures |xs| == |ys| && forall i | 0 <= i < |xs| :: SameEvent(xs[i], ys[i])
    decreases |xs|
  {
    hide EventDigest, EventStrings, SameEvent, CollisionFree, Verify;
    HeadOfValid(h, xs);
    HeadOfValid(h, ys);
    if xs != [] {
      var k, m := |xs| - 1, |ys| - 1;
      LastEventsSame(h, xs, ys);
      PrefixFacts(h, xs);
      PrefixFacts(h, ys);
      SameLinks(xs[k], ys[m]);
      FewerStrings(h, xs, ys);
      HeadCommits(h, xs[..k], ys[..m]);
    }
  }

  lemma SameLinks(a: Event, b: Event)
    requires SameEvent(a, b)
    ensures a.sequence == b.sequence && a.previous == b.previous
  {
  }

  lemma LastEventsSame(h: Hash, xs: seq<Event>, ys: seq<Event>)
    requires xs != [] && ys != [] && AllWellFormed(xs) && AllWellFormed(ys)
    requires EventDigest(h, xs[|xs| - 1]) == EventDigest(h, ys[|ys| - 1])
    requires CollisionFree(h, EventStrings(xs) + EventStrings(ys))
    ensures SameEvent(xs[|xs| - 1], ys[|ys| - 1])
  {
    var a, b := xs[|xs| - 1], ys[|ys| - 1];
    assert Print(Envelope(a)) in EventStrings(xs) && Print(Envelope(b)) in EventStrings(ys);
    SameDigest(h, a, b);
  }

  /** Dropping the last event of a valid chain leaves a valid chain that its links point to. */
  lemma PrefixFacts(h: Hash, xs: seq<Event>)
    requires xs != [] && Verify(h, xs, 0, None).Valid?
    ensures var k := |xs| - 1;
            Verify(h, xs[..k], 0, None) == Valid(k, xs[k].previous) && xs[k].sequence == k
  {
    hide Verify, EventDigest;
    var k := |xs| - 1;
    assert xs == xs[..k] + [xs[k]];
    VerifyLast(h, xs[..k], xs[k], 0, None);
    HeadOfValid(h, xs[..k]);
  }

  lemma FewerStrings(h: Hash, xs: seq<Event>, ys: seq<Event>)
    requires xs != [] && ys != [] && CollisionFree(h, EventStrings(xs) + EventStrings(ys))
    ensures CollisionFree(h, EventStrings(xs[..|xs| - 1]) + EventStrings(ys[..|ys| - 1]))
  {
    assert EventStrings(xs[..|xs| - 1]) <= EventStrings(xs) && EventStrings(ys[..|ys| - 1]) <= EventStrings(ys);
  }
}
