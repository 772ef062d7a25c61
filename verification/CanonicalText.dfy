/** What canonical JSON looks like: sorted keys, printable ASCII, no insignificant white space. */
module CanonicalText {
  import opened Bytes
  import opened Decimals
  import opened CanonicalJson

  // ---- keys ---------------------------------------------------------------------------------------------

  /** In every object, at any depth, keys ascend by their first differing code point, a beginning before its extensions. */
  ghost predicate KeysAscend(v: Json) {
    match v
    case Arr(items) => forall i | 0 <= i < |items| :: KeysAscend(items[i])
    case Obj(fields) =>
      && (forall i, j | 0 <= i < j < |fields| :: FirstDifference(fields[i].key, fields[j].key))
      && (forall i | 0 <= i < |fields| :: KeysAscend(fields[i].value))
    case _ => true
  }

  lemma SortedKeysDiffer(fields: seq<Field>)
    requires StrictlySorted(fields)
    ensures forall i, j | 0 <= i < j < |fields| :: FirstDifference(fields[i].key, fields[j].key)
  {
    hide FirstDifference, LexLeq;
    forall i, j | 0 <= i < j < |fields| ensures FirstDifference(fields[i].key, fields[j].key) {
      assert Before(fields[i], fields[j]);
      LexLeqIff(fields[i].key, fields[j].key);
    }
  }

  lemma ObjectAscends(fields: seq<Field>)
    requires forall i, j | 0 <= i < j < |fields| :: FirstDifference(fields[i].key, fields[j].key)
    requires forall i | 0 <= i < |fields| :: KeysAscend(fields[i].value)
    ensures KeysAscend(Obj(fields))
  {
  }

  /** What is printed has its keys in ascending order. */
  lemma {:induction false} CanonKeysAscend(v: Json)
    requires WellFormed(v)
    ensures KeysAscend(Canon(v))
    decreases v
  {
    match v
    case Arr(items) =>
      forall i | 0 <= i < |items| ensures KeysAscend(CanonItems(items)[i]) {
        CanonKeysAscend(items[i]);
      }
    case Obj(fields) =>
      var canon := CanonFields(fields);
      forall i | 0 <= i < |fields| ensures KeysAscend(canon[i].value) {
        CanonKeysAscend(fields[i].value);
      }
      SortSorts(canon);
      SortedKeysDiffer(Sort(canon));
      hide FirstDifference, Sort, StrictlySorted, KeysAscend;
      forall k | 0 <= k < |Sort(canon)| ensures KeysAscend(Sort(canon)[k].value) {
        assert Sort(canon)[k] in canon;
        var i :| 0 <= i < |canon| && canon[i] == Sort(canon)[k];
      }
      ObjectAscends(Sort(canon));
    case _ =>
  }

  // ---- printable ASCII ----------------------------------------------------------------------------------

  /** Bytes from the space to the tilde. */
  predicate Plain(b: Bytes) {
    forall i | 0 <= i < |b| :: 32 <= b[i] <= 126
  }

  lemma {:induction false} EscapedPlain(s: Text)
    ensures Plain(EscapedText(s))
  {
    if s != [] {
      EscapedPlain(s[1..]);
      assert Plain(Escaped(s[0]));
    }
  }

  /** The encoding is printable ASCII whatever the value holds. */
  lemma {:induction false} RenderPlain(v: Json)
    ensures Plain(Render(v))
    decreases v, 0
  {
    match v
    case Int(i) =>
    case Str(s) => EscapedPlain(s);
    case Arr(items) => ItemsPlain(items);
    case Obj(fields) => FieldsPlain(fields);
    case _ =>
  }

  lemma {:induction false} ItemsPlain(items: seq<Json>)
    ensures Plain(RenderItems(items))
    decreases items
  {
    if items != [] {
      RenderPlain(items[0]);
      ItemsPlain(items[1..]);
    }
  }

  lemma {:induction false} FieldsPlain(fields: seq<Field>)
    ensures Plain(RenderFields(fields))
    decreases fields
  {
    if fields != [] {
      EscapedPlain(fields[0].key);
      RenderPlain(fields[0].value);
      FieldsPlain(fields[1..]);
    }
  }

  lemma PrintPlain(v: Json)
    ensures Plain(Print(v))
  {
    RenderPlain(Canon(v));
  }

  // ---- the spelling of each kind of value ----------------------------------------------------------------

  lemma WordsSpelled()
    ensures Print(Null) == Ascii("null") && Print(Bool(true)) == Ascii("true") && Print(Bool(false)) == Ascii("false")
  {
  }

  lemma NumberSpelled()
    ensures Print(Int(-120)) == Ascii("-120")
  {
    assert Digits(1) == [49] && Digits(12) == Digits(1) + [50] && Digits(120) == Digits(12) + [48];
  }

  lemma CharacterPrinted(c: Scalar)
    ensures Print(Str([c])) == [34] + Escaped(c) + [34]
  {
    assert [c][1..] == [];
    assert EscapedText([c]) == Escaped(c) + EscapedText([]);
  }

  /** A letter, a quotation mark and a line feed. */
  lemma AsciiSpelled()
    ensures Print(Str([97])) == Ascii("\"a\"")
    ensures Print(Str([34])) == Ascii("\"\\\"\"")
    ensures Print(Str([10])) == Ascii("\"\\n\"")
  {
    CharacterPrinted(97);
    CharacterPrinted(34);
    CharacterPrinted(10);
    hide Print;
  }

  lemma AccentEscaped()
    ensures Escaped(0xe9) == [92, 117, 48, 48, 101, 57]
  {
  }

  lemma FaceEscaped()
    ensures Escaped(0x1F600) == [92, 117, 100, 56, 51, 100, 92, 117, 100, 101, 48, 48]
  {
    assert UnicodeEscape(0xD83D) == [92, 117, 100, 56, 51, 100];
    assert UnicodeEscape(0xDE00) == [92, 117, 100, 101, 48, 48];
  }

  /** U+00E9 as \u00e9 in quotes. */
  lemma AccentSpelled()
    ensures Print(Str([0xe9])) == [34, 92, 117, 48, 48, 101, 57, 34]
  {
    CharacterPrinted(0xe9);
    AccentEscaped();
    hide Print, Escaped;
  }

  /** U+1F600 as \ud83d\ude00 in quotes. */
  lemma FaceSpelled()
    ensures Print(Str([0x1F600])) == [34, 92, 117, 100, 56, 51, 100, 92, 117, 100, 101, 48, 48, 34]
  {
    CharacterPrinted(0x1F600);
    FaceEscaped();
    hide Print, Escaped;
  }

  lemma ArraySpelled()
    ensures Print(Arr([Null, Bool(true)])) == Ascii("[null,true]")
  {
    var items := [Null, Bool(true)];
    assert CanonItems(items) == items;
    assert items[1..] == [Bool(true)];
    assert RenderItems([Bool(true)]) == TRUE_TEXT + [];
    assert RenderItems(items) == NULL_TEXT + ([COMMA] + RenderItems([Bool(true)]));
  }

  const A: Field := Field([97], Obj([]))
  const B: Field := Field([98], Null)

  lemma Sorted()
    ensures Canon(Obj([B, A])) == Obj([A, B])
  {
    assert [B, A][1..] == [A] && [A][1..] == [];
    assert CanonFields([A]) == [A] && CanonFields([B, A]) == [B, A];
    assert !LexLeq(B.key, A.key);
    assert Sort([A]) == [A] && Sort([B, A]) == Insert(B, [A]) && Insert(B, [A]) == [A] + Insert(B, []);
  }

  lemma KeyRendered(c: Scalar)
    requires c == 97 || c == 98
    ensures Quoted([c]) == [34, c, 34]
  {
    assert [c][1..] == [] && EscapedText([c]) == Escaped(c) + EscapedText([]);
  }

  lemma Rendered()
    ensures RenderFields([A, B]) == [34, 97, 34, 58, 123, 125, 44, 34, 98, 34, 58] + NULL_TEXT
  {
    assert [A, B][1..] == [B];
    KeyRendered(97);
    KeyRendered(98);
    hide Quoted;
    assert RenderFields([B]) == [34, 98, 34, 58] + NULL_TEXT;
    assert Render(A.value) == [123, 125];
    hide Render;
    assert RenderFields([A, B]) == [34, 97, 34, 58] + [123, 125] + ([44] + RenderFields([B]));
  }

  lemma NothingSpelled()
    ensures Print(Obj([])) == Ascii("{}") && Print(Arr([])) == Ascii("[]")
  {
  }

  lemma ObjectSpelled()
    ensures Print(Obj([B, A])) == Ascii("{\"a\":{},\"b\":null}")
  {
    Sorted();
    Rendered();
    hide Canon, RenderFields, A, B;
    assert Render(Obj([A, B])) == [123] + RenderFields([A, B]) + [125];
  }
}
