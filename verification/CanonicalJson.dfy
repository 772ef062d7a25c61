/** Version 1 of the canonical JSON encoding, and a parser that inverts it. */
module CanonicalJson {
  import opened Options
  import opened Bytes
  import opened Decimals

  /** A text is its sequence of Unicode scalar values. */
  type Scalar = c: int | 0 <= c < 0x110000 && !(0xD800 <= c < 0xE000)
  type Text = seq<Scalar>

  datatype Json =
    | Null
    | Bool(b: bool)
    | Int(i: int)
    | Str(s: Text)
    | Arr(items: seq<Json>)
    | Obj(fields: seq<Field>)

  /** One entry of an object, in insertion order within the object. */
  datatype Field = Field(key: Text, value: Json)

  const QUOTE: Byte := 34
  const COMMA: Byte := 44
  const MINUS: Byte := 45
  const COLON: Byte := 58
  const OPEN_BRACKET: Byte := 91
  const BACKSLASH: Byte := 92
  const CLOSE_BRACKET: Byte := 93
  const LETTER_U: Byte := 117
  const OPEN_BRACE: Byte := 123
  const CLOSE_BRACE: Byte := 125
  const NULL_TEXT: Bytes := [110, 117, 108, 108]
  const TRUE_TEXT: Bytes := [116, 114, 117, 101]
  const FALSE_TEXT: Bytes := [102, 97, 108, 115, 101]

  // ---- printing ---------------------------------------------------------------------------------------

  function Decimal(i: int): Bytes {
    if i < 0 then [MINUS] + Digits(-i) else Digits(i)
  }

  function HexDigit(d: nat): Byte
    requires d < 16
  {
    if d < 10 then 48 + d else 87 + d
  }

  /** A UTF-16 unit as a \u escape with four lower-case hex digits. */
  function UnicodeEscape(unit: nat): Bytes
    requires unit < 0x10000
  {
    [BACKSLASH, LETTER_U, HexDigit(unit / 4096), HexDigit(unit / 256 % 16), HexDigit(unit / 16 % 16), HexDigit(unit % 16)]
  }

  /** The short escapes: quote, backslash, backspace, form feed, line feed, carriage return, tab. */
  function ShortEscape(c: int): Option<Byte> {
    if c == 34 then Some(34) else if c == 92 then Some(92)
    else if c == 8 then Some(98) else if c == 12 then Some(102)
    else if c == 10 then Some(110) else if c == 13 then Some(114)
    else if c == 9 then Some(116) else None
  }

  /** Printable ASCII stands for itself; everything else is escaped, beyond the BMP as a surrogate pair. */
  function Escaped(c: Scalar): Bytes {
    if ShortEscape(c).Some? then [BACKSLASH, ShortEscape(c).value]
    else if 32 <= c <= 126 then [c]
    else if c < 0x10000 then UnicodeEscape(c)
    else UnicodeEscape(0xD800 + (c - 0x10000) / 1024) + UnicodeEscape(0xDC00 + (c - 0x10000) % 1024)
  }

  function EscapedText(s: Text): Bytes {
    if s == [] then [] else Escaped(s[0]) + EscapedText(s[1..])
  }

  function Quoted(s: Text): Bytes {
    [QUOTE] + EscapedText(s) + [QUOTE]
  }

  /** The encoding of a value whose objects list their fields in the order to print. */
  function Render(v: Json): Bytes {
    match v
    case Null => NULL_TEXT
    case Bool(b) => if b then TRUE_TEXT else FALSE_TEXT
    case Int(i) => Decimal(i)
    case Str(s) => Quoted(s)
    case Arr(items) => [OPEN_BRACKET] + RenderItems(items) + [CLOSE_BRACKET]
    case Obj(fields) => [OPEN_BRACE] + RenderFields(fields) + [CLOSE_BRACE]
  }

  function RenderItems(items: seq<Json>): Bytes {
    if items == [] then []
    else Render(items[0]) + if |items| == 1 then [] else [COMMA] + RenderItems(items[1..])
  }

  function RenderFields(fields: seq<Field>): Bytes {
    if fields == [] then []
    else Quoted(fields[0].key) + [COLON] + Render(fields[0].value)
         + if |fields| == 1 then [] else [COMMA] + RenderFields(fields[1..])
  }

  /** Insertion by key order. */
  function Insert(f: Field, fields: seq<Field>): seq<Field> {
    if fields == [] then [f]
    else if LexLeq(f.key, fields[0].key) then [f] + fields
    else [fields[0]] + Insert(f, fields[1..])
  }

  function Sort(fields: seq<Field>): seq<Field> {
    if fields == [] then [] else Insert(fields[0], Sort(fields[1..]))
  }

  /** The value with every object's fields sorted by key. */
  function Canon(v: Json): Json {
    match v
    case Arr(items) => Arr(CanonItems(items))
    case Obj(fields) => Obj(Sort(CanonFields(fields)))
    case _ => v
  }

  function CanonItems(items: seq<Json>): (r: seq<Json>)
    ensures |r| == |items| && forall i | 0 <= i < |r| :: r[i] == Canon(items[i])
  {
    if items == [] then [] else [Canon(items[0])] + CanonItems(items[1..])
  }

  function CanonFields(fields: seq<Field>): (r: seq<Field>)
    ensures |r| == |fields| && forall i | 0 <= i < |r| :: r[i] == Field(fields[i].key, Canon(fields[i].value))
  {
    if fields == [] then [] else [Field(fields[0].key, Canon(fields[0].value))] + CanonFields(fields[1..])
  }

  /** `canonical_json_bytes`. */
  function Print(v: Json): Bytes {
    Render(Canon(v))
  }

  // ---- parsing ----------------------------------------------------------------------------------------

  function HexValue(b: Byte): Option<nat> {
    if 48 <= b <= 57 then Some(b - 48) else if 97 <= b <= 102 then Some(b - 87) else None
  }

  /** Four hex digits. */
  function TakeUnit(b: Bytes): Option<nat> {
    if |b| < 4 then None
    else
      match (HexValue(b[0]), HexValue(b[1]), HexValue(b[2]), HexValue(b[3]))
      case (Some(w), Some(x), Some(y), Some(z)) => Some(((w * 16 + x) * 16 + y) * 16 + z)
      case _ => None
  }

  function LongEscape(b: Byte): Option<Scalar> {
    if b == 34 then Some(34) else if b == 92 then Some(92)
    else if b == 98 then Some(8) else if b == 102 then Some(12)
    else if b == 110 then Some(10) else if b == 114 then Some(13)
    else if b == 116 then Some(9) else None
  }

  /** One character of a string, or nothing at the closing quote or on an error. */
  function TakeScalar(b: Bytes): (r: Option<(Scalar, Bytes)>)
    ensures r.Some? ==> |r.value.1| < |b|
  {
    if b == [] || b[0] == QUOTE then None
    else if b[0] != BACKSLASH then (if b[0] < 128 then Some((b[0], b[1..])) else None)
    else if |b| < 2 then None
    else if b[1] != LETTER_U then
      match LongEscape(b[1])
      case Some(c) => Some((c, b[2..]))
      case None => None
    else
      match TakeUnit(b[2..])
      case None => None
      case Some(unit) =>
        if !(0xD800 <= unit < 0xE000) then (if unit < 0x10000 then Some((unit, b[6..])) else None)
        else if unit < 0xDC00 && |b| >= 12 && b[6] == BACKSLASH && b[7] == LETTER_U then
          match TakeUnit(b[8..])
          case Some(low) =>
            if 0xDC00 <= low < 0xE000 then Some((0x10000 + (unit - 0xD800) * 1024 + (low - 0xDC00), b[12..])) else None
          case None => None
        else None
  }

  /** The characters up to the closing quote. */
  function TakeText(b: Bytes): (r: Option<(Text, Bytes)>)
    ensures r.Some? ==> |r.value.1| < |b|
    decreases |b|
  {
    if b != [] && b[0] == QUOTE then Some(([], b[1..]))
    else
      match TakeScalar(b)
      case None => None
      case Some((c, rest)) =>
        match TakeText(rest)
        case None => None
        case Some((s, after)) => Some(([c] + s, after))
  }

  function Parse(b: Bytes): (r: Option<(Json, Bytes)>)
    ensures r.Some? ==> |r.value.1| < |b|
    decreases |b|, 0
  {
    if b == [] then None
    else if b[0] == QUOTE then
      match TakeText(b[1..])
      case Some((s, rest)) => Some((Str(s), rest))
      case None => None
    else if b[0] == MINUS then
      var (n, rest) := TakeDigits(b[1..], 0); Some((Int(0 - n), rest))
    else if IsDigit(b[0]) then
      var (n, rest) := TakeDigits(b[1..], b[0] - 48); Some((Int(n), rest))
    else if b[0] == OPEN_BRACKET then
      if |b| > 1 && b[1] == CLOSE_BRACKET then Some((Arr([]), b[2..]))
      else
        match ParseItems(b[1..])
        case Some((items, rest)) => Some((Arr(items), rest))
        case None => None
    else if b[0] == OPEN_BRACE then
      if |b| > 1 && b[1] == CLOSE_BRACE then Some((Obj([]), b[2..]))
      else
        match ParseFields(b[1..])
        case Some((fields, rest)) => Some((Obj(fields), rest))
        case None => None
    else ParseWord(b)
  }

  function ParseWord(b: Bytes): (r: Option<(Json, Bytes)>)
    ensures r.Some? ==> |r.value.1| < |b|
  {
    if NULL_TEXT <= b then Some((Null, b[4..]))
    else if TRUE_TEXT <= b then Some((Bool(true), b[4..]))
    else if FALSE_TEXT <= b then Some((Bool(false), b[5..]))
    else None
  }

  function ParseItems(b: Bytes): (r: Option<(seq<Json>, Bytes)>)
    ensures r.Some? ==> |r.value.1| < |b|
    decreases |b|, 1
  {
    match Parse(b)
    case None => None
    case Some((v, rest)) =>
      if rest == [] then None
      else if rest[0] == CLOSE_BRACKET then Some(([v], rest[1..]))
      else if rest[0] == COMMA then
        match ParseItems(rest[1..])
        case Some((items, after)) => Some(([v] + items, after))
        case None => None
      else None
  }

  function ParseFields(b: Bytes): (r: Option<(seq<Field>, Bytes)>)
    ensures r.Some? ==> |r.value.1| < |b|
    decreases |b|, 1
  {
    if b == [] || b[0] != QUOTE then None
    else
      match TakeText(b[1..])
      case None => None
      case Some((key, colon)) =>
        if colon == [] || colon[0] != COLON then None
        else
          match Parse(colon[1..])
          case None => None
          case Some((v, rest)) =>
            if rest == [] then None
            else if rest[0] == CLOSE_BRACE then Some(([Field(key, v)], rest[1..]))
            else if rest[0] == COMMA then
              match ParseFields(rest[1..])
              case Some((fields, after)) => Some(([Field(key, v)] + fields, after))
              case None => None
            else None
  }

  // ---- the parser inverts the printer -----------------------------------------------------------------

  /** What may follow a value: nothing, or a byte that is no digit. */
  predicate Delimited(rest: Bytes) {
    rest == [] || !IsDigit(rest[0])
  }

  lemma NegativeRoundTrip(i: int, rest: Bytes)
    requires Delimited(rest) && i < 0
    ensures Parse(Decimal(i) + rest) == Some((Int(i), rest))
  {
    hide ParseWord, ParseItems, ParseFields, TakeText, Digits;
    var b := Decimal(i) + rest;
    DigitsRead(-i, rest);
    assert b[0] == MINUS && b[1..] == Digits(-i) + rest;
    assert b[1] == Digits(-i)[0];
    hide Decimal;
  }

  lemma NaturalRoundTrip(n: nat, rest: Bytes)
    requires Delimited(rest)
    ensures Parse(Decimal(n) + rest) == Some((Int(n), rest))
  {
    hide ParseWord, ParseItems, ParseFields, TakeText, Digits;
    var b := Decimal(n) + rest;
    DigitsRead(n, rest);
    assert b == Digits(n) + rest && 48 <= b[0] <= 57;
    assert TakeDigits(b, 0) == TakeDigits(b[1..], b[0] - 48);
  }

  lemma IntRoundTrip(i: int, rest: Bytes)
    requires Delimited(rest)
    ensures Parse(Decimal(i) + rest) == Some((Int(i), rest))
  {
    hide Parse, Decimal;
    if i < 0 {
      NegativeRoundTrip(i, rest);
    } else {
      NaturalRoundTrip(i, rest);
    }
  }

  lemma HexRoundTrip(d: nat)
    requires d < 16
    ensures HexValue(HexDigit(d)) == Some(d)
  {
  }

  lemma UnitDigits(unit: nat)
    requires unit < 0x10000
    ensures ((unit / 4096 * 16 + unit / 256 % 16) * 16 + unit / 16 % 16) * 16 + unit % 16 == unit
  {
    assert unit / 256 == unit / 256 / 16 * 16 + unit / 256 % 16 && unit / 256 / 16 == unit / 4096;
    assert unit / 16 == unit / 16 / 16 * 16 + unit / 16 % 16 && unit / 16 / 16 == unit / 256;
  }

  lemma UnitRoundTrip(unit: nat, tail: Bytes)
    requires unit < 0x10000
    ensures TakeUnit((UnicodeEscape(unit) + tail)[2..]) == Some(unit)
  {
    hide HexDigit, HexValue;
    var w, x, y, z := unit / 4096, unit / 256 % 16, unit / 16 % 16, unit % 16;
    HexRoundTrip(w);
    HexRoundTrip(x);
    HexRoundTrip(y);
    HexRoundTrip(z);
    UnitDigits(unit);
    assert (UnicodeEscape(unit) + tail)[2..] == [HexDigit(w), HexDigit(x), HexDigit(y), HexDigit(z)] + tail;
  }

  lemma ScalarRoundTrip(c: Scalar, tail: Bytes)
    ensures TakeScalar(Escaped(c) + tail) == Some((c, tail))
    ensures Escaped(c) != [] && Escaped(c)[0] != QUOTE
  {
    var b := Escaped(c) + tail;
    if ShortEscape(c).Some? {
      assert b[0] == BACKSLASH && b[1] == ShortEscape(c).value && b[2..] == tail;
    } else if 32 <= c <= 126 {
      assert b[0] == c && b[1..] == tail;
    } else if c < 0x10000 {
      UnitRoundTrip(c, tail);
      assert b[0] == BACKSLASH && b[1] == LETTER_U && b[6..] == tail;
    } else {
      PairRoundTrip(c, tail);
    }
  }

  lemma PairRoundTrip(c: Scalar, tail: Bytes)
    requires c >= 0x10000
    ensures TakeScalar(Escaped(c) + tail) == Some((c, tail))
  {
    hide TakeUnit;
    var high, low := 0xD800 + (c - 0x10000) / 1024, 0xDC00 + (c - 0x10000) % 1024;
    var b := Escaped(c) + tail;
    assert b == UnicodeEscape(high) + (UnicodeEscape(low) + tail);
    UnitRoundTrip(high, UnicodeEscape(low) + tail);
    UnitRoundTrip(low, tail);
    assert b[8..] == (UnicodeEscape(low) + tail)[2..];
    assert b[0] == BACKSLASH && b[1] == LETTER_U && b[6] == BACKSLASH && b[7] == LETTER_U && b[12..] == tail;
  }

  lemma {:induction false} TextRoundTrip(s: Text, rest: Bytes)
    ensures TakeText(EscapedText(s) + [QUOTE] + rest) == Some((s, rest))
  {
    if s == [] {
      assert ([] + [QUOTE] + rest)[1..] == rest;
    } else {
      var tail := EscapedText(s[1..]) + [QUOTE] + rest;
      TextRoundTrip(s[1..], rest);
      ScalarRoundTrip(s[0], tail);
      assert EscapedText(s) + [QUOTE] + rest == Escaped(s[0]) + tail;
      assert [s[0]] + s[1..] == s;
    }
  }

  /** A printed value starts with a byte that closes nothing. */
  lemma RenderStarts(v: Json)
    ensures Render(v) != [] && Render(v)[0] != CLOSE_BRACKET
  {
  }

  lemma WordRoundTrip(rest: Bytes)
    ensures Parse(NULL_TEXT + rest) == Some((Null, rest))
    ensures Parse(TRUE_TEXT + rest) == Some((Bool(true), rest))
    ensures Parse(FALSE_TEXT + rest) == Some((Bool(false), rest))
  {
    var n, t, f := NULL_TEXT + rest, TRUE_TEXT + rest, FALSE_TEXT + rest;
    assert n[0] == 110 && t[0] == 116 && f[0] == 102;
    assert n[..4] == NULL_TEXT && t[..4] == TRUE_TEXT && f[..5] == FALSE_TEXT;
    assert n[4..] == t[4..] == f[5..] == rest;
  }

  lemma StringRoundTrip(s: Text, rest: Bytes)
    ensures Parse(Quoted(s) + rest) == Some((Str(s), rest))
  {
    hide ParseItems, ParseFields, ParseWord, TakeText, EscapedText, TakeDigits;
    TextRoundTrip(s, rest);
    var b := Quoted(s) + rest;
    assert b[0] == QUOTE && b[1..] == EscapedText(s) + [QUOTE] + rest;
  }

  lemma ArrayParsed(body: Bytes, items: seq<Json>, rest: Bytes)
    requires body != [] && body[0] != CLOSE_BRACKET && ParseItems(body) == Some((items, rest))
    ensures Parse([OPEN_BRACKET] + body) == Some((Arr(items), rest))
  {
    hide ParseItems, ParseFields, TakeText, ParseWord;
    var b := [OPEN_BRACKET] + body;
    assert b[0] == OPEN_BRACKET && b[1] == body[0] && b[1..] == body;
  }

  lemma ObjectParsed(body: Bytes, fields: seq<Field>, rest: Bytes)
    requires body != [] && body[0] != CLOSE_BRACE && ParseFields(body) == Some((fields, rest))
    ensures Parse([OPEN_BRACE] + body) == Some((Obj(fields), rest))
  {
    hide ParseItems, ParseFields, TakeText, ParseWord;
    var b := [OPEN_BRACE] + body;
    assert b[0] == OPEN_BRACE && b[1] == body[0] && b[1..] == body;
  }

  lemma EmptyRoundTrip(rest: Bytes)
    ensures Parse([OPEN_BRACKET] + [] + [CLOSE_BRACKET] + rest) == Some((Arr([]), rest))
    ensures Parse([OPEN_BRACE] + [] + [CLOSE_BRACE] + rest) == Some((Obj([]), rest))
  {
    var a, o := [OPEN_BRACKET] + [] + [CLOSE_BRACKET] + rest, [OPEN_BRACE] + [] + [CLOSE_BRACE] + rest;
    assert a[0] == OPEN_BRACKET && a[1] == CLOSE_BRACKET && a[2..] == rest;
    assert o[0] == OPEN_BRACE && o[1] == CLOSE_BRACE && o[2..] == rest;
  }

  lemma {:induction false} RoundTrip(v: Json, rest: Bytes)
    requires Delimited(rest)
    ensures Parse(Render(v) + rest) == Some((v, rest))
    decreases v, 1
  {
    hide Parse, ParseItems, ParseFields, RenderItems, RenderFields;
    match v
    case Null => WordRoundTrip(rest);
    case Bool(x) => WordRoundTrip(rest);
    case Int(i) => IntRoundTrip(i, rest);
    case Str(s) => StringRoundTrip(s, rest);
    case Arr(items) =>
      if items == [] {
        EmptyRoundTrip(rest);
        NothingRendered();
      } else {
        var body := RenderItems(items) + [CLOSE_BRACKET] + rest;
        ItemsRoundTrip(items, rest);
        ItemsStart(items);
        ArrayParsed(body, items, rest);
        assert Render(v) + rest == [OPEN_BRACKET] + body;
      }
    case Obj(fields) =>
      if fields == [] {
        EmptyRoundTrip(rest);
        NothingRendered();
      } else {
        var body := RenderFields(fields) + [CLOSE_BRACE] + rest;
        FieldsRoundTrip(fields, rest);
        FieldsStart(fields);
        ObjectParsed(body, fields, rest);
        assert Render(v) + rest == [OPEN_BRACE] + body;
      }
  }

  lemma NothingRendered()
    ensures RenderItems([]) == [] && RenderFields([]) == []
  {
  }

  lemma ItemsStart(items: seq<Json>)
    requires items != []
    ensures RenderItems(items) != [] && RenderItems(items)[0] != CLOSE_BRACKET
  {
    RenderStarts(items[0]);
  }

  lemma FieldsStart(fields: seq<Field>)
    requires fields != []
    ensures RenderFields(fields) != [] && RenderFields(fields)[0] == QUOTE
  {
  }

  /** One step of the list parser: a last value, or a value and more. */
  lemma ItemsStep(b: Bytes, v: Json, tail: Bytes)
    requires Parse(b) == Some((v, tail)) && tail != []
    ensures tail[0] == CLOSE_BRACKET ==> ParseItems(b) == Some(([v], tail[1..]))
    ensures tail[0] == COMMA && ParseItems(tail[1..]).Some? ==>
              ParseItems(b) == Some(([v] + ParseItems(tail[1..]).value.0, ParseItems(tail[1..]).value.1))
  {
  }

  /** What follows the first item in a rendered list. */
  function AfterItem(items: seq<Json>, rest: Bytes): Bytes
    requires items != []
  {
    if |items| == 1 then [CLOSE_BRACKET] + rest
    else [COMMA] + (RenderItems(items[1..]) + [CLOSE_BRACKET] + rest)
  }

  lemma ItemsSplit(items: seq<Json>, rest: Bytes)
    requires items != []
    ensures RenderItems(items) + [CLOSE_BRACKET] + rest == Render(items[0]) + AfterItem(items, rest)
  {
  }

  lemma {:induction false} ItemsRoundTrip(items: seq<Json>, rest: Bytes)
    requires items != []
    ensures ParseItems(RenderItems(items) + [CLOSE_BRACKET] + rest) == Some((items, rest))
    decreases items, 0
  {
    hide Parse, ParseItems, Render, RenderItems;
    var tail := AfterItem(items, rest);
    ItemsSplit(items, rest);
    RoundTrip(items[0], tail);
    ItemsStep(Render(items[0]) + tail, items[0], tail);
    if |items| == 1 {
      assert tail[1..] == rest && items == [items[0]];
    } else {
      ItemsRoundTrip(items[1..], rest);
      assert tail[1..] == RenderItems(items[1..]) + [CLOSE_BRACKET] + rest;
      assert items == [items[0]] + items[1..];
    }
  }

  /** One step of the object parser. */
  lemma FieldsStep(b: Bytes, key: Text, colon: Bytes, v: Json, tail: Bytes)
    requires b != [] && b[0] == QUOTE && TakeText(b[1..]) == Some((key, colon))
    requires colon != [] && colon[0] == COLON && Parse(colon[1..]) == Some((v, tail)) && tail != []
    ensures tail[0] == CLOSE_BRACE ==> ParseFields(b) == Some(([Field(key, v)], tail[1..]))
    ensures tail[0] == COMMA && ParseFields(tail[1..]).Some? ==>
              ParseFields(b) == Some(([Field(key, v)] + ParseFields(tail[1..]).value.0, ParseFields(tail[1..]).value.1))
  {
    hide Parse, TakeText;
  }

  lemma KeyRead(key: Text, after: Bytes)
    ensures var b := Quoted(key) + after; b != [] && b[0] == QUOTE && TakeText(b[1..]) == Some((key, after))
  {
    hide TakeText, EscapedText;
    var b := Quoted(key) + after;
    TextRoundTrip(key, after);
    assert b[1..] == EscapedText(key) + [QUOTE] + after;
  }

  lemma FieldParsed(key: Text, v: Json, tail: Bytes)
    requires Delimited(tail) && tail != [] && Parse(Render(v) + tail) == Some((v, tail))
    ensures var b := Quoted(key) + ([COLON] + (Render(v) + tail));
            (tail[0] == CLOSE_BRACE ==> ParseFields(b) == Some(([Field(key, v)], tail[1..])))
            && (tail[0] == COMMA && ParseFields(tail[1..]).Some? ==>
                  ParseFields(b) == Some(([Field(key, v)] + ParseFields(tail[1..]).value.0, ParseFields(tail[1..]).value.1)))
  {
    hide Parse, ParseFields, TakeText, Quoted, Render;
    var colon := [COLON] + (Render(v) + tail);
    KeyRead(key, colon);
    assert colon[1..] == Render(v) + tail;
    FieldsStep(Quoted(key) + colon, key, colon, v, tail);
  }

  function AfterField(fields: seq<Field>, rest: Bytes): Bytes
    requires fields != []
  {
    if |fields| == 1 then [CLOSE_BRACE] + rest
    else [COMMA] + (RenderFields(fields[1..]) + [CLOSE_BRACE] + rest)
  }

  lemma FieldsSplit(fields: seq<Field>, rest: Bytes)
    requires fields != []
    ensures RenderFields(fields) + [CLOSE_BRACE] + rest
              == Quoted(fields[0].key) + ([COLON] + (Render(fields[0].value) + AfterField(fields, rest)))
  {
    var key, value := Quoted(fields[0].key), Render(fields[0].value);
    hide Quoted, Render;
    if |fields| == 1 {
      Regroup(key, [COLON], value, [], [], [CLOSE_BRACE], rest);
    } else {
      Regroup(key, [COLON], value, [COMMA], RenderFields(fields[1..]), [CLOSE_BRACE], rest);
    }
  }

  lemma Regroup(key: Bytes, colon: Bytes, value: Bytes, comma: Bytes, fields: Bytes, close: Bytes, rest: Bytes)
    ensures key + colon + value + (comma + fields) + close + rest
         == key + (colon + (value + (comma + (fields + close + rest))))
  {
  }

  lemma {:induction false} FieldsRoundTrip(fields: seq<Field>, rest: Bytes)
    requires fields != []
    ensures ParseFields(RenderFields(fields) + [CLOSE_BRACE] + rest) == Some((fields, rest))
    decreases fields, 0
  {
    hide Parse, ParseFields, Render, RenderFields, Quoted;
    var tail := AfterField(fields, rest);
    FieldsSplit(fields, rest);
    RoundTrip(fields[0].value, tail);
    FieldParsed(fields[0].key, fields[0].value, tail);
    if |fields| == 1 {
      assert tail[1..] == rest && fields == [fields[0]];
    } else {
      FieldsRoundTrip(fields[1..], rest);
      assert tail[1..] == RenderFields(fields[1..]) + [CLOSE_BRACE] + rest;
      assert fields == [fields[0]] + fields[1..];
    }
  }

  /** The printed text determines the value with sorted fields. */
  lemma PrintRoundTrip(v: Json)
    ensures Parse(Print(v)) == Some((Canon(v), []))
  {
    RoundTrip(Canon(v), []);
    assert Print(v) + [] == Print(v);
  }

  // ---- equality up to the insertion order of object fields --------------------------------------------

  predicate DistinctKeys(fields: seq<Field>) {
    forall i, j | 0 <= i < j < |fields| :: fields[i].key != fields[j].key
  }

  /** No object holds a key twice. */
  predicate WellFormed(v: Json) {
    match v
    case Arr(items) => forall i | 0 <= i < |items| :: WellFormed(items[i])
    case Obj(fields) => DistinctKeys(fields) && forall i | 0 <= i < |fields| :: WellFormed(fields[i].value)
    case _ => true
  }

  /** The same value, whatever the order in which fields were inserted. */
  ghost predicate Same(a: Json, b: Json) {
    match (a, b)
    case (Arr(x), Arr(y)) => |x| == |y| && forall i | 0 <= i < |x| :: Same(x[i], y[i])
    case (Obj(f), Obj(g)) => |f| == |g| && forall i | 0 <= i < |f| :: SameEntry(f[i], g)
    case _ => a == b
  }

  ghost predicate SameEntry(f: Field, g: seq<Field>) {
    exists j :: 0 <= j < |g| && f.key == g[j].key && Same(f.value, g[j].value)
  }

  predicate Before(f: Field, g: Field) {
    f.key != g.key && LexLeq(f.key, g.key)
  }

  ghost predicate StrictlySorted(fields: seq<Field>) {
    forall i, j | 0 <= i < j < |fields| :: Before(fields[i], fields[j])
  }

  lemma {:induction false} InsertSorts(f: Field, fields: seq<Field>)
    requires StrictlySorted(fields) && forall g | g in fields :: g.key != f.key
    ensures StrictlySorted(Insert(f, fields)) && |Insert(f, fields)| == |fields| + 1
    ensures forall g :: g in Insert(f, fields) <==> g == f || g in fields
  {
    if fields != [] {
      assert fields[0] in fields;
      if LexLeq(f.key, fields[0].key) {
        forall g | g in fields ensures Before(f, g) {
          var i :| 0 <= i < |fields| && fields[i] == g;
          if i > 0 {
            assert Before(fields[0], fields[i]);
            LexTransitive(f.key, fields[0].key, g.key);
          }
        }
      } else {
        InsertSorts(f, fields[1..]);
        LexTotal(f.key, fields[0].key);
        var rest := Insert(f, fields[1..]);
        forall i | 0 <= i < |rest| ensures Before(fields[0], rest[i]) {
          assert rest[i] in rest;
        }
      }
    }
  }

  lemma {:induction false} SortSorts(fields: seq<Field>)
    requires DistinctKeys(fields)
    ensures StrictlySorted(Sort(fields)) && |Sort(fields)| == |fields|
    ensures forall g :: g in Sort(fields) <==> g in fields
  {
    if fields != [] {
      SortSorts(fields[1..]);
      InsertSorts(fields[0], Sort(fields[1..]));
    }
  }

  /** A strictly sorted list inside another is not longer, and equally long only if it is the other. */
  lemma {:induction false} SortedInside(s: seq<Field>, t: seq<Field>)
    requires StrictlySorted(s) && StrictlySorted(t) && forall f | f in s :: f in t
    ensures |s| <= |t| && (|s| == |t| ==> s == t)
    decreases |t|
  {
    if s != [] {
      assert s[0] in s && s[0] in t;
      if s[0] == t[0] {
        forall f | f in s[1..] ensures f in t[1..] {
          assert f in s && Before(s[0], f);
        }
        SortedInside(s[1..], t[1..]);
        assert s == [s[0]] + s[1..] && t == [t[0]] + t[1..];
      } else {
        var k :| 0 < k < |t| && t[k] == s[0];
        forall f | f in s ensures f in t[1..] {
          if f == t[0] {
            var i :| 0 <= i < |s| && s[i] == f;
            assert Before(t[0], s[0]) && (i > 0 ==> Before(s[0], f));
            NotBothBefore(t[0], s[0]);
          }
        }
        SortedInside(s, t[1..]);
      }
    }
  }

  lemma NotBothBefore(f: Field, g: Field)
    ensures !(Before(f, g) && Before(g, f))
  {
    if Before(f, g) && Before(g, f) {
      LexAntisymmetric(f.key, g.key);
    }
  }

  /** Sorting undoes insertion order: two values are the same exactly when their canonical forms are equal. */
  lemma {:induction false} CanonIffSame(a: Json, b: Json)
    requires WellFormed(a) && WellFormed(b)
    ensures Canon(a) == Canon(b) <==> Same(a, b)
    decreases a
  {
    match (a, b)
    case (Arr(x), Arr(y)) =>
      if |x| == |y| {
        forall i | 0 <= i < |x| ensures Canon(x[i]) == Canon(y[i]) <==> Same(x[i], y[i]) {
          CanonIffSame(x[i], y[i]);
        }
        assert (forall i | 0 <= i < |x| :: CanonItems(x)[i] == CanonItems(y)[i]) <==> CanonItems(x) == CanonItems(y);
      }
    case (Obj(f), Obj(g)) =>
      forall i, j | 0 <= i < |f| && 0 <= j < |g|
        ensures Canon(f[i].value) == Canon(g[j].value) <==> Same(f[i].value, g[j].value)
      {
        CanonIffSame(f[i].value, g[j].value);
      }
      FieldsIffSame(f, g);
    case _ =>
  }

  lemma EntryFromSorted(f: seq<Field>, g: seq<Field>, i: nat)
    requires DistinctKeys(f) && DistinctKeys(g) && i < |f|
    requires forall j | 0 <= j < |g| :: Canon(f[i].value) == Canon(g[j].value) <==> Same(f[i].value, g[j].value)
    requires Sort(CanonFields(f)) == Sort(CanonFields(g))
    ensures |f| == |g| && SameEntry(f[i], g)
  {
    hide Same, Sort;
    var x, y := CanonFields(f), CanonFields(g);
    SortSorts(x);
    SortSorts(y);
    assert x[i] in x && x[i] in Sort(y);
    var j :| 0 <= j < |y| && y[j] == x[i];
  }

  lemma SortedFromEntries(f: seq<Field>, g: seq<Field>)
    requires DistinctKeys(f) && DistinctKeys(g) && |f| == |g|
    requires forall i, j | 0 <= i < |f| && 0 <= j < |g| ::
               Canon(f[i].value) == Canon(g[j].value) <==> Same(f[i].value, g[j].value)
    requires forall i | 0 <= i < |f| :: SameEntry(f[i], g)
    ensures Sort(CanonFields(f)) == Sort(CanonFields(g))
  {
    hide Same, Sort;
    var x, y := CanonFields(f), CanonFields(g);
    SortSorts(x);
    SortSorts(y);
    forall e | e in Sort(x) ensures e in Sort(y) {
      var i :| 0 <= i < |x| && x[i] == e;
      assert SameEntry(f[i], g);
      var j :| 0 <= j < |g| && f[i].key == g[j].key && Same(f[i].value, g[j].value);
      assert y[j] == x[i];
    }
    SortedInside(Sort(x), Sort(y));
  }

  lemma FieldsIffSame(f: seq<Field>, g: seq<Field>)
    requires DistinctKeys(f) && DistinctKeys(g)
    requires forall i, j | 0 <= i < |f| && 0 <= j < |g| ::
               Canon(f[i].value) == Canon(g[j].value) <==> Same(f[i].value, g[j].value)
    ensures Sort(CanonFields(f)) == Sort(CanonFields(g)) <==>
              |f| == |g| && forall i | 0 <= i < |f| :: SameEntry(f[i], g)
  {
    hide Same, Sort, SameEntry, Canon;
    if Sort(CanonFields(f)) == Sort(CanonFields(g)) {
      forall i | 0 <= i < |f| ensures |f| == |g| && SameEntry(f[i], g) {
        EntryFromSorted(f, g, i);
      }
      SortKeepsLength(f);
      SortKeepsLength(g);
    }
    if |f| == |g| && forall i | 0 <= i < |f| :: SameEntry(f[i], g) {
      SortedFromEntries(f, g);
    }
  }

  lemma SortKeepsLength(f: seq<Field>)
    requires DistinctKeys(f)
    ensures |Sort(CanonFields(f))| == |f|
  {
    SortSorts(CanonFields(f));
  }

  /** Two values print alike exactly when they are the same up to insertion order. */
  lemma PrintIffSame(a: Json, b: Json)
    requires WellFormed(a) && WellFormed(b)
    ensures Print(a) == Print(b) <==> Same(a, b)
  {
    PrintRoundTrip(a);
    PrintRoundTrip(b);
    CanonIffSame(a, b);
  }
}
