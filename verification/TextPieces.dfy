/** Splitting, joining and stripping text as the Python string methods do. */
module TextPieces {

  /** What str.strip removes. */
  predicate IsSpace(c: char) {
    c in {' ', '\t', '\n', '\r', '\U{0B}', '\U{0C}', '\U{1C}', '\U{1D}', '\U{1E}', '\U{1F}', '\U{85}', '\U{A0}'}
    || c in {'\U{1680}', '\U{2028}', '\U{2029}', '\U{202F}', '\U{205F}', '\U{3000}'}
    || '\U{2000}' <= c <= '\U{200A}'
  }

  predicate Blank(s: string) {
    forall i | 0 <= i < |s| :: IsSpace(s[i])
  }

  function StripLeft(s: string): (r: string)
    ensures |r| <= |s| && s[|s| - |r|..] == r
    ensures r == "" || !IsSpace(r[0])
  {
    if s != "" && IsSpace(s[0]) then StripLeft(s[1..]) else s
  }

  function StripRight(s: string): (r: string)
    ensures |r| <= |s| && s[..|r|] == r
    ensures r == "" || !IsSpace(r[|r| - 1])
  {
    if s != "" && IsSpace(s[|s| - 1]) then StripRight(s[..|s| - 1]) else s
  }

  function Strip(s: string): string {
    StripRight(StripLeft(s))
  }

  lemma StripEnds(s: string)
    ensures var r := Strip(s); r == "" || (!IsSpace(r[0]) && !IsSpace(r[|r| - 1]))
  {
  }

  /** Stripping cuts white space off both ends, and nothing else. */
  lemma StripCuts(s: string) returns (a: string, b: string)
    ensures s == a + Strip(s) + b && Blank(a) && Blank(b)
  {
    hide StripLeft, StripRight, Blank;
    var l := StripLeft(s);
    a := LeftCut(s);
    b := RightCut(l);
    assert a + (StripRight(l) + b) == a + StripRight(l) + b;
  }

  lemma LeftCut(s: string) returns (a: string)
    ensures s == a + StripLeft(s) && Blank(a)
  {
    hide StripLeft, IsSpace;
    var r := StripLeft(s);
    var k := |s| - |r|;
    a := s[..k];
    forall i | 0 <= i < k ensures IsSpace(s[i]) {
      CutIsSpace(s, i);
    }
    assert s == s[..k] + s[k..];
  }

  lemma {:induction false} CutIsSpace(s: string, i: nat)
    requires i < |s| - |StripLeft(s)|
    ensures IsSpace(s[i])
  {
    hide IsSpace;
    if i > 0 {
      CutIsSpace(s[1..], i - 1);
    }
  }

  lemma RightCut(s: string) returns (b: string)
    ensures s == StripRight(s) + b && Blank(b)
  {
    var k := |StripRight(s)|;
    b := s[k..];
    hide StripRight, IsSpace;
    forall i | k <= i < |s| ensures IsSpace(s[i]) {
      RightIsSpace(s, i);
    }
  }

  lemma {:induction false} RightIsSpace(s: string, i: nat)
    requires |StripRight(s)| <= i < |s|
    ensures IsSpace(s[i])
  {
    hide IsSpace;
    if i < |s| - 1 {
      RightIsSpace(s[..|s| - 1], i);
    }
  }

  /** s.split(sep): cut at the leftmost occurrences that do not overlap. */
  function Split(s: string, sep: string): (pieces: seq<string>)
    requires sep != ""
    ensures pieces != []
    decreases |s|
  {
    if |s| < |sep| then [s]
    else if sep <= s then [""] + Split(s[|sep|..], sep)
    else var rest := Split(s[1..], sep); [[s[0]] + rest[0]] + rest[1..]
  }

  /** sep.join(parts). */
  function Join(parts: seq<string>, sep: string): string {
    if parts == [] then ""
    else if |parts| == 1 then parts[0]
    else parts[0] + sep + Join(parts[1..], sep)
  }

  /** s.replace(target, other). */
  function Replace(s: string, target: string, other: string): string
    requires target != ""
  {
    Join(Split(s, target), other)
  }

  /** Splitting loses nothing: joining with the separator gives the text back. */
  lemma {:induction false} JoinSplit(s: string, sep: string)
    requires sep != ""
    ensures Join(Split(s, sep), sep) == s
    decreases |s|
  {
    ReplaceIsScan(s, sep, sep);
    if |s| >= |sep| {
      if sep <= s {
        JoinSplit(s[|sep|..], sep);
        assert s == sep + s[|sep|..];
      } else {
        JoinSplit(s[1..], sep);
        assert s == [s[0]] + s[1..];
      }
    }
  }

  /** Replacing is one pass from the left. */
  lemma ReplaceIsScan(s: string, target: string, other: string)
    requires target != ""
    ensures Replace(s, target, other)
         == if |s| < |target| then s
            else if target <= s then other + Replace(s[|target|..], target, other)
            else [s[0]] + Replace(s[1..], target, other)
  {
    if |s| >= |target| {
      if target <= s {
        var rest := Split(s[|target|..], target);
        assert ([""] + rest)[1..] == rest;
      } else {
        var rest := Split(s[1..], target);
        JoinHead([s[0]], rest, other);
      }
    }
  }

  lemma JoinHead(head: string, parts: seq<string>, sep: string)
    requires parts != []
    ensures Join([head + parts[0]] + parts[1..], sep) == head + Join(parts, sep)
  {
    assert ([head + parts[0]] + parts[1..])[1..] == parts[1..];
    if |parts| == 1 {
      assert parts[1..] == [] && [head + parts[0]] + [] == [head + parts[0]];
    }
  }

  // ---- the characters that show -----------------------------------------------------------------------------

  /** A text without its white space. */
  function Visible(s: string): string {
    if s == "" then "" else (if IsSpace(s[0]) then "" else [s[0]]) + Visible(s[1..])
  }

  function VisibleOf(parts: seq<string>): string {
    if parts == [] then "" else Visible(parts[0]) + VisibleOf(parts[1..])
  }

  lemma {:induction false} VisibleConcat(s: string, t: string)
    ensures Visible(s + t) == Visible(s) + Visible(t)
  {
    if s == "" {
      assert s + t == t;
    } else {
      assert (s + t)[1..] == s[1..] + t;
      VisibleConcat(s[1..], t);
    }
  }

  lemma {:induction false} BlankIsInvisible(s: string)
    requires Blank(s)
    ensures Visible(s) == ""
  {
    if s != "" {
      BlankIsInvisible(s[1..]);
    }
  }

  lemma StripKeepsVisible(s: string)
    ensures Visible(Strip(s)) == Visible(s)
  {
    var a, b := StripCuts(s);
    hide Visible, Blank, Strip;
    BlankIsInvisible(a);
    BlankIsInvisible(b);
    VisibleConcat(a, Strip(s));
    VisibleConcat(a + Strip(s), b);
  }

  lemma {:induction false} VisibleJoin(parts: seq<string>, sep: string)
    requires Blank(sep)
    ensures Visible(Join(parts, sep)) == VisibleOf(parts)
  {
    if parts != [] {
      var rest := Join(parts[1..], sep);
      VisibleJoin(parts[1..], sep);
      if |parts| == 1 {
        assert parts[1..] == [];
      } else {
        BlankIsInvisible(sep);
        VisibleConcat(parts[0], sep);
        VisibleConcat(parts[0] + sep, rest);
      }
    }
  }

  lemma {:induction false} VisibleOfConcat(p: seq<string>, q: seq<string>)
    ensures VisibleOf(p + q) == VisibleOf(p) + VisibleOf(q)
  {
    if p == [] {
      assert p + q == q;
    } else {
      assert (p + q)[1..] == p[1..] + q;
      VisibleOfConcat(p[1..], q);
    }
  }

  predicate At(sep: string, s: string, i: nat) {
    i <= |s| && sep <= s[i..]
  }

  ghost predicate Occurs(sep: string, s: string) {
    exists i: nat :: At(sep, s, i)
  }

  lemma {:induction false} FirstPieceIsPrefix(s: string, sep: string)
    requires sep != ""
    ensures Split(s, sep)[0] <= s
    decreases |s|
  {
    if |s| >= |sep| && !(sep <= s) {
      FirstPieceIsPrefix(s[1..], sep);
      assert s == [s[0]] + s[1..];
    }
  }

  /** No piece contains the separator. */
  lemma {:induction false} PiecesHoldNoSeparator(s: string, sep: string, k: nat)
    requires sep != "" && k < |Split(s, sep)|
    ensures !Occurs(sep, Split(s, sep)[k])
    decreases |s|
  {
    if |s| < |sep| {
    } else if sep <= s {
      if k > 0 {
        PiecesHoldNoSeparator(s[|sep|..], sep, k - 1);
      }
    } else {
      PiecesHoldNoSeparator(s[1..], sep, k);
      FirstPieceIsPrefix(s, sep);
      if k == 0 {
        var piece, tail := Split(s, sep)[0], Split(s[1..], sep)[0];
        forall i: nat ensures !At(sep, piece, i) {
          if i == 0 {
            assert piece[0..] == piece;
          } else if i <= |piece| {
            assert piece[i..] == tail[i - 1..];
            assert !At(sep, tail, i - 1);
          }
        }
      }
    }
  }

  /** Splitting reads parts back when no separator occurs in, or overlaps the end of, a part. */
  lemma {:induction false} SplitReadsPart(part: string, rest: string, sep: string)
    requires sep != ""
    requires forall i: nat | i < |part| :: !At(sep, part + sep + rest, i)
    ensures Split(part + sep + rest, sep) == [part] + Split(rest, sep)
    decreases |part|
  {
    var s := part + sep + rest;
    if part == "" {
      assert s == sep + rest && sep <= s && s[|sep|..] == rest;
    } else {
      assert s[0..] == s;
      var shorter := part[1..] + sep + rest;
      assert s[1..] == shorter;
      forall i: nat | i < |part[1..]| ensures !At(sep, shorter, i) {
        assert shorter[i..] == s[i + 1..];
        assert !At(sep, s, i + 1);
      }
      assert !At(sep, s, 0);
      SplitReadsPart(part[1..], rest, sep);
      assert [part[0]] + part[1..] == part;
    }
  }

  lemma {:induction false} SplitReadsLast(part: string, sep: string)
    requires sep != "" && !Occurs(sep, part)
    ensures Split(part, sep) == [part]
    decreases |part|
  {
    if |part| >= |sep| {
      assert part[0..] == part && !At(sep, part, 0);
      forall i: nat ensures !At(sep, part[1..], i) {
        if i <= |part[1..]| {
          assert part[1..][i..] == part[i + 1..] && !At(sep, part, i + 1);
        }
      }
      SplitReadsLast(part[1..], sep);
      assert [part[0]] + part[1..] == part;
    }
  }
}
