/** `split_document`: sections at headings, and greedy packing of paragraphs into chunks. */
module DocumentSplit {
  import opened Options
  import opened TextPieces
  import MarkdownHeadings

  const TARGET: nat := 3000
  const GAP: string := "\n\n"
  const NEWLINE: string := "\n"

  datatype Chunk = Chunk(title: string, body: string)
  datatype Section = Section(title: string, lines: seq<string>)

  /** Carriage returns, alone or before a line feed, become line feeds. */
  function Unified(s: string): string {
    Replace(Replace(s, "\r\n", NEWLINE), "\r", NEWLINE)
  }

  /** A recogniser of heading lines that returns their titles; the document splitter uses MarkdownHeadings.Heading. */
  type Headings = string -> Option<string>

  /** A heading opens a section; any other line goes to the last one. */
  function Sections(headings: Headings, lines: seq<string>): (r: seq<Section>)
    ensures r != []
  {
    if lines == [] then [Section("", [])]
    else
      var before, line := Sections(headings, lines[..|lines| - 1]), lines[|lines| - 1];
      match headings(line)
      case Some(title) => before + [Section(Strip(title), [])]
      case None =>
        var last := before[|before| - 1];
        before[..|before| - 1] + [Section(last.title, last.lines + [line])]
  }

  /** The stripped non-blank pieces, in order. */
  function NonBlank(pieces: seq<string>): seq<string> {
    if pieces == [] then []
    else (if Strip(pieces[0]) == "" then [] else [Strip(pieces[0])]) + NonBlank(pieces[1..])
  }

  function Paragraphs(lines: seq<string>): seq<string> {
    NonBlank(Split(Join(lines, NEWLINE), GAP))
  }

  // ---- packing ----------------------------------------------------------------------------------------

  function Body(group: seq<string>): string {
    Join(group, GAP)
  }

  /** The loop: close the current group when the next paragraph would overflow it. */
  function PackFrom(group: seq<string>, rest: seq<string>): (groups: seq<seq<string>>)
    decreases |rest|
  {
    if rest == [] then (if group == [] then [] else [group])
    else if group != [] && |Body(group)| + |rest[0]| + 2 > TARGET then [group] + PackFrom([rest[0]], rest[1..])
    else PackFrom(group + [rest[0]], rest[1..])
  }

  function Pack(paragraphs: seq<string>): seq<seq<string>> {
    PackFrom([], paragraphs)
  }

  function Chunks(title: string, groups: seq<seq<string>>): (r: seq<Chunk>)
    ensures |r| == |groups| && forall i | 0 <= i < |r| :: r[i] == Chunk(title, Body(groups[i]))
  {
    seq(|groups|, i requires 0 <= i < |groups| => Chunk(title, Body(groups[i])))
  }

  ghost function AllChunks(sections: seq<Section>): seq<Chunk> {
    if sections == [] then []
    else
      var last := sections[|sections| - 1];
      AllChunks(sections[..|sections| - 1]) + Chunks(last.title, Pack(Paragraphs(last.lines)))
  }

  lemma {:induction false} BodyGrows(group: seq<string>, p: string)
    requires group != []
    ensures Body(group + [p]) == Body(group) + GAP + p
  {
    if |group| == 1 {
      assert (group + [p])[1..] == [p] && Body([p]) == p;
    } else {
      assert (group + [p])[1..] == group[1..] + [p];
      BodyGrows(group[1..], p);
    }
  }

  lemma {:induction false} BodyNonEmpty(group: seq<string>)
    requires group != [] && group[0] != ""
    ensures Body(group) != ""
  {
  }

  /** One round of the loop on groups. */
  lemma PackLoopStep(done: seq<seq<string>>, group: seq<string>, rest: seq<string>)
    requires rest != []
    ensures done + PackFrom(group, rest) ==
              if group != [] && |Body(group)| + |rest[0]| + 2 > TARGET
              then done + [group] + PackFrom([rest[0]], rest[1..])
              else done + PackFrom(group + [rest[0]], rest[1..])
  {
    hide Body;
  }

  /** The inner loop, on strings. */
  method PackSection(title: string, paragraphs: seq<string>) returns (chunks: seq<Chunk>)
    requires forall p | p in paragraphs :: p != ""
    ensures chunks == Chunks(title, Pack(paragraphs))
  {
    chunks := [];
    var current := "";
    ghost var done: seq<seq<string>>, group: seq<string> := [], [];
    var i := 0;
    assert paragraphs[0..] == paragraphs;
    while i < |paragraphs|
      invariant i <= |paragraphs|
      invariant done + PackFrom(group, paragraphs[i..]) == Pack(paragraphs)
      invariant chunks == Chunks(title, done) && current == Body(group)
      invariant group != [] ==> group[0] in paragraphs
    {
      var paragraph := paragraphs[i];
      assert paragraph in paragraphs && paragraphs[i..][0] == paragraph && paragraphs[i..][1..] == paragraphs[i + 1..];
      PackLoopStep(done, group, paragraphs[i..]);
      if group != [] {
        BodyNonEmpty(group);
        BodyGrows(group, paragraph);
      }
      hide PackFrom, Pack, Join;
      if current != "" && |current| + |paragraph| + 2 > TARGET {
        chunks := chunks + [Chunk(title, current)];
        done, group, current := done + [group], [], "";
      }
      assert [] + [paragraph] == [paragraph] && Body([paragraph]) == paragraph;
      current := if current != "" then current + "\n\n" + paragraph else paragraph;
      group := group + [paragraph];
      i := i + 1;
    }
    if group != [] {
      BodyNonEmpty(group);
    }
    if current != "" {
      chunks := chunks + [Chunk(title, current)];
      done := done + [group];
    }
    assert done == Pack(paragraphs);
  }

  method FindSections(headings: Headings, lines: seq<string>) returns (sections: seq<Section>)
    ensures sections == Sections(headings, lines)
  {
    sections := [Section("", [])];
    var i := 0;
    while i < |lines|
      invariant i <= |lines| && sections == Sections(headings, lines[..i])
    {
      assert lines[..i + 1][..i] == lines[..i];
      match headings(lines[i]) {
        case Some(title) =>
          sections := sections + [Section(Strip(title), [])];
        case None =>
          var k := |sections| - 1;
          sections := sections[..k] + [Section(sections[k].title, sections[k].lines + [lines[i]])];
      }
      i := i + 1;
    }
    assert lines[..i] == lines;
  }

  method SplitDocument(text: string) returns (chunks: seq<Chunk>)
    ensures chunks == AllChunks(Sections(MarkdownHeadings.Heading, Split(Unified(text), NEWLINE)))
  {
    hide Pack, Paragraphs, Split, Unified, Sections, Chunks, Strip;
    var sections := FindSections(MarkdownHeadings.Heading, Split(Unified(text), NEWLINE));
    chunks := [];
    var i := 0;
    while i < |sections|
      invariant i <= |sections| && chunks == AllChunks(sections[..i])
    {
      assert sections[..i + 1][..i] == sections[..i];
      ParagraphShape(sections[i].lines);
      var more := PackSection(sections[i].title, Paragraphs(sections[i].lines));
      chunks := chunks + more;
      i := i + 1;
    }
    assert sections[..i] == sections;
  }

  // ---- lines and sections -----------------------------------------------------------------------------

  lemma {:induction false} JoinHolds(parts: seq<string>, sep: string, c: char)
    requires c !in sep && forall k | 0 <= k < |parts| :: c !in parts[k]
    ensures c !in Join(parts, sep)
  {
    if |parts| > 1 {
      JoinHolds(parts[1..], sep, c);
    }
  }

  /** No carriage return is left to end up in a line. */
  lemma UnifiedHasNoReturn(s: string)
    ensures '\r' !in Unified(s)
  {
    var once := Replace(s, "\r\n", NEWLINE);
    var pieces := Split(once, "\r");
    forall k | 0 <= k < |pieces| ensures '\r' !in pieces[k] {
      PiecesHoldNoSeparator(once, "\r", k);
      forall i | 0 <= i < |pieces[k]| ensures pieces[k][i] != '\r' {
        assert !At("\r", pieces[k], i);
        assert pieces[k][i..][0] == pieces[k][i];
      }
    }
    JoinHolds(pieces, NEWLINE, '\r');
  }

  function SectionLines(sections: seq<Section>): seq<string> {
    if sections == [] then [] else SectionLines(sections[..|sections| - 1]) + sections[|sections| - 1].lines
  }

  function PlainLines(headings: Headings, lines: seq<string>): seq<string> {
    if lines == [] then []
    else
      var n := |lines| - 1;
      PlainLines(headings, lines[..n]) + if headings(lines[n]).None? then [lines[n]] else []
  }

  /** The stripped titles of the heading lines. */
  function Titles(headings: Headings, lines: seq<string>): seq<string> {
    if lines == [] then []
    else
      var n := |lines| - 1;
      Titles(headings, lines[..n]) + if headings(lines[n]).Some? then [Strip(headings(lines[n]).value)] else []
  }

  function TitlesOf(sections: seq<Section>): (r: seq<string>)
    ensures |r| == |sections| && forall i | 0 <= i < |r| :: r[i] == sections[i].title
  {
    seq(|sections|, i requires 0 <= i < |sections| => sections[i].title)
  }

  lemma SectionLinesAppend(sections: seq<Section>, s: Section)
    ensures SectionLines(sections + [s]) == SectionLines(sections) + s.lines
  {
    assert (sections + [s])[..|sections|] == sections;
  }

  /** One more line of the last section. */
  lemma SectionLinesExtend(sections: seq<Section>, line: string)
    requires sections != []
    ensures var n := |sections| - 1;
            var longer := sections[..n] + [Section(sections[n].title, sections[n].lines + [line])];
            SectionLines(longer) == SectionLines(sections) + [line]
  {
    var n := |sections| - 1;
    SectionLinesAppend(sections[..n], Section(sections[n].title, sections[n].lines + [line]));
  }

  /** Sections keep every line that is no heading, in order. */
  lemma {:induction false} SectionsKeepLines(headings: Headings, lines: seq<string>)
    ensures SectionLines(Sections(headings, lines)) == PlainLines(headings, lines)
  {
    if lines == [] {
      NoSectionLines();
    } else {
      hide SectionLines, Strip;
      var n := |lines| - 1;
      var before := Sections(headings, lines[..n]);
      SectionsKeepLines(headings, lines[..n]);
      if headings(lines[n]).Some? {
        SectionLinesAppend(before, Section(Strip(headings(lines[n]).value), []));
      } else {
        SectionLinesExtend(before, lines[n]);
      }
    }
  }

  lemma TitlesAppend(sections: seq<Section>, s: Section)
    ensures TitlesOf(sections + [s]) == TitlesOf(sections) + [s.title]
  {
  }

  /** Their titles are those of the headings, in order, behind an untitled first section. */
  lemma {:induction false} SectionsCarryTitles(headings: Headings, lines: seq<string>)
    ensures TitlesOf(Sections(headings, lines)) == [""] + Titles(headings, lines)
  {
    hide Strip, TitlesOf;
    if lines != [] {
      var n := |lines| - 1;
      var before, heading := Sections(headings, lines[..n]), headings(lines[n]);
      SectionsCarryTitles(headings, lines[..n]);
      if heading.Some? {
        TitlesAppend(before, Section(Strip(heading.value), []));
      } else {
        var k := |before| - 1;
        TitlesAppend(before[..k], before[k]);
        TitlesAppend(before[..k], Section(before[k].title, before[k].lines + [lines[n]]));
        assert before == before[..k] + [before[k]];
      }
    } else {
      TitlesAppend([], Section("", []));
      assert [] + [Section("", [])] == [Section("", [])] && TitlesOf([]) == [];
    }
  }

  lemma NoSectionLines()
    ensures SectionLines([Section("", [])]) == []
  {
    SectionLinesAppend([], Section("", []));
  }

  // ---- the shape of a paragraph -----------------------------------------------------------------------

  /** Non-empty, without a blank line inside, and not starting or ending with white space. */
  ghost predicate IsParagraph(p: string) {
    p != "" && !Occurs(GAP, p) && !IsSpace(p[0]) && !IsSpace(p[|p| - 1])
  }

  lemma DropKeepsOut(s: string, k: nat, sep: string)
    requires k <= |s| && !Occurs(sep, s)
    ensures !Occurs(sep, s[k..])
  {
    forall i: nat ensures !At(sep, s[k..], i) {
      if i <= |s[k..]| {
        assert s[k..][i..] == s[k + i..] && !At(sep, s, k + i);
      }
    }
  }

  lemma TakeKeepsOut(s: string, k: nat, sep: string)
    requires k <= |s| && !Occurs(sep, s)
    ensures !Occurs(sep, s[..k])
  {
    forall i: nat ensures !At(sep, s[..k], i) {
      if i <= k {
        assert s[..k][i..] <= s[i..] && !At(sep, s, i);
      }
    }
  }

  lemma StripKeepsOut(s: string, sep: string)
    requires !Occurs(sep, s)
    ensures !Occurs(sep, Strip(s))
  {
    var l := StripLeft(s);
    DropKeepsOut(s, |s| - |l|, sep);
    TakeKeepsOut(l, |StripRight(l)|, sep);
  }

  lemma {:induction false} NonBlankShape(pieces: seq<string>)
    requires forall i | 0 <= i < |pieces| :: !Occurs(GAP, pieces[i])
    ensures forall p | p in NonBlank(pieces) :: IsParagraph(p)
  {
    if pieces != [] {
      var p, rest := Strip(pieces[0]), NonBlank(pieces[1..]);
      NonBlankShape(pieces[1..]);
      StripKeepsOut(pieces[0], GAP);
      StripEnds(pieces[0]);
      assert NonBlank(pieces) == (if p == "" then [] else [p]) + rest;
      hide NonBlank, Strip, IsSpace, Occurs;
      assert p != "" ==> IsParagraph(p);
    }
  }

  lemma ParagraphShape(lines: seq<string>)
    ensures forall p | p in Paragraphs(lines) :: IsParagraph(p)
  {
    var pieces := Split(Join(lines, NEWLINE), GAP);
    forall i | 0 <= i < |pieces| ensures !Occurs(GAP, pieces[i]) {
      PiecesHoldNoSeparator(Join(lines, NEWLINE), GAP, i);
    }
    NonBlankShape(pieces);
  }

  // ---- lossless ---------------------------------------------------------------------------------------

  ghost function Flatten(groups: seq<seq<string>>): seq<string> {
    if groups == [] then [] else groups[0] + Flatten(groups[1..])
  }

  /** A group that may stand as one chunk. */
  ghost predicate Fits(group: seq<string>) {
    group != [] && (|group| == 1 || |Body(group)| <= TARGET)
  }

  /** groups cuts the paragraphs into consecutive runs that each fit. */
  ghost predicate IsCut(groups: seq<seq<string>>, paragraphs: seq<string>) {
    Flatten(groups) == paragraphs && forall i | 0 <= i < |groups| :: Fits(groups[i])
  }

  lemma {:induction false} PackFromCuts(group: seq<string>, rest: seq<string>)
    requires group == [] || Fits(group)
    ensures IsCut(PackFrom(group, rest), group + rest)
    decreases |rest|
  {
    if rest == [] {
      assert group + rest == group;
      assert [group][1..] == [] && group + [] == group;
    } else if group != [] && |Body(group)| + |rest[0]| + 2 > TARGET {
      PackFromCuts([rest[0]], rest[1..]);
      var later := PackFrom([rest[0]], rest[1..]);
      assert ([group] + later)[1..] == later;
      assert [rest[0]] + rest[1..] == rest;
    } else {
      if group != [] {
        BodyGrows(group, rest[0]);
      }
      PackFromCuts(group + [rest[0]], rest[1..]);
      assert group + [rest[0]] + rest[1..] == group + rest;
    }
  }

  /** The groups are the paragraphs in order, each at most the target or a single paragraph. */
  lemma PackIsCut(paragraphs: seq<string>)
    ensures IsCut(Pack(paragraphs), paragraphs)
  {
    PackFromCuts([], paragraphs);
    assert [] + paragraphs == paragraphs;
  }

  /** A chunk's text gives back its paragraphs. */
  lemma {:induction false} BodyReadsBack(group: seq<string>)
    requires group != [] && forall i | 0 <= i < |group| :: IsParagraph(group[i])
    ensures Split(Body(group), GAP) == group
  {
    if |group| == 1 {
      SplitReadsLast(group[0], GAP);
    } else {
      var p, rest := group[0], Body(group[1..]);
      assert Body(group) == p + GAP + rest;
      forall i: nat | i < |p| ensures !At(GAP, p + GAP + rest, i) {
        assert !At(GAP, p, i);
        if i == |p| - 1 {
          assert (p + GAP + rest)[i..][0] == p[i] != '\n';
        } else {
          assert (p + GAP + rest)[i..][..2] == p[i..][..2];
        }
      }
      SplitReadsPart(p, rest, GAP);
      BodyReadsBack(group[1..]);
      assert [group[0]] + group[1..] == group;
    }
  }

  // ---- optimal ----------------------------------------------------------------------------------------

  /** A contiguous part of a fitting group fits. */
  lemma {:induction false} TailFits(group: seq<string>, i: nat)
    requires Fits(group) && i < |group|
    ensures Fits(group[i..]) && |Body(group[i..])| <= |Body(group)|
  {
    if i > 0 {
      TailFits(group[1..], i - 1);
      assert group[1..][i - 1..] == group[i..];
    } else {
      assert group[0..] == group;
    }
  }

  lemma {:induction false} BodyPrefix(group: seq<string>, k: nat)
    requires 0 < k <= |group|
    ensures |Body(group[..k])| <= |Body(group)|
    decreases |group| - k
  {
    if k == |group| {
      assert group[..k] == group;
    } else {
      assert group[..k + 1] == group[..k] + [group[k]];
      BodyGrows(group[..k], group[k]);
      BodyPrefix(group, k + 1);
    }
  }

  /** Dropping the first paragraphs of a cut leaves a cut that is no longer. */
  lemma {:induction false} DropFromCut(groups: seq<seq<string>>, paragraphs: seq<string>, i: nat)
    returns (fewer: seq<seq<string>>)
    requires IsCut(groups, paragraphs) && i <= |paragraphs|
    ensures IsCut(fewer, paragraphs[i..]) && |fewer| <= |groups|
    decreases |groups|
  {
    if i == 0 || groups == [] {
      assert paragraphs[i..] == paragraphs;
      fewer := groups;
    } else {
      var g, later := groups[0], groups[1..];
      var tail := Flatten(later);
      assert paragraphs == g + tail && IsCut(later, tail);
      if i >= |g| {
        fewer := DropFromCut(later, tail, i - |g|);
        assert tail[i - |g|..] == paragraphs[i..];
      } else {
        TailFits(g, i);
        fewer := [g[i..]] + later;
        assert fewer[1..] == later;
        assert paragraphs[i..] == g[i..] + tail;
      }
    }
  }

  /** A paragraph that would overflow the group does not fit behind it; any other does. */
  lemma OverflowIff(group: seq<string>, p: string)
    requires group != []
    ensures |Body(group)| + |p| + 2 > TARGET <==> !Fits(group + [p])
  {
    BodyGrows(group, p);
  }

  /** One round of the loop, in terms of what fits. */
  lemma PackRound(group: seq<string>, rest: seq<string>)
    requires group != [] && rest != []
    ensures PackFrom(group, rest) == if Fits(group + [rest[0]]) then PackFrom(group + [rest[0]], rest[1..])
                                     else [group] + Pack(rest)
  {
    OverflowIff(group, rest[0]);
    assert [] + [rest[0]] == [rest[0]];
  }

  /** The first group the loop closes: as long as any fitting group that starts the same list. */
  lemma {:induction false} FirstGroup(group: seq<string>, rest: seq<string>) returns (m: nat)
    requires Fits(group)
    ensures m <= |rest| && PackFrom(group, rest) == [group + rest[..m]] + Pack(rest[m..])
    ensures m < |rest| ==> !Fits(group + rest[..m + 1])
    decreases |rest|
  {
    FitsNonEmpty(group);
    if rest == [] {
      m := 0;
      assert group + rest[..0] == group && rest[0..] == [];
    } else {
      hide Fits, PackFrom;
      PackRound(group, rest);
      if !Fits(group + [rest[0]]) {
        m := 0;
        assert group + rest[..0] == group && rest[0..] == rest && rest[..1] == [rest[0]];
      } else {
        var k := FirstGroup(group + [rest[0]], rest[1..]);
        m := k + 1;
        AppendMove(group, rest, k);
        assert rest[1..][k..] == rest[m..];
        if m < |rest| {
          AppendMove(group, rest, k + 1);
        }
      }
    }
  }

  lemma AppendMove(group: seq<string>, rest: seq<string>, k: nat)
    requires k < |rest|
    ensures group + [rest[0]] + rest[1..][..k] == group + rest[..k + 1]
  {
  }

  lemma FitsNonEmpty(group: seq<string>)
    requires Fits(group)
    ensures group != []
  {
  }

  /** The first group of any cut is no longer than the loop's. */
  lemma FirstGroupLongest(paragraphs: seq<string>, m: nat, g: seq<string>)
    requires m < |paragraphs| && Fits(g) && g <= paragraphs
    requires !Fits(paragraphs[..m + 1])
    ensures |g| <= m
  {
    if |g| > m {
      assert g[..m + 1] == paragraphs[..m + 1];
      BodyPrefix(g, m + 1);
    }
  }

  /** No cut of the same paragraphs into fitting runs has fewer groups. */
  lemma {:induction false} PackIsOptimal(paragraphs: seq<string>, groups: seq<seq<string>>)
    requires IsCut(groups, paragraphs)
    ensures |Pack(paragraphs)| <= |groups|
    decreases |paragraphs|
  {
    if paragraphs != [] {
      var first, rest := [paragraphs[0]], paragraphs[1..];
      assert [] + first == first && first + rest == paragraphs;
      var k := FirstGroup(first, rest);
      var m := k + 1;
      assert first + rest[..k] == paragraphs[..m] && rest[k..] == paragraphs[m..];
      assert k < |rest| ==> first + rest[..k + 1] == paragraphs[..m + 1];
      var g, later := groups[0], Flatten(groups[1..]);
      assert paragraphs == g + later && IsCut(groups[1..], later);
      if m < |paragraphs| {
        FirstGroupLongest(paragraphs, m, g);
      }
      var fewer := DropFromCut(groups[1..], later, m - |g|);
      assert later[m - |g|..] == paragraphs[m..];
      PackIsOptimal(paragraphs[m..], fewer);
    }
  }

  // ---- nothing that shows is lost -----------------------------------------------------------------------

  /** One pass: a carriage return, with a line feed behind it or not, becomes a line feed. */
  function OnePass(s: string): string {
    if s == "" then ""
    else if s[0] == '\r' then "\n" + OnePass(if |s| > 1 && s[1] == '\n' then s[2..] else s[1..])
    else [s[0]] + OnePass(s[1..])
  }

  lemma {:induction false} UnifiedIsOnePass(s: string)
    ensures Unified(s) == OnePass(s)
    decreases |s|
  {
    hide Split, Join, Replace;
    ReplaceIsScan(s, "\r\n", NEWLINE);
    if s == "" {
      ReplaceIsScan("", "\r", NEWLINE);
    } else if "\r\n" <= s {
      assert s[0] == '\r' && s[1] == '\n';
      FeedFirst('\n', Replace(s[2..], "\r\n", NEWLINE));
      UnifiedIsOnePass(s[2..]);
    } else {
      assert !(|s| > 1 && s[0] == '\r' && s[1] == '\n');
      CharacterFirst(s);
      FeedFirst(s[0], Replace(s[1..], "\r\n", NEWLINE));
      UnifiedIsOnePass(s[1..]);
    }
  }

  lemma CharacterFirst(s: string)
    requires s != "" && !("\r\n" <= s)
    ensures Replace(s, "\r\n", NEWLINE) == [s[0]] + Replace(s[1..], "\r\n", NEWLINE)
  {
    hide Split, Join, Replace;
    ReplaceIsScan(s, "\r\n", NEWLINE);
    ReplaceIsScan(s[1..], "\r\n", NEWLINE);
  }

  /** The second replacement on a text whose first character is known. */
  lemma FeedFirst(c: char, t: string)
    ensures Replace([c] + t, "\r", NEWLINE) == (if c == '\r' then NEWLINE else [c]) + Replace(t, "\r", NEWLINE)
  {
    hide Split, Join, Replace;
    ReplaceIsScan([c] + t, "\r", NEWLINE);
    assert ([c] + t)[1..] == t;
    assert ([c] + t)[..1] == [c] && ([c] + t)[0] == c;
    assert "\r" <= [c] + t <==> c == '\r';
  }

  lemma {:induction false} NonBlankKeepsVisible(pieces: seq<string>)
    ensures VisibleOf(NonBlank(pieces)) == VisibleOf(pieces)
  {
    if pieces != [] {
      var p, rest := Strip(pieces[0]), NonBlank(pieces[1..]);
      BlankIsInvisible("");
      StripKeepsVisible(pieces[0]);
      hide Strip, Visible;
      NonBlankKeepsVisible(pieces[1..]);
      assert NonBlank(pieces) == (if p == "" then [] else [p]) + rest;
      hide NonBlank;
      if p == "" {
        assert [] + rest == rest;
      } else {
        assert ([p] + rest)[1..] == rest;
      }
    }
  }

  /** Paragraphs keep everything that shows, in order. */
  lemma ParagraphsKeepVisible(lines: seq<string>)
    ensures VisibleOf(Paragraphs(lines)) == VisibleOf(lines)
  {
    var text := Join(lines, NEWLINE);
    var pieces := Split(text, GAP);
    assert Blank(NEWLINE) && Blank(GAP);
    JoinSplit(text, GAP);
    hide Join, Split, NonBlank, Visible, VisibleOf, Blank;
    NonBlankKeepsVisible(pieces);
    VisibleJoin(pieces, GAP);
    VisibleJoin(lines, NEWLINE);
  }

  /** The texts of the chunks. */
  function Bodies(chunks: seq<Chunk>): (r: seq<string>)
    ensures |r| == |chunks| && forall i | 0 <= i < |r| :: r[i] == chunks[i].body
  {
    seq(|chunks|, i requires 0 <= i < |chunks| => chunks[i].body)
  }

  lemma {:induction false} GroupsKeepVisible(title: string, groups: seq<seq<string>>)
    ensures VisibleOf(Bodies(Chunks(title, groups))) == VisibleOf(Flatten(groups))
  {
    if groups != [] {
      hide Visible, Blank;
      GroupsKeepVisible(title, groups[1..]);
      assert Blank(GAP) by {
        GapIsBlank();
      }
      VisibleJoin(groups[0], GAP);
      VisibleOfConcat(groups[0], Flatten(groups[1..]));
      assert Bodies(Chunks(title, groups))[1..] == Bodies(Chunks(title, groups[1..]));
    }
  }

  lemma GapIsBlank()
    ensures Blank(GAP)
  {
  }

  /** A section's chunks: everything of its lines that shows, in bodies of at most 3000 characters or one paragraph. */
  lemma SectionIsKept(title: string, lines: seq<string>)
    ensures var chunks := Chunks(title, Pack(Paragraphs(lines)));
            && VisibleOf(Bodies(chunks)) == VisibleOf(lines)
            && forall i | 0 <= i < |chunks| :: |chunks[i].body| <= 3000 || chunks[i].body in Paragraphs(lines)
  {
    var paragraphs := Paragraphs(lines);
    var groups := Pack(paragraphs);
    PackIsCut(paragraphs);
    ParagraphsKeepVisible(lines);
    GroupsKeepVisible(title, groups);
    hide Pack, Paragraphs, Visible, VisibleOf;
    forall i | 0 <= i < |groups| ensures |Body(groups[i])| <= 3000 || Body(groups[i]) in paragraphs {
      if |groups[i]| == 1 {
        InFlattened(groups, i);
      }
    }
  }

  lemma {:induction false} InFlattened(groups: seq<seq<string>>, i: nat)
    requires i < |groups| && |groups[i]| == 1
    ensures groups[i][0] in Flatten(groups)
  {
    if i > 0 {
      InFlattened(groups[1..], i - 1);
    }
  }

  lemma MoreKeepsVisible(earlier: seq<Chunk>, chunks: seq<Chunk>, before: seq<string>, lines: seq<string>)
    requires VisibleOf(Bodies(earlier)) == VisibleOf(before) && VisibleOf(Bodies(chunks)) == VisibleOf(lines)
    ensures VisibleOf(Bodies(earlier + chunks)) == VisibleOf(before + lines)
  {
    hide VisibleOf;
    assert Bodies(earlier + chunks) == Bodies(earlier) + Bodies(chunks);
    VisibleOfConcat(Bodies(earlier), Bodies(chunks));
    VisibleOfConcat(before, lines);
  }

  lemma {:induction false} AllChunksKeepVisible(sections: seq<Section>)
    ensures VisibleOf(Bodies(AllChunks(sections))) == VisibleOf(SectionLines(sections))
  {
    hide Visible, VisibleOf, Pack, Paragraphs, Chunks, Bodies;
    if sections != [] {
      var n := |sections| - 1;
      var before, last := sections[..n], sections[n];
      AllChunksKeepVisible(before);
      SectionIsKept(last.title, last.lines);
      MoreKeepsVisible(AllChunks(before), Chunks(last.title, Pack(Paragraphs(last.lines))), SectionLines(before), last.lines);
    } else {
      assert Bodies([]) == [];
    }
  }

  /** Whatever the document: all that shows in its lines, but for the headings, is in the chunks, in order. */
  lemma DocumentIsKept(text: string)
    ensures var lines := Split(OnePass(text), "\n");
            VisibleOf(Bodies(AllChunks(Sections(MarkdownHeadings.Heading, Split(Unified(text), NEWLINE)))))
            == VisibleOf(PlainLines(MarkdownHeadings.Heading, lines))
  {
    var lines := Split(Unified(text), NEWLINE);
    hide Split, Unified, AllChunks, Sections, PlainLines, OnePass, VisibleOf;
    UnifiedIsOnePass(text);
    AllChunksKeepVisible(Sections(MarkdownHeadings.Heading, lines));
    SectionsKeepLines(MarkdownHeadings.Heading, lines);
  }
}
