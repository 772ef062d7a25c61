/**
 * The heading pattern of `split_document`, as a search and as what its backtracking match means.
 * It is applied to lines, which hold no line feed.
 */
module MarkdownHeadings {
  import opened Options
  import opened TextPieces

  predicate AllSpace(s: string, i: nat, j: nat)
    requires i <= j <= |s|
  {
    forall k | i <= k < j :: IsSpace(s[k])
  }

  predicate AllHash(s: string, i: nat, j: nat)
    requires i <= j <= |s|
  {
    forall k | i <= k < j :: s[k] == '#'
  }

  /** From e on: white space, hashes, white space. */
  predicate ClosesAt(s: string, e: nat, x: nat, y: nat) {
    e <= x <= y <= |s| && AllSpace(s, e, x) && AllHash(s, x, y) && AllSpace(s, y, |s|)
  }

  ghost predicate Closes(s: string, e: nat) {
    exists x: nat, y: nat :: ClosesAt(s, e, x, y)
  }

  /** Where the parts of a heading line end: its indentation, its hashes, the white space behind them, its title. */
  datatype Reading = Reading(indent: nat, hashes: nat, gap: nat, title: nat)

  /** One way for the pattern to match a line. */
  ghost predicate IsReading(s: string, r: Reading) {
    && r.indent <= 3 && r.indent < r.hashes <= r.indent + 6 && r.hashes < r.gap < r.title <= |s|
    && AllSpace(s, 0, r.indent) && AllHash(s, r.indent, r.hashes) && AllSpace(s, r.hashes, r.gap) && Closes(s, r.title)
  }

  // ---- the search ------------------------------------------------------------------------------------------

  function SkipSpaces(s: string, i: nat): (j: nat)
    requires i <= |s|
    ensures i <= j <= |s| && AllSpace(s, i, j) && (j < |s| ==> !IsSpace(s[j]))
    decreases |s| - i
  {
    if i < |s| && IsSpace(s[i]) then SkipSpaces(s, i + 1) else i
  }

  function SkipHashes(s: string, i: nat): (j: nat)
    requires i <= |s|
    ensures i <= j <= |s| && AllHash(s, i, j) && (j < |s| ==> s[j] != '#')
    decreases |s| - i
  {
    if i < |s| && s[i] == '#' then SkipHashes(s, i + 1) else i
  }

  /** The closing part needs no backtracking. */
  predicate ClosesGreedily(s: string, e: nat)
    requires e <= |s|
  {
    SkipSpaces(s, SkipHashes(s, SkipSpaces(s, e))) == |s|
  }

  /** The end of the shortest title that ends at e or later. */
  function TitleEnd(s: string, e: nat): (end: nat)
    requires e <= |s|
    ensures e <= end <= |s| && ClosesGreedily(s, end) && forall k | e <= k < end :: !ClosesGreedily(s, k)
    decreases |s| - e
  {
    if e == |s| || ClosesGreedily(s, e) then e else TitleEnd(s, e + 1)
  }

  /**
   * Greedy white space and hashes, then the shortest title of at least one character; when nothing follows the
   * white space, its last character is given back for the title.
   */
  function Found(s: string): Option<Reading> {
    var p := SkipSpaces(s, 0);
    var q := SkipHashes(s, p);
    var r := SkipSpaces(s, q);
    if p > 3 || q == p || q > p + 6 || r == q then None
    else if r < |s| then Some(Reading(p, q, r, TitleEnd(s, r + 1)))
    else if q + 1 < r then Some(Reading(p, q, r - 1, r))
    else None
  }

  /** The title of a heading line: the matched group, stripped. */
  function Heading(s: string): Option<string> {
    match Found(s)
    case None => None
    case Some(r) => if r.gap <= r.title <= |s| then Some(Strip(s[r.gap..r.title])) else None
  }

  // ---- what it finds -----------------------------------------------------------------------------------------

  lemma ClosesIffGreedily(s: string, e: nat)
    requires e <= |s|
    ensures ClosesGreedily(s, e) <==> Closes(s, e)
  {
    var x := SkipSpaces(s, e);
    var y := SkipHashes(s, x);
    if ClosesGreedily(s, e) {
      assert ClosesAt(s, e, x, y);
    }
    if i: nat, j: nat :| ClosesAt(s, e, i, j) {
      GreedyCloses(s, e, i, j);
    }
  }

  lemma GreedyCloses(s: string, e: nat, i: nat, j: nat)
    requires ClosesAt(s, e, i, j)
    ensures ClosesGreedily(s, e)
  {
    assert !IsSpace('#');
    hide IsSpace;
    var x := SkipSpaces(s, e);
    assert x >= i;
    var y := SkipHashes(s, x);
    assert y >= j;
  }

  /** What is found is a reading. */
  lemma FoundIsReading(s: string)
    ensures Found(s).Some? ==> IsReading(s, Found(s).value)
  {
    if Found(s).Some? {
      ClosesIffGreedily(s, Found(s).value.title);
      assert ClosesAt(s, |s|, |s|, |s|);
      hide Closes, ClosesGreedily;
    }
  }

  /**
   * The pattern matches exactly the lines that can be read as headings, and of all readings it finds the first in
   * the order of its backtracking: the most indentation, hashes and white space behind them, then the shortest title.
   */
  lemma FoundIsFirst(s: string, r: Reading)
    requires IsReading(s, r)
    ensures Found(s).Some?
    ensures var f := Found(s).value;
            f.indent == r.indent && f.hashes == r.hashes && f.gap >= r.gap && (f.gap == r.gap ==> f.title <= r.title)
  {
    assert !IsSpace('#');
    hide IsSpace, Closes;
    assert s[r.indent] == '#' && IsSpace(s[r.hashes]);
    assert SkipSpaces(s, 0) == r.indent;
    assert SkipHashes(s, r.indent) == r.hashes;
    assert SkipSpaces(s, r.hashes) >= r.gap;
    ClosesIffGreedily(s, r.title);
  }

  /** A line is a heading exactly when the pattern can match it. */
  lemma HeadingIff(s: string)
    ensures Heading(s).Some? <==> exists r :: IsReading(s, r)
  {
    hide Found, IsReading, Strip;
    FoundBounds(s);
    FoundIsReading(s);
    assert Heading(s).Some? <==> Found(s).Some?;
    hide Heading;
    if r :| IsReading(s, r) {
      FoundIsFirst(s, r);
    }
  }

  lemma FoundBounds(s: string)
    ensures Found(s).Some? ==> Found(s).value.gap < Found(s).value.title <= |s|
  {
  }

  /** Its title is the stripped title of the first reading: the least indented text behind the hashes, and the shortest. */
  lemma HeadingTitle(s: string) returns (r: Reading)
    requires exists q :: IsReading(s, q)
    ensures IsReading(s, r) && Heading(s) == Some(Strip(s[r.gap..r.title]))
    ensures forall q | IsReading(s, q) :: q.gap <= r.gap && (q.gap == r.gap ==> r.title <= q.title)
  {
    hide Found, IsReading;
    var q :| IsReading(s, q);
    FoundIsFirst(s, q);
    FoundBounds(s);
    FoundIsReading(s);
    r := Found(s).value;
    forall q | IsReading(s, q) ensures q.gap <= r.gap && (q.gap == r.gap ==> r.title <= q.title) {
      FoundIsFirst(s, q);
    }
  }
}
