/**
  Heading-based sections of a document body, with their numbers.
 */
module Sections {
  import opened Options
  import opened Texts

  /** A section number is kept as its counters: `[3, 2]` is rendered `3.2`. */
  datatype Section = Section(heading: string, level: nat, number: seq<nat>, body: string)

  datatype Boundary = Boundary(start: nat, level: nat, heading: string)

  predicate IsNewline(c: char)
  {
    c == '\n'
  }

  predicate IsLineEnd(c: char)
  {
    c == '\r' || c == '\n'
  }

  predicate IsHash(c: char)
  {
    c == '#'
  }

  // ---------------------------------------------------------------------------
  // Heading lines
  // ---------------------------------------------------------------------------

  ghost predicate StartsWithHashes(line: string, level: nat)
  {
    level <= |line| && forall i :: 0 <= i < level ==> line[i] == '#'
  }

  /** How many `#` a line starts with. */
  function HashCount(line: string): (level: nat)
    ensures StartsWithHashes(line, level) && (level == |line| || line[level] != '#')
  {
    StrippedHashes(line);
    |line| - |StripLeft(IsHash, line)|
  }

  lemma StrippedHashes(line: string)
    ensures var level := |line| - |StripLeft(IsHash, line)|;
            StartsWithHashes(line, level) && (level == |line| || line[level] != '#')
  {
    hide StripLeft;
    StrippedFront(IsHash, line, |line| - |StripLeft(IsHash, line)|);
  }

  /** Level and text of the heading on a physical line, if it is a heading of level 2 or 3. */
  function HeadingOf(rawLine: string): Option<(nat, string)>
  {
    var line := StripRight(IsLineEnd, rawLine);
    var level := HashCount(line);
    if (level == 2 || level == 3) && |line| > level && IsSpace(line[level]) && Trim(line[level..]) != ""
    then Some((level, Trim(line[level..])))
    else None
  }

  /** Two or three `#`, then white space, then something that is not white space. */
  ghost predicate HasForm(rawLine: string, level: nat)
  {
    && 2 <= level <= 3 && StartsWithHashes(rawLine, level) && level < |rawLine| && IsSpace(rawLine[level])
    && !IsBlank(rawLine[level..])
  }

  /** A heading line has that form, with its level as the number of `#` and what follows, trimmed, as its text. */
  lemma HeadingHasForm(rawLine: string) returns (i: nat, j: nat)
    requires HeadingOf(rawLine).Some?
    ensures var (level, heading) := HeadingOf(rawLine).value;
            HasForm(rawLine, level) && heading != "" && StrippedTo(IsSpace, rawLine[level..], i, j, heading)
  {
    hide HashCount, Trim, StripRight;
    var line := StripRight(IsLineEnd, rawLine);
    var level := HashCount(line);
    TrimEmpty(line[level..]);
    BlankWithEnd(line, rawLine, level);
    assert StartsWithHashes(rawLine, level);
    i, j := TrimIs(line[level..]);
    StrippedEnd(IsLineEnd, rawLine);
    StrippedLine(rawLine, line, level, i, j);
  }

  lemma StrippedLine(rawLine: string, line: string, level: nat, i: nat, j: nat)
    requires line <= rawLine && level <= |line| && StrippedTo(IsSpace, line[level..], i, j, Trim(line[level..]))
    requires forall k :: |line| <= k < |rawLine| ==> IsLineEnd(rawLine[k])
    ensures StrippedTo(IsSpace, rawLine[level..], i, j, Trim(line[level..]))
  {
    hide Trim, IsSpace;
    LineEndsAreSpace();
    var rest := rawLine[level..];
    forall k | j <= k < |rest|
      ensures IsSpace(rest[k])
    {
      assert rest[k] == rawLine[level + k];
      assert k < |line| - level ==> rest[k] == line[level..][k];
    }
    assert forall k :: 0 <= k < |line| - level ==> rest[k] == line[level..][k];
  }

  /** A line of that form is a heading of that level. */
  lemma FormIsHeading(rawLine: string, level: nat)
    requires HasForm(rawLine, level)
    ensures HeadingOf(rawLine).Some? && HeadingOf(rawLine).value.0 == level
  {
    hide HashCount, Trim, StripRight, IsSpace;
    var line := StripRight(IsLineEnd, rawLine);
    StrippedEnd(IsLineEnd, rawLine);
    LineEndsAreSpace();
    var i :| 0 <= i < |rawLine| - level && !IsSpace(rawLine[level..][i]);
    assert !IsLineEnd(rawLine[level + i]);
    assert level + i < |line|;
    assert line[level] == rawLine[level];
    assert HashCount(line) == level;
    TrimEmpty(line[level..]);
    assert !IsSpace(line[level..][i]);
  }

  lemma LineEndsAreSpace()
    ensures forall c :: IsLineEnd(c) ==> IsSpace(c)
    ensures !IsSpace('#')
  {
  }

  lemma BlankWithEnd(line: string, rawLine: string, level: nat)
    requires line <= rawLine && level <= |line|
    ensures IsBlank(rawLine[level..]) ==> IsBlank(line[level..])
  {
    assert forall i :: 0 <= i < |line| - level ==> line[level..][i] == rawLine[level..][i];
  }

  /** Line `k` is a heading and `b` says where it starts and what it is. */
  ghost predicate HeadingAt(lines: seq<string>, k: nat, b: Boundary)
  {
    k < |lines| && HeadingOf(lines[k]) == Some((b.level, b.heading)) && b.start == |Concat(lines[..k])|
  }

  ghost predicate StartsIn(lines: seq<string>, n: nat, b: Boundary)
  {
    exists k: nat :: k < n && HeadingAt(lines, k, b)
  }

  lemma StartsMore(lines: seq<string>, n: nat, b: Boundary)
    ensures StartsIn(lines, n + 1, b) <==> StartsIn(lines, n, b) || HeadingAt(lines, n, b)
  {
    if StartsIn(lines, n + 1, b) {
      var k: nat :| k < n + 1 && HeadingAt(lines, k, b);
    }
  }

  /** Boundaries are in order, inside the body, and each at a `#`. */
  ghost predicate WellPlaced(body: string, matches: seq<Boundary>)
  {
    && (forall i :: 0 <= i < |matches| ==>
         matches[i].start < |body| && body[matches[i].start] == '#' && 2 <= matches[i].level <= 3)
    && (forall i, j :: 0 <= i < j < |matches| ==> matches[i].start < matches[j].start)
  }

  lemma HeadingPlaced(body: string, lines: seq<string>, k: nat, b: Boundary)
    requires Concat(lines) == body && HeadingAt(lines, k, b)
    ensures b.start < |body| && body[b.start] == '#' && 2 <= b.level <= 3
    ensures b.start < |Concat(lines[..k + 1])|
  {
    hide Concat, HeadingOf;
    ConcatTo(lines, k);
    var _, _ := HeadingHasForm(lines[k]);
    assert body[..b.start] == Concat(lines[..k]);
    assert Concat(lines[..k + 1])[b.start] == lines[k][0] == '#';
  }

  /** The boundaries are exactly the heading lines, each at the offset of its line. */
  method FindHeadingBoundaries(body: string) returns (boundaries: seq<Boundary>)
    ensures forall b :: b in boundaries <==> StartsIn(SplitLines(body), |SplitLines(body)|, b)
    ensures WellPlaced(body, boundaries)
  {
    hide Concat, HeadingOf, StartsIn, WellPlaced, SplitLines;
    var lines := SplitLines(body);
    SplitLinesConcat(body);
    boundaries := [];
    var offset := 0;
    ConcatNone(lines);
    NoneStarted(body, lines);
    for k := 0 to |lines|
      invariant offset == |Concat(lines[..k])|
      invariant forall b :: b in boundaries <==> StartsIn(lines, k, b)
      invariant WellPlaced(body, boundaries)
      invariant forall b :: b in boundaries ==> b.start < offset
    {
      var rawLine := lines[k];
      ConcatTo(lines, k);
      forall b: Boundary
        ensures StartsIn(lines, k + 1, b) <==> StartsIn(lines, k, b) || HeadingAt(lines, k, b)
      {
        StartsMore(lines, k, b);
      }
      var heading := HeadingOf(rawLine);
      if heading.Some? {
        var b := Boundary(offset, heading.value.0, heading.value.1);
        assert HeadingAt(lines, k, b);
        HeadingPlaced(body, lines, k, b);
        PlacedMore(body, boundaries, b);
        boundaries := boundaries + [b];
      }
      offset := offset + |rawLine|;
    }
  }

  lemma NoneStarted(body: string, lines: seq<string>)
    ensures WellPlaced(body, []) && forall b :: !StartsIn(lines, 0, b)
  {
  }

  lemma PlacedMore(body: string, matches: seq<Boundary>, b: Boundary)
    requires WellPlaced(body, matches) && forall m :: m in matches ==> m.start < b.start
    requires b.start < |body| && body[b.start] == '#' && 2 <= b.level <= 3
    ensures WellPlaced(body, matches + [b])
  {
  }

  // ---------------------------------------------------------------------------
  // Section numbers
  // ---------------------------------------------------------------------------

  function Ones(n: nat): seq<nat>
  {
    seq(n, _ => 1)
  }

  /** The counters after a heading `idx` levels below the top. */
  function NextNumber(counters: seq<nat>, idx: nat): (next: seq<nat>)
    ensures |next| == idx + 1
  {
    if idx < |counters| then counters[..idx] + [counters[idx] + 1]
    else counters + Ones(idx + 1 - |counters|)
  }

  function NumberOf(matches: seq<Boundary>, i: nat): (number: seq<nat>)
    requires i < |matches| && forall k :: 0 <= k < |matches| ==> matches[k].level >= 2
    ensures |number| == matches[i].level - 1
  {
    NextNumber(if i == 0 then [] else NumberOf(matches, i - 1), matches[i].level - 2)
  }

  /** Strict lexicographic order; a proper prefix comes first. */
  predicate Precedes(a: seq<nat>, b: seq<nat>)
  {
    b != [] && (a == [] || a[0] < b[0] || (a[0] == b[0] && Precedes(a[1..], b[1..])))
  }

  lemma {:induction false} PrecedesTransitive(a: seq<nat>, b: seq<nat>, c: seq<nat>)
    requires Precedes(a, b) && Precedes(b, c)
    ensures Precedes(a, c)
  {
    if a != [] && a[0] == b[0] && b[0] == c[0] {
      PrecedesTransitive(a[1..], b[1..], c[1..]);
    }
  }

  lemma {:induction false} PrecedesNext(counters: seq<nat>, idx: nat)
    ensures Precedes(counters, NextNumber(counters, idx))
  {
    var next := NextNumber(counters, idx);
    if counters != [] && idx > 0 {
      PrecedesNext(counters[1..], idx - 1);
      assert next[1..] == NextNumber(counters[1..], idx - 1);
    }
  }

  /** Later headings have larger numbers, so no two headings share one. */
  lemma {:induction false} NumbersIncrease(matches: seq<Boundary>, i: nat, j: nat)
    requires i < j < |matches| && forall k :: 0 <= k < |matches| ==> matches[k].level >= 2
    ensures Precedes(NumberOf(matches, i), NumberOf(matches, j))
    decreases j
  {
    PrecedesNext(NumberOf(matches, j - 1), matches[j].level - 2);
    if i < j - 1 {
      NumbersIncrease(matches, i, j - 1);
      PrecedesTransitive(NumberOf(matches, i), NumberOf(matches, j - 1), NumberOf(matches, j));
    }
  }

  lemma {:induction false} NumberPositive(matches: seq<Boundary>, i: nat)
    requires i < |matches| && forall k :: 0 <= k < |matches| ==> matches[k].level >= 2
    ensures forall k :: 0 <= k < |NumberOf(matches, i)| ==> NumberOf(matches, i)[k] > 0
  {
    if i > 0 {
      NumberPositive(matches, i - 1);
    }
  }

  lemma NextBelow(section: seq<nat>, n: nat)
    requires |section| == 1
    ensures NextNumber(section, 1) == section + [1] && NextNumber(section + [n], 1) == section + [n + 1]
  {
    assert (section + [n])[..1] == section;
  }

  lemma NumberAfter(matches: seq<Boundary>, j: nat)
    requires 0 < j < |matches| && forall k :: 0 <= k < |matches| ==> matches[k].level >= 2
    ensures NumberOf(matches, j) == NextNumber(NumberOf(matches, j - 1), matches[j].level - 2)
  {
  }

  /** A subsection carries the number of the section it is in. */
  lemma {:induction false} SubsectionNumber(matches: seq<Boundary>, i: nat, j: nat)
    requires i < j < |matches| && forall k :: 0 <= k < |matches| ==> 2 <= matches[k].level <= 3
    requires matches[i].level == 2 && forall k :: i < k <= j ==> matches[k].level == 3
    ensures NumberOf(matches, j) == NumberOf(matches, i) + [j - i]
    decreases j
  {
    hide NumberOf, NextNumber;
    var section := NumberOf(matches, i);
    NumberAfter(matches, j);
    NextBelow(section, j - 1 - i);
    if i < j - 1 {
      SubsectionNumber(matches, i, j - 1);
    }
  }

  /** How many of the headings up to `i` open a section; a leading subsection opens one too. */
  ghost function Opened(matches: seq<Boundary>, i: nat): nat
    requires i < |matches|
  {
    (if i == 0 then 0 else Opened(matches, i - 1)) + if i == 0 || matches[i].level == 2 then 1 else 0
  }

  lemma NextCounts(counters: seq<nat>, idx: nat)
    ensures NextNumber(counters, idx)[0]
         == if counters == [] then 1 else if idx == 0 then counters[0] + 1 else counters[0]
  {
  }

  lemma FirstNumber(matches: seq<Boundary>)
    requires matches != [] && forall k :: 0 <= k < |matches| ==> matches[k].level >= 2
    ensures NumberOf(matches, 0) == NextNumber([], matches[0].level - 2)
  {
  }

  /** The first counter of a number counts the sections opened so far. */
  lemma {:induction false} NumberCountsSections(matches: seq<Boundary>, i: nat)
    requires i < |matches| && forall k :: 0 <= k < |matches| ==> 2 <= matches[k].level <= 3
    ensures NumberOf(matches, i)[0] == Opened(matches, i)
  {
    hide NextNumber, NumberOf;
    if i == 0 {
      FirstNumber(matches);
      NextCounts([], matches[0].level - 2);
    } else {
      NumberCountsSections(matches, i - 1);
      NumberAfter(matches, i);
      NextCounts(NumberOf(matches, i - 1), matches[i].level - 2);
    }
  }

  /** Subsections before any section are numbered as if they were in the first. */
  lemma {:induction false} LeadingSubsection(matches: seq<Boundary>, i: nat)
    requires i < |matches| && forall k :: 0 <= k < |matches| ==> 2 <= matches[k].level <= 3
    requires forall k :: 0 <= k <= i ==> matches[k].level == 3
    ensures NumberOf(matches, i) == [1, i + 1]
  {
    if i > 0 {
      LeadingSubsection(matches, i - 1);
      NumberAfter(matches, i);
      assert [1, i] == [1] + [i];
    }
  }

  // ---------------------------------------------------------------------------
  // Sections
  // ---------------------------------------------------------------------------

  function End(body: string, matches: seq<Boundary>, i: nat): nat
    requires i < |matches|
  {
    if i + 1 < |matches| then matches[i + 1].start else |body|
  }

  function SectionOf(body: string, matches: seq<Boundary>, i: nat): Section
    requires i < |matches| && WellPlaced(body, matches)
  {
    Section(matches[i].heading, matches[i].level, NumberOf(matches, i),
      Trim(body[matches[i].start..End(body, matches, i)]))
  }

  function Intro(body: string, matches: seq<Boundary>): seq<Section>
    requires matches != [] && WellPlaced(body, matches)
  {
    var intro := Trim(body[..matches[0].start]);
    if intro == "" then [] else [Section("(intro)", 0, [0], intro)]
  }

  /** The sections of the first `n` headings, after the intro. */
  function SectionsTo(body: string, matches: seq<Boundary>, n: nat): (r: seq<Section>)
    requires n <= |matches| && matches != [] && WellPlaced(body, matches)
    ensures |r| == |Intro(body, matches)| + n
  {
    if n == 0 then Intro(body, matches) else SectionsTo(body, matches, n - 1) + [SectionOf(body, matches, n - 1)]
  }

  /** A section begins with its heading line, so none is dropped as empty. */
  lemma SectionNotEmpty(body: string, matches: seq<Boundary>, i: nat)
    requires i < |matches| && WellPlaced(body, matches)
    ensures SectionOf(body, matches, i).body != ""
  {
    hide Trim, NumberOf, IsSpace;
    var part := body[matches[i].start..End(body, matches, i)];
    TrimEmpty(part);
    LineEndsAreSpace();
    assert !IsSpace(part[0]);
  }

  /** Counts one level up and drops the deeper counters, or opens the missing levels one by one. */
  method AdvanceCounters(counters: seq<nat>, idx: nat) returns (next: seq<nat>)
    ensures next == NextNumber(counters, idx)
  {
    if idx < |counters| {
      return counters[..idx] + [counters[idx] + 1];
    }
    next := counters;
    while |next| <= idx
      invariant |counters| <= |next| <= idx + 1 && next == counters + Ones(|next| - |counters|)
    {
      next := next + [1];
    }
  }

  method SectionsFromMatches(body: string, matches: seq<Boundary>) returns (sections: seq<Section>)
    requires matches != [] && WellPlaced(body, matches)
    ensures sections == SectionsTo(body, matches, |matches|)
  {
    hide Trim, NumberOf, NextNumber, SectionsTo, Before, Precedes;
    NoSectionsYet(body, matches);
    NoneBefore(matches);
    var intro := Trim(body[..matches[0].start]);
    sections := if intro != "" then [Section("(intro)", 0, [0], intro)] else [];
    var counters: seq<nat> := [];
    for i := 0 to |matches|
      invariant sections == SectionsTo(body, matches, i)
      invariant counters == Before(matches, i)
    {
      var level, heading := matches[i].level, matches[i].heading;
      counters := AdvanceCounters(counters, level - 2);
      Advanced(matches, i);
      var end := if i + 1 < |matches| then matches[i + 1].start else |body|;
      var sectionBody := Trim(body[matches[i].start..end]);
      SectionNotEmpty(body, matches, i);
      SectionsMore(body, matches, i);
      if sectionBody != "" {
        sections := sections + [Section(heading, level, counters, sectionBody)];
      }
    }
  }

  lemma NoSectionsYet(body: string, matches: seq<Boundary>)
    requires matches != [] && WellPlaced(body, matches)
    ensures SectionsTo(body, matches, 0) == Intro(body, matches)
  {
  }

  lemma NoneBefore(matches: seq<Boundary>)
    requires forall k :: 0 <= k < |matches| ==> matches[k].level >= 2
    ensures Before(matches, 0) == []
  {
  }

  lemma SectionsMore(body: string, matches: seq<Boundary>, i: nat)
    requires i < |matches| && WellPlaced(body, matches)
    ensures SectionsTo(body, matches, i + 1) == SectionsTo(body, matches, i) + [SectionOf(body, matches, i)]
  {
  }

  /** The counters before heading `i`. */
  function Before(matches: seq<Boundary>, i: nat): seq<nat>
    requires i <= |matches| && forall k :: 0 <= k < |matches| ==> matches[k].level >= 2
  {
    if i == 0 then [] else NumberOf(matches, i - 1)
  }

  lemma Advanced(matches: seq<Boundary>, i: nat)
    requires i < |matches| && forall k :: 0 <= k < |matches| ==> matches[k].level >= 2
    ensures NextNumber(Before(matches, i), matches[i].level - 2) == NumberOf(matches, i) == Before(matches, i + 1)
  {
  }

  function Bodies(sections: seq<Section>): (r: seq<string>)
    ensures |r| == |sections|
  {
    seq(|sections|, i requires 0 <= i < |sections| => sections[i].body)
  }

  lemma BodiesSnoc(sections: seq<Section>, s: Section)
    ensures Concat(Bodies(sections + [s])) == Concat(Bodies(sections)) + s.body
  {
    assert Bodies(sections + [s]) == Bodies(sections) + [s.body];
    ConcatSnoc(Bodies(sections), s.body);
  }

  /** Up to where the first `n` headings' sections reach, nothing but white space is lost. */
  lemma {:induction false} SectionsKeepInk(body: string, matches: seq<Boundary>, n: nat)
    requires n <= |matches| && matches != [] && WellPlaced(body, matches)
    ensures Ink(Concat(Bodies(SectionsTo(body, matches, n))))
            == Ink(body[..if n == 0 then matches[0].start else End(body, matches, n - 1)])
  {
    hide Concat, Trim, Ink, Bodies, NumberOf, Intro;
    if n == 0 {
      IntroKeepsInk(body, matches);
    } else {
      SectionsKeepInk(body, matches, n - 1);
      var start, end := matches[n - 1].start, End(body, matches, n - 1);
      BodiesSnoc(SectionsTo(body, matches, n - 1), SectionOf(body, matches, n - 1));
      InkTrim(body[start..end]);
      InkAppend(Concat(Bodies(SectionsTo(body, matches, n - 1))), Trim(body[start..end]));
      InkAppend(body[..start], body[start..end]);
      assert body[..start] + body[start..end] == body[..end];
    }
  }

  lemma IntroKeepsInk(body: string, matches: seq<Boundary>)
    requires matches != [] && WellPlaced(body, matches)
    ensures Ink(Concat(Bodies(Intro(body, matches)))) == Ink(body[..matches[0].start])
  {
    hide Trim, Ink;
    var before := body[..matches[0].start];
    InkTrim(before);
    if Trim(before) != "" {
      assert Bodies(Intro(body, matches)) == [Trim(before)];
      ConcatOne(Trim(before));
    } else {
      assert Concat(Bodies(Intro(body, matches))) == Trim(before);
    }
  }

  lemma InkTrim(s: string)
    ensures Ink(Trim(s)) == Ink(s)
  {
    InkStrip(IsSpace, s);
  }

  ghost predicate Numbered(sections: seq<Section>)
  {
    forall i, j :: 0 <= i < j < |sections| ==> Precedes(sections[i].number, sections[j].number)
  }

  ghost predicate NoneBlank(texts: seq<string>)
  {
    forall t :: t in texts ==> !IsBlank(t)
  }

  lemma NumberedSnoc(sections: seq<Section>, s: Section)
    requires Numbered(sections) && (sections != [] ==> Precedes(sections[|sections| - 1].number, s.number))
    ensures Numbered(sections + [s])
  {
    hide Precedes;
    forall i | 0 <= i < |sections|
      ensures Precedes(sections[i].number, s.number)
    {
      if i < |sections| - 1 {
        PrecedesTransitive(sections[i].number, sections[|sections| - 1].number, s.number);
      }
    }
  }

  lemma IntroFirst(matches: seq<Boundary>)
    requires matches != [] && forall k :: 0 <= k < |matches| ==> matches[k].level >= 2
    ensures Precedes([0], NumberOf(matches, 0))
  {
    NumberPositive(matches, 0);
  }

  lemma {:induction false} SectionsNumbered(body: string, matches: seq<Boundary>, n: nat)
    requires n <= |matches| && matches != [] && WellPlaced(body, matches)
    ensures Numbered(SectionsTo(body, matches, n))
    ensures n > 0 ==> var s := SectionsTo(body, matches, n); s[|s| - 1].number == NumberOf(matches, n - 1)
  {
    hide Trim, Precedes, NumberOf, Numbered;
    if n == 0 {
      NumberedOne(Intro(body, matches));
    } else {
      SectionsNumbered(body, matches, n - 1);
      if n > 1 {
        NumbersIncrease(matches, n - 2, n - 1);
      } else {
        IntroFirst(matches);
      }
      NumberedSnoc(SectionsTo(body, matches, n - 1), SectionOf(body, matches, n - 1));
    }
  }

  lemma NumberedOne(sections: seq<Section>)
    requires |sections| <= 1
    ensures Numbered(sections)
  {
  }

  lemma {:induction false} SectionsNoneBlank(body: string, matches: seq<Boundary>, n: nat)
    requires n <= |matches| && matches != [] && WellPlaced(body, matches)
    ensures NoneBlank(Bodies(SectionsTo(body, matches, n)))
  {
    hide Trim, NumberOf;
    if n == 0 {
      TrimmedNotBlank(body[..matches[0].start]);
    } else {
      SectionsNoneBlank(body, matches, n - 1);
      var s := SectionsTo(body, matches, n - 1);
      SectionNotEmpty(body, matches, n - 1);
      TrimmedNotBlank(body[matches[n - 1].start..End(body, matches, n - 1)]);
      assert Bodies(SectionsTo(body, matches, n)) == Bodies(s) + [SectionOf(body, matches, n - 1).body];
    }
  }

  lemma TrimmedNotBlank(s: string)
    ensures Trim(s) != "" ==> !IsBlank(Trim(s))
  {
    TrimEmpty(s);
    InkTrim(s);
  }

  function Body(text: string): string
  {
    Strip(IsNewline, text)
  }

  /** `b` starts a heading line of the body. */
  ghost predicate IsHeading(body: string, b: Boundary)
  {
    StartsIn(SplitLines(body), |SplitLines(body)|, b)
  }

  function Whole(body: string): seq<Section>
  {
    if Trim(body) == "" then [] else [Section("(document)", 0, [0], Trim(body))]
  }

  /**
    The sections of a document: one for every heading line, in order, after the intro;
    together they hold every character that is not white space, in order; none is blank;
    and their numbers increase.
   */
  method SplitIntoSections(text: string) returns (sections: seq<Section>, ghost headings: seq<Boundary>)
    ensures WellPlaced(Body(text), headings) && forall b :: b in headings <==> IsHeading(Body(text), b)
    ensures sections == if headings == [] then Whole(Body(text)) else SectionsTo(Body(text), headings, |headings|)
    ensures Ink(Concat(Bodies(sections))) == Ink(text)
    ensures NoneBlank(Bodies(sections)) && Numbered(sections)
  {
    hide Trim, Concat, Ink, Strip, WellPlaced, Numbered, NoneBlank, SectionsTo, StartsIn, SplitLines;
    var body := Strip(IsNewline, text);
    InkStrip(IsNewline, text);
    OneSection(body);
    if body == "" {
      NoneInEmpty();
      return [], [];
    }
    var matches := FindHeadingBoundaries(body);
    headings := matches;
    if matches == [] {
      var stripped := Trim(body);
      InkTrim(body);
      if stripped != "" {
        return [Section("(document)", 0, [0], stripped)], [];
      }
      return [], [];
    }
    sections := SectionsFromMatches(body, matches);
    SectionsKeepInk(body, matches, |matches|);
    assert body[..|body|] == body;
    SectionsNumbered(body, matches, |matches|);
    SectionsNoneBlank(body, matches, |matches|);
  }

  lemma NoneInEmpty()
    ensures WellPlaced("", []) && forall b :: !IsHeading("", b)
    ensures Trim("") == "" && Ink("") == ""
  {
  }

  lemma OneSection(body: string)
    ensures var s := Whole(body);
            Ink(Concat(Bodies(s))) == Ink(body) && Numbered(s) && NoneBlank(Bodies(s))
  {
    hide Trim, Ink;
    InkTrim(body);
    if Trim(body) == "" {
      assert Concat(Bodies(Whole(body))) == Trim(body);
    } else {
      assert Bodies(Whole(body)) == [Trim(body)];
      ConcatOne(Trim(body));
      TrimmedNotBlank(body);
    }
  }
}
