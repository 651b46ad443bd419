/**
  Physical-line spans of gate-owned text, and the extraction of evidence that an evaluator
  refers to by span labels.
 */
module SourceSpans {
  import opened Options
  import opened Texts

  const MAX_EVIDENCE_CHARS := 2000

  datatype SourceSpan = SourceSpan(spanId: string, start: nat, end: nat)

  datatype SourceSpanMap = SourceSpanMap(sourceId: string, text: string, spans: seq<SourceSpan>)

  datatype Reference = Reference(sourceId: string, startId: string, endId: string)

  datatype Extracted = Extracted(sourceId: string, start: nat, end: nat, text: string)

  datatype Extraction = Evidence(slices: seq<Extracted>) | BadLimit | ContractError(detail: string)

  // ---------------------------------------------------------------------------
  // Lines
  // ---------------------------------------------------------------------------

  function Lines(text: string): (lines: seq<string>)
    ensures lines != []
  {
    if text == "" then [text] else SplitLines(text)
  }

  lemma LinesConcat(text: string)
    ensures Concat(Lines(text)) == text
  {
    SplitLinesConcat(text);
    assert text == "" ==> Lines(text)[..0] == [];
  }

  // ---------------------------------------------------------------------------
  // Labels
  // ---------------------------------------------------------------------------

  function Zeros(n: nat): string
  {
    if n == 0 then "" else "0" + Zeros(n - 1)
  }

  /** The format `s{index:06d}`. */
  function SpanId(index: nat): string
  {
    var d := Decimal(index);
    "s" + (if |d| < 6 then Zeros(6 - |d|) else "") + d
  }

  /** The number a digit string denotes. */
  function Value(s: string): int
  {
    if s == "" then 0 else Value(s[..|s| - 1]) * 10 + (s[|s| - 1] as int - '0' as int)
  }

  lemma {:induction false} ValueOfDecimal(n: nat)
    ensures Value(Decimal(n)) == n
  {
    var d := Decimal(n);
    if n < 10 {
      assert d[..0] == "";
    } else {
      ValueOfDecimal(n / 10);
      assert d[..|d| - 1] == Decimal(n / 10);
    }
  }

  lemma {:induction false} ValuePadded(k: nat, s: string)
    ensures Value(Zeros(k) + s) == Value(s)
    decreases |s|, k
  {
    if s == "" {
      assert Zeros(k) + s == Zeros(k);
      if k > 0 {
        ValuePadded(k - 1, "");
        assert Zeros(k - 1) + "" == Zeros(k - 1);
        ZerosSnoc(k - 1);
        assert Zeros(k)[..|Zeros(k)| - 1] == Zeros(k - 1);
      }
    } else {
      assert (Zeros(k) + s)[..|Zeros(k) + s| - 1] == Zeros(k) + s[..|s| - 1];
      ValuePadded(k, s[..|s| - 1]);
    }
  }

  lemma {:induction false} ZerosSnoc(k: nat)
    ensures Zeros(k + 1) == Zeros(k) + "0"
  {
    if k > 0 {
      ZerosSnoc(k - 1);
    }
  }

  /** Padding or not, different line numbers have different labels. */
  lemma SpanIdsDistinct(i: nat, j: nat)
    ensures SpanId(i) == SpanId(j) ==> i == j
  {
    SpanIdValue(i);
    SpanIdValue(j);
  }

  lemma SpanIdValue(i: nat)
    ensures Value(SpanId(i)[1..]) == i
  {
    var d := Decimal(i);
    var pad := if |d| < 6 then 6 - |d| else 0;
    assert SpanId(i)[1..] == Zeros(pad) + d;
    ValuePadded(pad, d);
    ValueOfDecimal(i);
  }

  ghost function PowerOfTen(k: nat): nat
  {
    if k == 0 then 1 else 10 * PowerOfTen(k - 1)
  }

  ghost predicate IsDigits(s: string)
  {
    forall i :: 0 <= i < |s| ==> '0' <= s[i] <= '9'
  }

  /** Decimal digits without a leading zero, as many as the number needs. */
  lemma {:induction false} DecimalShape(n: nat)
    ensures IsDigits(Decimal(n)) && (n > 0 ==> Decimal(n)[0] != '0')
  {
    if n >= 10 {
      DecimalShape(n / 10);
    }
  }

  lemma {:induction false} DecimalLength(n: nat, k: nat)
    ensures |Decimal(n)| <= k + 1 <==> n < PowerOfTen(k + 1)
  {
    if k == 0 {
      assert PowerOfTen(1) == 10 * PowerOfTen(0);
    } else if n >= 10 {
      DecimalLength(n / 10, k - 1);
    } else {
      SomePower(k);
    }
  }

  lemma {:induction false} SomePower(k: nat)
    ensures PowerOfTen(k + 1) >= 10
  {
    if k > 0 {
      SomePower(k - 1);
    }
  }

  lemma {:induction false} ZerosShape(k: nat)
    ensures |Zeros(k)| == k && forall i :: 0 <= i < k ==> Zeros(k)[i] == '0'
  {
    if k > 0 {
      ZerosShape(k - 1);
    }
  }

  /** An `s` and the number in decimal digits: six of them, or as many as it needs beyond that. */
  lemma SpanIdShape(index: nat)
    ensures var id := SpanId(index);
            && id[0] == 's' && IsDigits(id[1..]) && Value(id[1..]) == index
            && if index < 1000000 then |id| == 7 else |id| > 7 && id[1] != '0'
  {
    hide Decimal, Zeros, Value;
    var d := Decimal(index);
    SpanIdValue(index);
    DecimalShape(index);
    DecimalLength(index, 5);
    Million();
    if |d| < 6 {
      ZerosShape(6 - |d|);
    }
  }

  lemma Million()
    ensures PowerOfTen(6) == 1000000
  {
    assert PowerOfTen(1) == 10 * PowerOfTen(0) && PowerOfTen(2) == 10 * PowerOfTen(1);
    assert PowerOfTen(3) == 10 * PowerOfTen(2) && PowerOfTen(4) == 10 * PowerOfTen(3);
    assert PowerOfTen(5) == 10 * PowerOfTen(4) && PowerOfTen(6) == 10 * PowerOfTen(5);
  }

  // ---------------------------------------------------------------------------
  // Building the map
  // ---------------------------------------------------------------------------

  /** The spans tile the text line by line, labelled by line number. */
  ghost predicate Tiles(m: SourceSpanMap)
  {
    && m.spans != [] && m.spans[0].start == 0 && m.spans[|m.spans| - 1].end == |m.text|
    && (forall k :: 0 <= k < |m.spans| ==>
         m.spans[k].start <= m.spans[k].end <= |m.text| && m.spans[k].spanId == SpanId(k))
    && (forall k, l :: 0 <= k && l == k + 1 && l < |m.spans| ==> m.spans[k].end == m.spans[l].start)
  }

  /** The map of a text: line `k` spans from the end of the lines before it to its own end. */
  function SpanMap(sourceId: string, text: string): SourceSpanMap
  {
    var lines := Lines(text);
    SourceSpanMap(sourceId, text, seq(|lines|, k requires 0 <= k < |lines| => SpanAt(lines, k)))
  }

  function SpanAt(lines: seq<string>, k: nat): SourceSpan
    requires k < |lines|
  {
    SourceSpan(SpanId(k), |Concat(lines[..k])|, |Concat(lines[..k + 1])|)
  }

  lemma SpanFits(text: string, k: nat)
    requires k < |Lines(text)|
    ensures var s := SpanAt(Lines(text), k);
            && s.start <= s.end <= |text| && text[s.start..s.end] == Lines(text)[k]
            && (k == 0 ==> s.start == 0) && (k + 1 == |Lines(text)| ==> s.end == |text|)
            && (k > 0 ==> s.start == SpanAt(Lines(text), k - 1).end)
  {
    var lines := Lines(text);
    hide Concat, Lines, SpanId;
    LinesConcat(text);
    ConcatTo(lines, k);
    ConcatNone(lines);
    var before, upTo := Concat(lines[..k]), Concat(lines[..k + 1]);
    assert text[..|upTo|] == upTo == before + lines[k];
    assert text[|before|..|upTo|] == text[..|upTo|][|before|..];
    assert k + 1 == |lines| ==> lines[..k + 1] == lines;
  }

  /** The spans of a text tile it line by line. */
  lemma SpanMapTiles(sourceId: string, text: string)
    ensures var m := SpanMap(sourceId, text);
            Tiles(m) && forall k :: 0 <= k < |m.spans| ==> text[m.spans[k].start..m.spans[k].end] == Lines(text)[k]
  {
    hide SpanId, Concat, Lines;
    var m := SpanMap(sourceId, text);
    forall k | 0 <= k < |m.spans|
      ensures m.spans[k].start <= m.spans[k].end <= |text| && text[m.spans[k].start..m.spans[k].end] == Lines(text)[k]
      ensures k == 0 ==> m.spans[k].start == 0
      ensures k + 1 == |m.spans| ==> m.spans[k].end == |text|
      ensures k > 0 ==> m.spans[k].start == m.spans[k - 1].end
    {
      SpanFits(text, k);
    }
    assert m.spans[0].start == 0;
  }

  method BuildSourceSpanMap(sourceId: string, text: string) returns (m: SourceSpanMap)
    ensures m == SpanMap(sourceId, text) && Tiles(m)
    ensures forall k :: 0 <= k < |m.spans| ==> text[m.spans[k].start..m.spans[k].end] == Lines(text)[k]
  {
    hide SpanId, Concat, Lines, Tiles;
    var lines := Lines(text);
    var spans: seq<SourceSpan> := [];
    var cursor := 0;
    ConcatNone(lines);
    for index := 0 to |lines|
      invariant |spans| == index && cursor == |Concat(lines[..index])|
      invariant forall k :: 0 <= k < index ==> spans[k] == SpanAt(lines, k)
    {
      var line := lines[index];
      ConcatTo(lines, index);
      var end := cursor + |line|;
      spans := spans + [SourceSpan(SpanId(index), cursor, end)];
      cursor := end;
    }
    SpanMapTiles(sourceId, text);
    m := SourceSpanMap(sourceId, text, spans);
    assert m == SpanMap(sourceId, text);
  }

  /** The slices of the first `n` spans. */
  function Slices(m: SourceSpanMap, n: nat): seq<string>
    requires n <= |m.spans|
  {
    if n == 0 then [] else Slices(m, n - 1) + [Slice(m.text, m.spans[n - 1].start, m.spans[n - 1].end)]
  }

  /** Put together, the labelled slices are the text itself. */
  lemma {:induction false} TilesConcat(m: SourceSpanMap, n: nat)
    requires Tiles(m) && n <= |m.spans|
    ensures Concat(Slices(m, n)) == if n == 0 then "" else m.text[..m.spans[n - 1].end]
  {
    hide Concat, SpanId;
    if n == 0 {
      ConcatNone([""]);
      assert [""][..0] == Slices(m, 0);
    } else {
      TilesConcat(m, n - 1);
      var span := m.spans[n - 1];
      assert n > 1 ==> m.spans[n - 2].end == span.start;
      ConcatSnoc(Slices(m, n - 1), Slice(m.text, span.start, span.end));
      assert m.text[..span.start] + m.text[span.start..span.end] == m.text[..span.end];
    }
  }

  lemma SlicesAreTheText(m: SourceSpanMap)
    requires Tiles(m)
    ensures Concat(Slices(m, |m.spans|)) == m.text
  {
    hide Concat, SpanId;
    TilesConcat(m, |m.spans|);
    assert m.text[..|m.text|] == m.text;
  }

  // ---------------------------------------------------------------------------
  // Extraction
  // ---------------------------------------------------------------------------

  /** Slicing with bounds clamped to the text, as Python slices. */
  function Slice(text: string, start: nat, end: nat): string
  {
    var hi := if end < |text| then end else |text|;
    if start < hi then text[start..hi] else ""
  }

  /** The last position with this label, as in a dictionary filled in order. */
  function FindSpan(spans: seq<SourceSpan>, id: string): (r: Option<nat>)
    ensures r.Some? ==> r.value < |spans| && spans[r.value].spanId == id
    ensures r.None? ==> forall k :: 0 <= k < |spans| ==> spans[k].spanId != id
  {
    if spans == [] then None
    else if spans[|spans| - 1].spanId == id then Some(|spans| - 1)
    else FindSpan(spans[..|spans| - 1], id)
  }

  function FindSource(sources: seq<SourceSpanMap>, id: string): (r: Option<SourceSpanMap>)
    ensures r.Some? ==> r.value in sources && r.value.sourceId == id
    ensures r.None? ==> forall m :: m in sources ==> m.sourceId != id
  {
    if sources == [] then None
    else if sources[|sources| - 1].sourceId == id then Some(sources[|sources| - 1])
    else
      assert sources == sources[..|sources| - 1] + [sources[|sources| - 1]];
      FindSource(sources[..|sources| - 1], id)
  }

  ghost predicate UniqueSources(sources: seq<SourceSpanMap>)
  {
    forall i, j :: 0 <= i < j < |sources| ==> sources[i].sourceId != sources[j].sourceId
  }

  /** What one reference names, if it names anything. */
  function Resolve(r: Reference, sources: seq<SourceSpanMap>): Option<Extracted>
  {
    var source := FindSource(sources, r.sourceId);
    if source.None? then None
    else
      var m := source.value;
      var first, last := FindSpan(m.spans, r.startId), FindSpan(m.spans, r.endId);
      if first.None? || last.None? || first.value > last.value then None
      else
        var start, end := m.spans[first.value].start, m.spans[last.value].end;
        Some(Extracted(m.sourceId, start, end, Slice(m.text, start, end)))
  }

  /** The reference alone is acceptable: it names non-blank evidence within the bound. */
  predicate Acceptable(r: Reference, sources: seq<SourceSpanMap>, maxChars: int)
  {
    var e := Resolve(r, sources);
    e.Some? && !IsBlank(e.value.text) && |e.value.text| <= maxChars
  }

  predicate Overlap(a: Extracted, b: Extracted)
  {
    a.sourceId == b.sourceId && a.start < b.end && b.start < a.end
  }

  /** Both references name something, and what they name overlaps. */
  predicate Collide(r: Reference, q: Reference, sources: seq<SourceSpanMap>)
  {
    var a, b := Resolve(r, sources), Resolve(q, sources);
    a.Some? && b.Some? && Overlap(a.value, b.value)
  }

  /** All contract checks hold for the references together. */
  ghost predicate Contract(refs: seq<Reference>, sources: seq<SourceSpanMap>, maxChars: int)
  {
    && maxChars >= 1 && UniqueSources(sources)
    && (forall r :: r in refs ==> Acceptable(r, sources, maxChars))
    && (forall i, j :: 0 <= i < j < |refs| ==> !Collide(refs[i], refs[j], sources))
  }

  /** The first `n` references resolved. */
  ghost predicate ResolvedTo(extracted: seq<Extracted>, refs: seq<Reference>, sources: seq<SourceSpanMap>,
          maxChars: int, n: nat)
  {
    && n <= |refs| && |extracted| == n
    && (forall k :: 0 <= k < n ==>
         Acceptable(refs[k], sources, maxChars) && extracted[k] == Resolve(refs[k], sources).value)
    && (forall i, j :: 0 <= i < j < n ==> !Overlap(extracted[i], extracted[j]))
  }

  lemma ContractPrefix(refs: seq<Reference>, sources: seq<SourceSpanMap>, maxChars: int, extracted: seq<Extracted>,
          n: nat)
    requires ResolvedTo(extracted, refs, sources, maxChars, n) && n < |refs|
    ensures Contract(refs, sources, maxChars) ==> Acceptable(refs[n], sources, maxChars)
    ensures Contract(refs, sources, maxChars) ==> forall k :: 0 <= k < n && Resolve(refs[n], sources).Some? ==>
            !Overlap(extracted[k], Resolve(refs[n], sources).value)
  {
    if Contract(refs, sources, maxChars) {
      assert refs[n] in refs;
    }
  }

  /**
    Succeeds iff all contract checks hold, and then returns one exact slice per reference, in
    the order of the references.
   */
  method ExtractSourceSpans(refs: seq<Reference>, sources: seq<SourceSpanMap>, maxChars: int) returns (r: Extraction)
    ensures r.BadLimit? <==> maxChars < 1
    ensures r.Evidence? <==> Contract(refs, sources, maxChars)
    ensures r.Evidence? ==> ResolvedTo(r.slices, refs, sources, maxChars, |refs|)
    ensures r.Evidence? ==> AreEvidence(r.slices, refs, maxChars)
  {
    hide Overlap, AreEvidence, Resolve, IsBlank, FindSpan, FindSource;
    if maxChars < 1 {
      return BadLimit;
    }
    var unique := SourceIdsUnique(sources);
    if !unique {
      return ContractError("gate source IDs must be unique");
    }
    var extracted: seq<Extracted> := [];
    for n := 0 to |refs|
      invariant ResolvedTo(extracted, refs, sources, maxChars, n)
    {
      var reference := refs[n];
      ContractPrefix(refs, sources, maxChars, extracted, n);
      var item := Resolve(reference, sources);
      if item.None? {
        return ContractError("reported source or span is absent or reversed");
      }
      if IsBlank(item.value.text) {
        return ContractError("reported span is empty");
      }
      if |item.value.text| > maxChars {
        return ContractError("reported span length exceeds maximum");
      }
      for k := 0 to n
        invariant forall j :: 0 <= j < k ==> !Overlap(extracted[j], item.value)
      {
        if Overlap(extracted[k], item.value) {
          return ContractError("reported spans overlap");
        }
      }
      extracted := extracted + [item.value];
    }
    AllResolved(extracted, refs, sources, maxChars);
    ResolvedIsEvidence(extracted, refs, sources, maxChars);
    return Evidence(extracted);
  }

  /**
    One slice for each reference, of its source, neither blank nor too long; in one source none
    reaches into another.
   */
  ghost predicate AreEvidence(slices: seq<Extracted>, refs: seq<Reference>, maxChars: int)
  {
    && |slices| == |refs|
    && (forall k :: 0 <= k < |refs| ==> IsEvidence(slices[k], refs[k], maxChars))
    && (forall i, j :: 0 <= i < j < |slices| ==> AreApart(slices[i], slices[j]))
  }

  ghost predicate IsEvidence(e: Extracted, r: Reference, maxChars: int)
  {
    && e.sourceId == r.sourceId && |e.text| <= maxChars
    && exists i :: 0 <= i < |e.text| && !IsSpace(e.text[i])
  }

  ghost predicate AreApart(a: Extracted, b: Extracted)
  {
    a.sourceId == b.sourceId ==> a.end <= b.start || b.end <= a.start
  }

  lemma AcceptableIs(r: Reference, sources: seq<SourceSpanMap>, maxChars: int)
    requires Acceptable(r, sources, maxChars)
    ensures IsEvidence(Resolve(r, sources).value, r, maxChars)
  {
    hide FindSpan, Slice, IsSpace;
  }

  lemma ApartIff(a: Extracted, b: Extracted)
    ensures AreApart(a, b) <==> !Overlap(a, b)
  {
  }

  lemma ResolvedIsEvidence(slices: seq<Extracted>, refs: seq<Reference>, sources: seq<SourceSpanMap>, maxChars: int)
    requires ResolvedTo(slices, refs, sources, maxChars, |refs|)
    ensures AreEvidence(slices, refs, maxChars)
  {
    hide Acceptable, Resolve, IsEvidence, AreApart, Overlap;
    forall k | 0 <= k < |refs|
      ensures IsEvidence(slices[k], refs[k], maxChars)
    {
      AcceptableIs(refs[k], sources, maxChars);
    }
    forall i, j | 0 <= i < j < |slices|
      ensures AreApart(slices[i], slices[j])
    {
      ApartIff(slices[i], slices[j]);
    }
  }

  lemma AllResolved(extracted: seq<Extracted>, refs: seq<Reference>, sources: seq<SourceSpanMap>, maxChars: int)
    requires ResolvedTo(extracted, refs, sources, maxChars, |refs|) && maxChars >= 1 && UniqueSources(sources)
    ensures Contract(refs, sources, maxChars)
  {
    forall r | r in refs
      ensures Acceptable(r, sources, maxChars)
    {
      var k :| 0 <= k < |refs| && refs[k] == r;
    }
    forall i, j | 0 <= i < j < |refs|
      ensures !Collide(refs[i], refs[j], sources)
    {
      assert !Overlap(extracted[i], extracted[j]);
    }
  }

  method SourceIdsUnique(sources: seq<SourceSpanMap>) returns (unique: bool)
    ensures unique <==> UniqueSources(sources)
  {
    var byId: map<string, SourceSpanMap> := map[];
    unique := true;
    for i := 0 to |sources|
      invariant forall id :: id in byId <==> exists k :: 0 <= k < i && sources[k].sourceId == id
      invariant unique <==> forall j, k :: 0 <= j < k < i ==> sources[j].sourceId != sources[k].sourceId
    {
      if sources[i].sourceId in byId {
        unique := false;
      }
      byId := byId[sources[i].sourceId := sources[i]];
    }
  }

  /** Non-blank evidence overlaps itself, so a repeated reference is never accepted. */
  lemma RepeatedReferenceOverlaps(r: Reference, sources: seq<SourceSpanMap>, maxChars: int)
    requires Acceptable(r, sources, maxChars)
    ensures Collide(r, r, sources)
  {
  }

  /** The contract in a form that mentions no positions. */
  lemma ContractWithoutOrder(refs: seq<Reference>, sources: seq<SourceSpanMap>, maxChars: int)
    ensures Contract(refs, sources, maxChars) <==>
            && maxChars >= 1 && UniqueSources(sources)
            && (forall r :: r in refs ==> Acceptable(r, sources, maxChars) && multiset(refs)[r] == 1)
            && (forall r, q :: r in refs && q in refs && r != q ==> !Collide(r, q, sources))
  {
    hide Acceptable, Collide;
    if Contract(refs, sources, maxChars) {
      forall r | r in refs
        ensures multiset(refs)[r] == 1
      {
        var i :| 0 <= i < |refs| && refs[i] == r;
        RepeatedReferenceOverlaps(r, sources, maxChars);
        OnlyOnce(refs, i);
      }
      forall r, q | r in refs && q in refs && r != q
        ensures !Collide(r, q, sources)
      {
        var i :| 0 <= i < |refs| && refs[i] == r;
        var j :| 0 <= j < |refs| && refs[j] == q;
        CollideSymmetric(r, q, sources);
      }
    } else if && maxChars >= 1 && UniqueSources(sources)
              && (forall r :: r in refs ==> Acceptable(r, sources, maxChars) && multiset(refs)[r] == 1) {
      var i, j :| 0 <= i < j < |refs| && Collide(refs[i], refs[j], sources);
      if refs[i] == refs[j] {
        TwiceCounts(refs, i, j);
      }
    }
  }

  lemma CollideSymmetric(r: Reference, q: Reference, sources: seq<SourceSpanMap>)
    ensures Collide(r, q, sources) == Collide(q, r, sources)
  {
  }

  lemma TwiceCounts<T>(s: seq<T>, i: nat, j: nat)
    requires i < j < |s| && s[i] == s[j]
    ensures multiset(s)[s[i]] >= 2
  {
    assert s == s[..j] + [s[j]] + s[j + 1..];
    assert s[..j][i] == s[i];
    assert s[i] in multiset(s[..j]);
  }

  lemma OnlyOnce<T>(s: seq<T>, i: nat)
    requires i < |s| && forall j :: 0 <= j < |s| && j != i ==> s[j] != s[i]
    ensures multiset(s)[s[i]] == 1
  {
    assert s == s[..i] + [s[i]] + s[i + 1..];
    assert s[i] !in s[..i] && s[i] !in s[i + 1..];
  }

  /** Whether the references are accepted does not depend on the order they are reported in. */
  lemma OrderDoesNotMatter(a: seq<Reference>, b: seq<Reference>, sources: seq<SourceSpanMap>, maxChars: int)
    requires multiset(a) == multiset(b)
    ensures Contract(a, sources, maxChars) <==> Contract(b, sources, maxChars)
  {
    ContractWithoutOrder(a, sources, maxChars);
    ContractWithoutOrder(b, sources, maxChars);
    assert forall r :: r in a <==> r in multiset(a);
    assert forall r :: r in b <==> r in multiset(b);
  }

  lemma {:induction false} TiledOrder(m: SourceSpanMap, k: nat, l: nat)
    requires Tiles(m) && k <= l < |m.spans|
    ensures m.spans[k].start <= m.spans[l].start
    ensures m.spans[k].end <= m.spans[l].end
    ensures k < l ==> m.spans[k].end <= m.spans[l].start
    decreases l - k
  {
    if k < l {
      TiledOrder(m, k, l - 1);
      assert m.spans[l - 1].end == m.spans[l].start;
    }
  }

  /** The reference names lines `k` to `l` of the source `m`. */
  ghost predicate Names(r: Reference, sources: seq<SourceSpanMap>, m: SourceSpanMap, k: nat, l: nat)
  {
    && m in sources && m.sourceId == r.sourceId && k <= l < |m.spans|
    && r.startId == SpanId(k) && r.endId == SpanId(l)
  }

  lemma LabelFound(m: SourceSpanMap, k: nat)
    requires Tiles(m) && k < |m.spans|
    ensures FindSpan(m.spans, SpanId(k)) == Some(k)
  {
    hide SpanId;
    var at := FindSpan(m.spans, SpanId(k));
    assert m.spans[k].spanId == SpanId(k);
    SpanIdsDistinct(at.value, k);
  }

  lemma SourceFound(sources: seq<SourceSpanMap>, m: SourceSpanMap)
    requires UniqueSources(sources) && m in sources
    ensures FindSource(sources, m.sourceId) == Some(m)
  {
    var found := FindSource(sources, m.sourceId).value;
    var i :| 0 <= i < |sources| && sources[i] == found;
    var j :| 0 <= j < |sources| && sources[j] == m;
  }

  /** On built maps a reference resolves iff its labels are those of two lines of its source, in order. */
  lemma ResolvesIff(r: Reference, sources: seq<SourceSpanMap>)
    requires UniqueSources(sources) && forall m :: m in sources ==> Tiles(m)
    ensures Resolve(r, sources).Some? <==> exists m, k: nat, l: nat :: Names(r, sources, m, k, l)
    ensures forall m, k: nat, l: nat :: Names(r, sources, m, k, l) ==>
              var e := Resolve(r, sources).value;
              Resolve(r, sources).Some? && e.start == m.spans[k].start && e.end == m.spans[l].end
  {
    hide SpanId, Tiles, FindSpan, FindSource, UniqueSources, Slice;
    forall m, k: nat, l: nat | Names(r, sources, m, k, l)
      ensures Resolve(r, sources).Some?
      ensures Resolve(r, sources).value.start == m.spans[k].start && Resolve(r, sources).value.end == m.spans[l].end
    {
      SourceFound(sources, m);
      LabelFound(m, k);
      LabelFound(m, l);
    }
    if Resolve(r, sources).Some? {
      var m := FindSource(sources, r.sourceId).value;
      var k, l := FindSpan(m.spans, r.startId).value, FindSpan(m.spans, r.endId).value;
      LabelIs(m, k);
      LabelIs(m, l);
      assert Names(r, sources, m, k, l);
    }
  }

  lemma LabelIs(m: SourceSpanMap, k: nat)
    requires Tiles(m) && k < |m.spans|
    ensures m.spans[k].spanId == SpanId(k)
  {
  }

  /** On a built map the evidence is the exact text between the two boundaries, whole lines of it. */
  lemma EvidenceIsExact(r: Reference, sources: seq<SourceSpanMap>, maxChars: int)
    requires Acceptable(r, sources, maxChars)
    requires forall m :: m in sources ==> Tiles(m)
    ensures var e := Resolve(r, sources).value;
            exists m, k: nat, l: nat :: m in sources && m.sourceId == r.sourceId && k <= l < |m.spans|
              && r.startId == SpanId(k) && r.endId == SpanId(l)
              && e.start == m.spans[k].start && e.end == m.spans[l].end && e.start < e.end <= |m.text|
              && e.text == m.text[e.start..e.end]
  {
    var m := FindSource(sources, r.sourceId).value;
    var k, l := FindSpan(m.spans, r.startId).value, FindSpan(m.spans, r.endId).value;
    TiledOrder(m, k, l);
    assert m.spans[k].spanId == SpanId(k) && m.spans[l].spanId == SpanId(l);
  }
}
