/**
  Findings, their keys, and the shared baseline that suppresses them by exact key.
 */
module Baselines {
  import opened Ordering
  import opened Options
  import opened Texts

  datatype Locus = Locus(doc: string, anchor: string, assertion: string)

  datatype Severity = Error | Report

  datatype Finding = Finding(
    code: string, doc: string, anchor: string, assertion: string, related: seq<Locus>,
    scope: string, promptVersion: string, model: string,
    message: string, formalization: Option<string>, severity: Severity, baselined: bool)

  datatype Entry = Entry(
    code: string, doc: string, anchor: string, assertion: string, related: seq<Locus>,
    scope: string, promptVersion: string, model: string, formalization: Option<string>)

  const SCOPE_CONTRADICTION := "SCOPE_CONTRADICTION"
  const STALE_BASELINE := "STALE_BASELINE"

  const GROUP_SEPARATOR := 29 as char
  const RECORD_SEPARATOR := 30 as char

  function EncodeLocus(l: Locus): string
  {
    Join([RECORD_SEPARATOR], [l.doc, l.anchor, l.assertion])
  }

  function EncodedParts(loci: seq<Locus>): (r: seq<string>)
    ensures |r| == |loci|
  {
    seq(|loci|, i requires 0 <= i < |loci| => EncodeLocus(loci[i]))
  }

  function EncodeLoci(loci: seq<Locus>): string
  {
    Join([GROUP_SEPARATOR], EncodedParts(loci))
  }

  /** `finding_key`: seven parts, and an eighth only when there are related loci. */
  function MakeKey(code: string, primary: Locus, related: seq<Locus>, scope: string, promptVersion: string,
          model: string): (key: seq<string>)
    ensures key != [] && key[0] == code
  {
    [code, primary.doc, primary.anchor, primary.assertion, scope, promptVersion, model]
    + if related == [] then [] else [EncodeLoci(related)]
  }

  function Key(f: Finding): (key: seq<string>)
    ensures key != [] && key[0] == f.code
  {
    MakeKey(f.code, Locus(f.doc, f.anchor, f.assertion), f.related, f.scope, f.promptVersion, f.model)
  }

  function EntryKey(e: Entry): seq<string>
  {
    MakeKey(e.code, Locus(e.doc, e.anchor, e.assertion), e.related, e.scope, e.promptVersion, e.model)
  }

  predicate KeyLe(f: Finding, g: Finding)
  {
    TupleLe(Key(f), Key(g))
  }

  /** What findings are sorted by, in this order; the related loci count only if there are some. */
  ghost function SortParts(f: Finding): seq<string>
  {
    [f.code, f.doc, f.anchor, f.assertion, f.scope, f.promptVersion, f.model]
    + if f.related == [] then [] else [EncodeLoci(f.related)]
  }

  /** Findings compare part by part. */
  lemma KeyLeIff(f: Finding, g: Finding)
    ensures KeyLe(f, g) <==> TupleBefore(SortParts(f), SortParts(g))
  {
    hide EncodeLoci, TupleLe, TupleBefore;
    TupleLeIff(Key(f), Key(g));
  }

  ghost predicate InPartOrder(sorted: seq<Finding>)
  {
    forall i, j :: 0 <= i < j < |sorted| ==> TupleBefore(SortParts(sorted[i]), SortParts(sorted[j]))
  }

  lemma OrderedByParts(sorted: seq<Finding>)
    requires Ordered(KeyLe, sorted)
    ensures InPartOrder(sorted)
  {
    hide KeyLe, TupleBefore, SortParts;
    forall i, j | 0 <= i < j < |sorted|
      ensures TupleBefore(SortParts(sorted[i]), SortParts(sorted[j]))
    {
      KeyLeIff(sorted[i], sorted[j]);
    }
  }

  function Select(entries: seq<Entry>, wanted: Entry -> bool): (r: seq<Entry>)
    ensures forall e :: e in r <==> e in entries && wanted(e)
    ensures forall e :: multiset(r)[e] == if wanted(e) then multiset(entries)[e] else 0
  {
    if entries == [] then []
    else
      assert entries == [entries[0]] + entries[1..];
      (if wanted(entries[0]) then [entries[0]] else []) + Select(entries[1..], wanted)
  }

  predicate Listed(entries: seq<Entry>, key: seq<string>)
  {
    exists e :: e in entries && EntryKey(e) == key
  }

  predicate Active(findings: seq<Finding>, key: seq<string>)
  {
    exists f :: f in findings && Key(f) == key
  }

  function CheckOf(entries: seq<Entry>, key: seq<string>): Option<string>
    requires Listed(entries, key)
  {
    if EntryKey(entries[|entries| - 1]) == key then entries[|entries| - 1].formalization
    else
      assert entries == entries[..|entries| - 1] + [entries[|entries| - 1]];
      CheckOf(entries[..|entries| - 1], key)
  }

  /** A finding whose key is listed is demoted to a report; W3 also takes over the triage decision. */
  function Mark(f: Finding, entries: seq<Entry>, takeCheck: bool): (r: Finding)
    ensures Key(r) == Key(f)
  {
    if !Listed(entries, Key(f)) then f
    else
      var check := if takeCheck then CheckOf(entries, Key(f)) else f.formalization;
      f.(severity := Report, baselined := true, formalization := check)
  }

  function MarkAll(findings: seq<Finding>, entries: seq<Entry>, takeCheck: bool): (r: seq<Finding>)
    ensures |r| == |findings|
    ensures forall i :: 0 <= i < |r| ==> r[i] == Mark(findings[i], entries, takeCheck)
  {
    seq(|findings|, i requires 0 <= i < |findings| => Mark(findings[i], entries, takeCheck))
  }

  function StaleFinding(e: Entry, baselineDoc: string, takeCheck: bool): Finding
  {
    Finding(STALE_BASELINE, baselineDoc, e.anchor, e.assertion, if takeCheck then e.related else [],
            e.scope, e.promptVersion, e.model,
            "baseline entry for " + e.code + " in " + e.doc + " no longer matches an active finding",
            if takeCheck then e.formalization else None, Error, false)
  }

  function StaleAll(entries: seq<Entry>, findings: seq<Finding>, baselineDoc: string, takeCheck: bool): seq<Finding>
  {
    if entries == [] then []
    else (if Active(findings, EntryKey(entries[0])) then [] else [StaleFinding(entries[0], baselineDoc, takeCheck)])
         + StaleAll(entries[1..], findings, baselineDoc, takeCheck)
  }

  /** The list of marked findings is extended by the stale entries and sorted by key. */
  method ApplyEntries(findings: seq<Finding>, entries: seq<Entry>, baselineDoc: string, takeCheck: bool)
    returns (sorted: seq<Finding>)
    ensures sorted == Applied(findings, entries, baselineDoc, takeCheck)
  {
    var output := MarkAll(findings, entries, takeCheck);
    output := output + StaleAll(entries, findings, baselineDoc, takeCheck);
    return Sorted(KeyLe, output);
  }

  function Applied(findings: seq<Finding>, entries: seq<Entry>, baselineDoc: string, takeCheck: bool): seq<Finding>
  {
    Sorted(KeyLe, MarkAll(findings, entries, takeCheck) + StaleAll(entries, findings, baselineDoc, takeCheck))
  }

  predicate ForAuthority(e: Entry, includedDocs: Option<set<string>>)
  {
    e.code != SCOPE_CONTRADICTION && (includedDocs.None? || e.doc in includedDocs.value)
  }

  predicate ForScopes(e: Entry, includedScopes: set<string>)
  {
    e.code == SCOPE_CONTRADICTION && e.scope in includedScopes
  }

  /** The entry and the finding agree in every part of the key. */
  ghost predicate Concerns(e: Entry, f: Finding)
  {
    && e.code == f.code && e.doc == f.doc && e.anchor == f.anchor && e.assertion == f.assertion && e.scope == f.scope
    && e.promptVersion == f.promptVersion && e.model == f.model
    && (e.related == [] <==> f.related == []) && EncodeLoci(e.related) == EncodeLoci(f.related)
  }

  ghost predicate IsListed(entries: seq<Entry>, f: Finding)
  {
    exists e :: e in entries && Concerns(e, f)
  }

  ghost predicate IsMatched(e: Entry, findings: seq<Finding>)
  {
    exists f :: f in findings && Concerns(e, f)
  }

  /** Keys are equal exactly when all their parts are. */
  lemma KeyConcerns(e: Entry, f: Finding)
    ensures EntryKey(e) == Key(f) <==> Concerns(e, f)
  {
    hide EncodeLoci;
    var k, l := EntryKey(e), Key(f);
    var a := [e.code, e.doc, e.anchor, e.assertion, e.scope, e.promptVersion, e.model];
    var b := [f.code, f.doc, f.anchor, f.assertion, f.scope, f.promptVersion, f.model];
    assert k[..7] == a && l[..7] == b;
    assert k == a + (if e.related == [] then [] else [EncodeLoci(e.related)]);
    assert l == b + (if f.related == [] then [] else [EncodeLoci(f.related)]);
    if k == l {
      assert k[0] == l[0] && k[1] == l[1] && k[2] == l[2] && k[3] == l[3] && k[4] == l[4] && k[5] == l[5]
        && k[6] == l[6];
      assert |k| == |l| && (e.related != [] ==> k[7] == l[7]);
    }
  }

  lemma ListedIff(entries: seq<Entry>, f: Finding)
    ensures Listed(entries, Key(f)) <==> IsListed(entries, f)
  {
    hide EntryKey, Key, Concerns;
    forall e | e in entries
      ensures EntryKey(e) == Key(f) <==> Concerns(e, f)
    {
      KeyConcerns(e, f);
    }
  }

  lemma MatchedIff(e: Entry, findings: seq<Finding>)
    ensures Active(findings, EntryKey(e)) <==> IsMatched(e, findings)
  {
    hide EntryKey, Key, Concerns;
    forall f | f in findings
      ensures EntryKey(e) == Key(f) <==> Concerns(e, f)
    {
      KeyConcerns(e, f);
    }
  }

  /** W2 takes the entries of all other codes, within the included documents if those are given. */
  lemma AuthorityEntries(entries: seq<Entry>, includedDocs: Option<set<string>>, e: Entry)
    ensures e in Select(entries, x => ForAuthority(x, includedDocs)) <==>
            e in entries && e.code != "SCOPE_CONTRADICTION" && (includedDocs.Some? ==> e.doc in includedDocs.value)
  {
  }

  /** W3 takes the contradiction entries of the selected scopes. */
  lemma ScopeEntries(entries: seq<Entry>, includedScopes: set<string>, e: Entry)
    ensures e in Select(entries, x => ForScopes(x, includedScopes)) <==>
            e in entries && e.code == "SCOPE_CONTRADICTION" && e.scope in includedScopes
  {
  }

  /** `g` is what the baseline makes of `f`: a report iff it is listed or was one, and otherwise the same finding. */
  ghost predicate Survives(f: Finding, g: Finding, entries: seq<Entry>, takeCheck: bool)
  {
    && g == f.(severity := g.severity, baselined := g.baselined, formalization := g.formalization)
    && (g.severity == Report <==> IsListed(entries, f) || f.severity == Report)
    && (g.baselined <==> IsListed(entries, f) || f.baselined)
    && (!IsListed(entries, f) ==> g == f)
    && (IsListed(entries, f) ==>
         if takeCheck then DecidedBy(entries, f, g.formalization) else g.formalization == f.formalization)
  }

  /** The last entry for the finding carries this triage decision. */
  ghost predicate DecidedBy(entries: seq<Entry>, f: Finding, decision: Option<string>)
  {
    exists i :: 0 <= i < |entries| && Concerns(entries[i], f) && entries[i].formalization == decision
                && forall j :: i < j < |entries| ==> !Concerns(entries[j], f)
  }

  lemma {:induction false} CheckIsDecided(entries: seq<Entry>, f: Finding)
    requires Listed(entries, Key(f))
    ensures DecidedBy(entries, f, CheckOf(entries, Key(f)))
  {
    hide EntryKey, Concerns, Key;
    var n := |entries| - 1;
    KeyConcerns(entries[n], f);
    if EntryKey(entries[n]) != Key(f) {
      var front := entries[..n];
      assert entries == front + [entries[n]];
      CheckIsDecided(front, f);
      var i :| 0 <= i < |front| && Concerns(front[i], f) && front[i].formalization == CheckOf(front, Key(f))
               && forall j :: i < j < |front| ==> !Concerns(front[j], f);
      assert entries[i] == front[i];
      forall j | i < j < |entries|
        ensures !Concerns(entries[j], f)
      {
        assert j < n ==> entries[j] == front[j];
      }
    }
  }

  /** `g` reports the entry as stale; W3 carries its related loci and triage decision along. */
  ghost predicate ReportsStale(g: Finding, e: Entry, baselineDoc: string, takeCheck: bool)
  {
    && g.code == "STALE_BASELINE" && g.doc == baselineDoc && g.anchor == e.anchor && g.assertion == e.assertion
    && g.scope == e.scope && g.promptVersion == e.promptVersion && g.model == e.model
    && g.related == (if takeCheck then e.related else [])
    && g.formalization == (if takeCheck then e.formalization else None)
    && g.severity == Error && !g.baselined
  }

  ghost function Unmatched(entries: seq<Entry>, findings: seq<Finding>): seq<Entry>
  {
    Select(entries, e => !IsMatched(e, findings))
  }

  /** Each finding survives once, each entry without a finding is reported once, and nothing else is there. */
  ghost predicate Accounts(sorted: seq<Finding>, findings: seq<Finding>, entries: seq<Entry>, baselineDoc: string,
          takeCheck: bool, marked: seq<Finding>, stale: seq<Finding>)
  {
    && multiset(sorted) == multiset(marked) + multiset(stale)
    && |marked| == |findings|
    && (forall i :: 0 <= i < |findings| ==> Survives(findings[i], marked[i], entries, takeCheck))
    && var unmatched := Unmatched(entries, findings);
       && |stale| == |unmatched|
       && forall i :: 0 <= i < |unmatched| ==> ReportsStale(stale[i], unmatched[i], baselineDoc, takeCheck)
  }

  /** What both baselines promise: a sorted account of all findings and all stale entries. */
  ghost predicate IsOutcome(sorted: seq<Finding>, findings: seq<Finding>, entries: seq<Entry>, baselineDoc: string,
          takeCheck: bool)
  {
    InPartOrder(sorted)
      && exists marked, stale :: Accounts(sorted, findings, entries, baselineDoc, takeCheck, marked, stale)
  }

  lemma {:induction false} StaleReported(entries: seq<Entry>, findings: seq<Finding>, baselineDoc: string,
          takeCheck: bool)
    ensures var stale, unmatched := StaleAll(entries, findings, baselineDoc, takeCheck), Unmatched(entries, findings);
            && |stale| == |unmatched|
            && forall i :: 0 <= i < |unmatched| ==> ReportsStale(stale[i], unmatched[i], baselineDoc, takeCheck)
  {
    hide Active, EntryKey, IsMatched, Unmatched, ReportsStale;
    if entries == [] {
      NothingUnmatched(findings);
    } else {
      StaleReported(entries[1..], findings, baselineDoc, takeCheck);
      MatchedIff(entries[0], findings);
      UnmatchedStep(entries, findings);
      StaleReportsOne(entries[0], baselineDoc, takeCheck);
    }
  }

  lemma NothingUnmatched(findings: seq<Finding>)
    ensures Unmatched([], findings) == []
  {
  }

  lemma UnmatchedStep(entries: seq<Entry>, findings: seq<Finding>)
    requires entries != []
    ensures Unmatched(entries, findings)
         == (if IsMatched(entries[0], findings) then [] else [entries[0]]) + Unmatched(entries[1..], findings)
  {
    hide IsMatched;
  }

  lemma StaleReportsOne(e: Entry, baselineDoc: string, takeCheck: bool)
    ensures ReportsStale(StaleFinding(e, baselineDoc, takeCheck), e, baselineDoc, takeCheck)
  {
  }

  lemma MarkSurvives(f: Finding, entries: seq<Entry>, takeCheck: bool)
    ensures Survives(f, Mark(f, entries, takeCheck), entries, takeCheck)
  {
    hide Listed, IsListed, Key, CheckOf, DecidedBy;
    ListedIff(entries, f);
    if Listed(entries, Key(f)) {
      CheckIsDecided(entries, f);
    }
  }

  lemma AppliedIsOutcome(findings: seq<Finding>, entries: seq<Entry>, baselineDoc: string, takeCheck: bool)
    ensures IsOutcome(Applied(findings, entries, baselineDoc, takeCheck), findings, entries, baselineDoc, takeCheck)
  {
    hide Sorted, Mark, Survives, ReportsStale, Ordered, KeyLe, Unmatched, StaleAll, InPartOrder;
    var marked, stale := MarkAll(findings, entries, takeCheck), StaleAll(entries, findings, baselineDoc, takeCheck);
    KeyOrder();
    SortedOrdered(KeyLe, marked + stale);
    OrderedByParts(Sorted(KeyLe, marked + stale));
    StaleReported(entries, findings, baselineDoc, takeCheck);
    forall i | 0 <= i < |findings|
      ensures Survives(findings[i], marked[i], entries, takeCheck)
    {
      MarkSurvives(findings[i], entries, takeCheck);
    }
    assert Accounts(Sorted(KeyLe, marked + stale), findings, entries, baselineDoc, takeCheck, marked, stale);
  }

  /** W2: the entries of other codes, within the included documents. */
  method ApplyBaseline(findings: seq<Finding>, entries: seq<Entry>, baselineDoc: string,
          includedDocs: Option<set<string>>)
    returns (sorted: seq<Finding>)
    ensures IsOutcome(sorted, findings, Select(entries, e => ForAuthority(e, includedDocs)), baselineDoc, false)
    ensures sorted == Applied(findings, Select(entries, e => ForAuthority(e, includedDocs)), baselineDoc, false)
  {
    hide IsOutcome, Applied, Select;
    var selected := Select(entries, e => ForAuthority(e, includedDocs));
    AppliedIsOutcome(findings, selected, baselineDoc, false);
    sorted := ApplyEntries(findings, selected, baselineDoc, false);
  }

  /** W3: the contradiction entries of the selected scopes. */
  method ApplyScopeBaseline(findings: seq<Finding>, entries: seq<Entry>, baselineDoc: string,
          includedScopes: set<string>)
    returns (sorted: seq<Finding>)
    ensures IsOutcome(sorted, findings, Select(entries, e => ForScopes(e, includedScopes)), baselineDoc, true)
    ensures sorted == Applied(findings, Select(entries, e => ForScopes(e, includedScopes)), baselineDoc, true)
  {
    hide IsOutcome, Applied, Select;
    var selected := Select(entries, e => ForScopes(e, includedScopes));
    AppliedIsOutcome(findings, selected, baselineDoc, true);
    sorted := ApplyEntries(findings, selected, baselineDoc, true);
  }

  // ---------------------------------------------------------------------------
  // What a key tells
  // ---------------------------------------------------------------------------

  predicate IsPlain(s: string)
  {
    GROUP_SEPARATOR !in s && RECORD_SEPARATOR !in s
  }

  /** No field of a locus holds a separator of the encoding. */
  ghost predicate PlainLoci(loci: seq<Locus>)
  {
    forall l :: l in loci ==> IsPlain(l.doc) && IsPlain(l.anchor) && IsPlain(l.assertion)
  }

  lemma LocusDecodes(l: Locus)
    requires IsPlain(l.doc) && IsPlain(l.anchor) && IsPlain(l.assertion)
    ensures Split([RECORD_SEPARATOR], EncodeLocus(l)) == [l.doc, l.anchor, l.assertion]
    ensures GROUP_SEPARATOR !in EncodeLocus(l)
  {
    hide Split;
    var fields := [l.doc, l.anchor, l.assertion];
    JoinSplit(RECORD_SEPARATOR, fields);
    JoinUnfolds([RECORD_SEPARATOR], fields);
    assert fields[1..] == [l.anchor, l.assertion];
    JoinUnfolds([RECORD_SEPARATOR], fields[1..]);
    assert fields[1..][1..] == [l.assertion];
    JoinOne([RECORD_SEPARATOR], l.assertion);
  }

  lemma LociDecode(loci: seq<Locus>)
    requires loci != [] && PlainLoci(loci)
    ensures Split([GROUP_SEPARATOR], EncodeLoci(loci)) == EncodedParts(loci)
  {
    hide Split, EncodeLocus;
    var parts := EncodedParts(loci);
    forall p | p in parts
      ensures GROUP_SEPARATOR !in p
    {
      var i :| 0 <= i < |parts| && parts[i] == p;
      assert loci[i] in loci;
      LocusDecodes(loci[i]);
    }
    JoinSplit(GROUP_SEPARATOR, parts);
  }

  /** Related loci without separator characters are told apart by their encoding. */
  lemma PlainLociTold(a: seq<Locus>, b: seq<Locus>)
    requires a != [] && b != [] && PlainLoci(a) && PlainLoci(b) && EncodeLoci(a) == EncodeLoci(b)
    ensures a == b
  {
    hide Split, EncodeLocus, EncodeLoci;
    LociDecode(a);
    LociDecode(b);
    forall i | 0 <= i < |a|
      ensures a[i] == b[i]
    {
      assert EncodedParts(a)[i] == EncodedParts(b)[i];
      assert a[i] in a && b[i] in b;
      LocusDecodes(a[i]);
      LocusDecodes(b[i]);
    }
  }

  /** What identifies a finding: code, loci, scope, prompt version and model. */
  ghost predicate SameIdentity(f: Finding, g: Finding)
  {
    && f.code == g.code && f.doc == g.doc && f.anchor == g.anchor && f.assertion == g.assertion
    && f.related == g.related && f.scope == g.scope && f.promptVersion == g.promptVersion && f.model == g.model
  }

  /** Equal keys mean the same identity, as long as the related loci are plain. */
  lemma PlainKeysTell(f: Finding, g: Finding)
    requires PlainLoci(f.related) && PlainLoci(g.related)
    ensures Key(f) == Key(g) <==> SameIdentity(f, g)
  {
    hide EncodeLoci, PlainLoci, Key;
    KeyParts(f);
    KeyParts(g);
    if Key(f) == Key(g) && f.related != [] && g.related != [] {
      PlainLociTold(f.related, g.related);
    }
    if f.related == g.related && KeyFields(f) == KeyFields(g) {
      SameFieldsSameKey(f, g);
    }
  }

  function KeyFields(f: Finding): seq<string>
  {
    [f.code, f.doc, f.anchor, f.assertion, f.scope, f.promptVersion, f.model]
  }

  lemma KeyParts(f: Finding)
    ensures |Key(f)| == (if f.related == [] then 7 else 8) && Key(f)[..7] == KeyFields(f)
    ensures f.related != [] ==> Key(f)[7] == EncodeLoci(f.related)
    ensures f.code == Key(f)[..7][0] && f.doc == Key(f)[..7][1] && f.anchor == Key(f)[..7][2]
            && f.assertion == Key(f)[..7][3]
    ensures f.scope == Key(f)[..7][4] && f.promptVersion == Key(f)[..7][5] && f.model == Key(f)[..7][6]
  {
    hide EncodeLoci;
    assert Key(f)[..7] == KeyFields(f);
  }

  lemma SameFieldsSameKey(f: Finding, g: Finding)
    requires KeyFields(f) == KeyFields(g) && f.related == g.related
    ensures Key(f) == Key(g)
  {
    hide EncodeLoci;
    assert Key(f) == KeyFields(f) + if f.related == [] then [] else [EncodeLoci(f.related)];
  }

  /**
    With separator characters they are not: evidence of several lines may contain them, and one
    related locus then reads like two.
   */
  lemma OneLocusReadsLikeTwo(p: string, q: string, r: string, s: string, t: string, u: string)
    ensures EncodeLoci([Locus(p, q, r + [GROUP_SEPARATOR] + s + [RECORD_SEPARATOR] + t + [RECORD_SEPARATOR] + u)])
         == EncodeLoci([Locus(p, q, r), Locus(s, t, u)])
  {
    hide Join;
    var long := r + [GROUP_SEPARATOR] + s + [RECORD_SEPARATOR] + t + [RECORD_SEPARATOR] + u;
    var one, two := [Locus(p, q, long)], [Locus(p, q, r), Locus(s, t, u)];
    assert EncodedParts(one) == [EncodeLocus(one[0])];
    assert EncodedParts(two) == [EncodeLocus(two[0]), EncodeLocus(two[1])];
    JoinOne([GROUP_SEPARATOR], EncodeLocus(one[0]));
    JoinSnoc([GROUP_SEPARATOR], [EncodeLocus(two[0])], EncodeLocus(two[1]));
    JoinOne([GROUP_SEPARATOR], EncodeLocus(two[0]));
    assert [EncodeLocus(two[0])] + [EncodeLocus(two[1])] == [EncodeLocus(two[0]), EncodeLocus(two[1])];
    EncodedFields(p, q, long);
    EncodedFields(p, q, r);
    EncodedFields(s, t, u);
  }

  lemma EncodedFields(a: string, b: string, c: string)
    ensures EncodeLocus(Locus(a, b, c)) == a + [RECORD_SEPARATOR] + b + [RECORD_SEPARATOR] + c
  {
    hide Join;
    JoinOne([RECORD_SEPARATOR], a);
    JoinSnoc([RECORD_SEPARATOR], [a], b);
    JoinSnoc([RECORD_SEPARATOR], [a, b], c);
    assert [a] + [b] == [a, b] && [a, b] + [c] == [a, b, c];
  }

  // ---------------------------------------------------------------------------
  // Which characters keys can bear
  // ---------------------------------------------------------------------------

  /** Text of an alphabet that is not blank, as every field of a locus has to be. */
  predicate FieldOver(allowed: char -> bool, s: string)
  {
    !IsBlank(s) && forall i :: 0 <= i < |s| ==> allowed(s[i])
  }

  /** The loci of a finding, the primary one first. */
  function LociOf(f: Finding): (r: seq<Locus>)
    ensures |r| == |f.related| + 1
  {
    [Locus(f.doc, f.anchor, f.assertion)] + f.related
  }

  ghost predicate LociOver(allowed: char -> bool, loci: seq<Locus>)
  {
    forall l :: l in loci ==>
      FieldOver(allowed, l.doc) && FieldOver(allowed, l.anchor) && FieldOver(allowed, l.assertion)
  }

  /** The keys of findings over the alphabet tell their identities. */
  ghost predicate KeysTell(allowed: char -> bool)
  {
    forall f: Finding, g: Finding ::
      LociOver(allowed, LociOf(f)) && LociOver(allowed, LociOf(g)) && Key(f) == Key(g) ==> SameIdentity(f, g)
  }

  /**
    Two ordered lists of three loci that start alike and encode alike, with the group separator in
    one field of each.
   */
  function ReadsAsNextGroup(x: char): (r: (seq<Locus>, seq<Locus>))
    ensures |r.0| == |r.1| == 3 && r.0[0] == r.1[0]
  {
    var first := Locus([x], [x], [x]);
    ([first, Locus([x], [x], [x, GROUP_SEPARATOR, x]), Locus([x, x], [x], [x])],
     [first, first, Locus([x, GROUP_SEPARATOR, x, x], [x], [x])])
  }

  /** The same of two loci, with the record separator. */
  function ReadsAsNextField(x: char): (r: (seq<Locus>, seq<Locus>))
    ensures |r.0| == |r.1| == 2 && r.0[0] == r.1[0]
  {
    var first := Locus([x], [x], [x]);
    ([first, Locus([x, RECORD_SEPARATOR, x], [x], [x])], [first, Locus([x], [x, RECORD_SEPARATOR, x], [x])])
  }

  lemma NextGroupAlike(x: char)
    ensures var (a, b) := ReadsAsNextGroup(x); a != b && EncodeLoci(a[1..]) == EncodeLoci(b[1..])
  {
    hide Join;
    var (a, b) := ReadsAsNextGroup(x);
    EncodedTwo(a[1], a[2]);
    EncodedTwo(b[1], b[2]);
    assert a[1..] == [a[1], a[2]] && b[1..] == [b[1], b[2]];
    assert a[1] != b[1];
  }

  lemma NextFieldAlike(x: char)
    ensures var (a, b) := ReadsAsNextField(x); a != b && EncodeLoci(a[1..]) == EncodeLoci(b[1..])
  {
    hide Join;
    var (a, b) := ReadsAsNextField(x);
    EncodedOne(a[1]);
    EncodedOne(b[1]);
    assert a[1..] == [a[1]] && b[1..] == [b[1]];
    assert |a[1].doc| != |b[1].doc| && a[1] != b[1];
  }

  lemma EncodedOne(l: Locus)
    ensures EncodeLoci([l]) == l.doc + [RECORD_SEPARATOR] + l.anchor + [RECORD_SEPARATOR] + l.assertion
  {
    hide Join;
    assert EncodedParts([l]) == [EncodeLocus(l)];
    JoinOne([GROUP_SEPARATOR], EncodeLocus(l));
    EncodedFields(l.doc, l.anchor, l.assertion);
  }

  lemma EncodedTwo(l: Locus, m: Locus)
    ensures EncodeLoci([l, m]) == EncodeLoci([l]) + [GROUP_SEPARATOR] + EncodeLoci([m])
    ensures EncodeLoci([l]) == l.doc + [RECORD_SEPARATOR] + l.anchor + [RECORD_SEPARATOR] + l.assertion
    ensures EncodeLoci([m]) == m.doc + [RECORD_SEPARATOR] + m.anchor + [RECORD_SEPARATOR] + m.assertion
  {
    hide Join, EncodeLocus;
    EncodedOne(l);
    EncodedOne(m);
    assert EncodedParts([l]) == [EncodeLocus(l)] && EncodedParts([m]) == [EncodeLocus(m)];
    assert EncodedParts([l, m]) == [EncodeLocus(l)] + [EncodeLocus(m)];
    JoinSnoc([GROUP_SEPARATOR], [EncodeLocus(l)], EncodeLocus(m));
    JoinOne([GROUP_SEPARATOR], EncodeLocus(l));
    JoinOne([GROUP_SEPARATOR], EncodeLocus(m));
  }

  lemma VisibleField(allowed: char -> bool, x: char, rest: string)
    requires allowed(x) && !IsSpace(x) && forall i :: 0 <= i < |rest| ==> allowed(rest[i])
    ensures FieldOver(allowed, [x] + rest)
  {
    hide IsSpace;
    assert !IsSpace(([x] + rest)[0]);
  }

  lemma NextGroupOver(allowed: char -> bool, x: char)
    requires allowed(x) && !IsSpace(x) && allowed(GROUP_SEPARATOR)
    ensures var (a, b) := ReadsAsNextGroup(x); LociOver(allowed, a) && LociOver(allowed, b)
  {
    hide FieldOver, IsSpace;
    VisibleField(allowed, x, "");
    VisibleField(allowed, x, [x]);
    VisibleField(allowed, x, [GROUP_SEPARATOR, x]);
    VisibleField(allowed, x, [GROUP_SEPARATOR, x, x]);
    assert [x] + "" == [x] && [x] + [x] == [x, x] && [x] + [GROUP_SEPARATOR, x] == [x, GROUP_SEPARATOR, x];
    assert [x] + [GROUP_SEPARATOR, x, x] == [x, GROUP_SEPARATOR, x, x];
  }

  lemma NextFieldOver(allowed: char -> bool, x: char)
    requires allowed(x) && !IsSpace(x) && allowed(RECORD_SEPARATOR)
    ensures var (a, b) := ReadsAsNextField(x); LociOver(allowed, a) && LociOver(allowed, b)
  {
    hide FieldOver, IsSpace;
    VisibleField(allowed, x, "");
    VisibleField(allowed, x, [RECORD_SEPARATOR, x]);
    assert [x] + "" == [x] && [x] + [RECORD_SEPARATOR, x] == [x, RECORD_SEPARATOR, x];
  }

  /** If a separator belongs to the alphabet, two different lists of loci over it encode alike. */
  lemma TwoAlike(allowed: char -> bool, x: char) returns (a: seq<Locus>, b: seq<Locus>)
    requires allowed(x) && !IsSpace(x) && (allowed(GROUP_SEPARATOR) || allowed(RECORD_SEPARATOR))
    ensures (a, b) == if allowed(GROUP_SEPARATOR) then ReadsAsNextGroup(x) else ReadsAsNextField(x)
    ensures LociOver(allowed, a) && LociOver(allowed, b) && a != b && EncodeLoci(a[1..]) == EncodeLoci(b[1..])
  {
    hide LociOver, EncodeLoci, IsSpace, ReadsAsNextGroup, ReadsAsNextField;
    if allowed(GROUP_SEPARATOR) {
      NextGroupOver(allowed, x);
      NextGroupAlike(x);
      a, b := ReadsAsNextGroup(x).0, ReadsAsNextGroup(x).1;
    } else {
      NextFieldOver(allowed, x);
      NextFieldAlike(x);
      a, b := ReadsAsNextField(x).0, ReadsAsNextField(x).1;
    }
  }

  /** Over an alphabet with a visible character, keys tell identities iff neither separator belongs to it. */
  lemma KeysTellIff(allowed: char -> bool, x: char)
    requires allowed(x) && !IsSpace(x)
    ensures KeysTell(allowed) <==> !allowed(GROUP_SEPARATOR) && !allowed(RECORD_SEPARATOR)
  {
    hide Key, LociOver, EncodeLoci, IsSpace, ReadsAsNextGroup, ReadsAsNextField;
    if !allowed(GROUP_SEPARATOR) && !allowed(RECORD_SEPARATOR) {
      forall f: Finding, g: Finding
        | LociOver(allowed, LociOf(f)) && LociOver(allowed, LociOf(g)) && Key(f) == Key(g)
        ensures SameIdentity(f, g)
      {
        OverIsPlain(allowed, f);
        OverIsPlain(allowed, g);
        PlainKeysTell(f, g);
      }
    } else {
      var a, b := TwoAlike(allowed, x);
      KeysClash(allowed, a, b);
    }
  }

  lemma KeysClash(allowed: char -> bool, a: seq<Locus>, b: seq<Locus>)
    requires LociOver(allowed, a) && LociOver(allowed, b) && |a| >= 2 && |b| >= 2
    requires a[0] == b[0] && a != b && EncodeLoci(a[1..]) == EncodeLoci(b[1..])
    ensures !KeysTell(allowed)
  {
    hide EncodeLoci;
    hide FieldOver;
    var f := Finding("", a[0].doc, a[0].anchor, a[0].assertion, a[1..], "", "", "", "", None, Error, false);
    var g := f.(related := b[1..]);
    assert LociOf(f) == a && LociOf(g) == b;
    assert Key(f) == Key(g);
  }

  lemma OverIsPlain(allowed: char -> bool, f: Finding)
    requires LociOver(allowed, LociOf(f)) && !allowed(GROUP_SEPARATOR) && !allowed(RECORD_SEPARATOR)
    ensures PlainLoci(f.related)
  {
    hide IsBlank;
    forall l | l in f.related
      ensures IsPlain(l.doc) && IsPlain(l.anchor) && IsPlain(l.assertion)
    {
      assert l in LociOf(f);
    }
  }

  // ---------------------------------------------------------------------------
  // What the baseline does
  // ---------------------------------------------------------------------------

  lemma KeyOrder()
    ensures TotalPreorder(KeyLe)
  {
    TupleOrder();
    forall f: Finding, g: Finding
      ensures KeyLe(f, g) || KeyLe(g, f)
    {
      assert TupleLe(Key(f), Key(g)) || TupleLe(Key(g), Key(f));
    }
    forall f: Finding, g: Finding, h: Finding | KeyLe(f, g) && KeyLe(g, h)
      ensures KeyLe(f, h)
    {
      assert TupleLe(Key(f), Key(g)) && TupleLe(Key(g), Key(h));
    }
  }

  lemma {:induction false} StaleIff(entries: seq<Entry>, findings: seq<Finding>, baselineDoc: string, takeCheck: bool,
          f: Finding)
    ensures f in StaleAll(entries, findings, baselineDoc, takeCheck) <==>
            exists e :: e in entries && !Active(findings, EntryKey(e)) && f == StaleFinding(e, baselineDoc, takeCheck)
  {
    if entries != [] {
      StaleIff(entries[1..], findings, baselineDoc, takeCheck, f);
      assert entries == [entries[0]] + entries[1..];
    }
  }

  predicate Ok(findings: seq<Finding>)
  {
    forall f :: f in findings ==> f.severity != Error
  }

  lemma AppliedElements(findings: seq<Finding>, entries: seq<Entry>, baselineDoc: string, takeCheck: bool, f: Finding)
    ensures f in Applied(findings, entries, baselineDoc, takeCheck) <==>
            f in MarkAll(findings, entries, takeCheck) || f in StaleAll(entries, findings, baselineDoc, takeCheck)
  {
    hide Sorted;
    SameElements(MarkAll(findings, entries, takeCheck) + StaleAll(entries, findings, baselineDoc, takeCheck),
                 Applied(findings, entries, baselineDoc, takeCheck));
  }

  lemma ErrorsSurvive(findings: seq<Finding>, entries: seq<Entry>, baselineDoc: string, takeCheck: bool)
    requires Ok(Applied(findings, entries, baselineDoc, takeCheck))
    ensures forall f :: f in findings && f.severity == Error ==> Listed(entries, Key(f))
    ensures forall e :: e in entries ==> Active(findings, EntryKey(e))
  {
    hide Applied, Listed, Active, StaleFinding;
    forall e | e in entries
      ensures Active(findings, EntryKey(e))
    {
      var f := StaleFinding(e, baselineDoc, takeCheck);
      StaleIff(entries, findings, baselineDoc, takeCheck, f);
      AppliedElements(findings, entries, baselineDoc, takeCheck, f);
      StaleIsError(e, baselineDoc, takeCheck);
    }
    forall f | f in findings && f.severity == Error
      ensures Listed(entries, Key(f))
    {
      var i :| 0 <= i < |findings| && findings[i] == f;
      assert MarkAll(findings, entries, takeCheck)[i] == Mark(f, entries, takeCheck);
      AppliedElements(findings, entries, baselineDoc, takeCheck, f);
    }
  }

  lemma StaleIsError(e: Entry, baselineDoc: string, takeCheck: bool)
    ensures StaleFinding(e, baselineDoc, takeCheck).severity == Error
  {
  }

  /** No error is left iff every erroneous finding is baselined and every entry still matches a finding. */
  lemma OkIff(findings: seq<Finding>, entries: seq<Entry>, baselineDoc: string, takeCheck: bool)
    ensures Ok(Applied(findings, entries, baselineDoc, takeCheck)) <==>
            && (forall f :: f in findings && f.severity == Error ==> Listed(entries, Key(f)))
            && (forall e :: e in entries ==> Active(findings, EntryKey(e)))
  {
    hide Applied, Listed, Active, StaleFinding;
    if Ok(Applied(findings, entries, baselineDoc, takeCheck)) {
      ErrorsSurvive(findings, entries, baselineDoc, takeCheck);
    } else {
      var f :| f in Applied(findings, entries, baselineDoc, takeCheck) && f.severity == Error;
      AppliedElements(findings, entries, baselineDoc, takeCheck, f);
      StaleIff(entries, findings, baselineDoc, takeCheck, f);
      if f in MarkAll(findings, entries, takeCheck) {
        var i :| 0 <= i < |findings| && MarkAll(findings, entries, takeCheck)[i] == f;
        assert f == Mark(findings[i], entries, takeCheck);
        assert findings[i] in findings;
      }
    }
  }

  /** Inserting two elements in either order gives the same list unless they tie and differ. */
  lemma {:induction false} InsertCommutes<T(!new)>(le: (T, T) -> bool, x: T, y: T, s: seq<T>)
    requires TotalPreorder(le) && (le(x, y) && le(y, x) ==> x == y)
    ensures Insert(le, x, Insert(le, y, s)) == Insert(le, y, Insert(le, x, s))
  {
    if s != [] && !le(x, s[0]) && !le(y, s[0]) {
      InsertCommutes(le, x, y, s[1..]);
    } else if s != [] {
      assert ([y] + s)[1..] == s && ([x] + s)[1..] == s;
    }
  }

  /** `sorted(a + tail)` is the elements of `a` inserted, last first, into the sorted tail. */
  function InsertAll<T>(le: (T, T) -> bool, a: seq<T>, s: seq<T>): seq<T>
  {
    if a == [] then s else Insert(le, a[0], InsertAll(le, a[1..], s))
  }

  lemma {:induction false} SortedIsInsertAll<T>(le: (T, T) -> bool, a: seq<T>, tail: seq<T>)
    ensures Sorted(le, a + tail) == InsertAll(le, a, Sorted(le, tail))
  {
    if a == [] {
      assert a + tail == tail;
    } else {
      assert (a + tail)[1..] == a[1..] + tail;
      SortedIsInsertAll(le, a[1..], tail);
    }
  }

  lemma {:induction false} MoveToFront<T(!new)>(le: (T, T) -> bool, a: seq<T>, x: T, b: seq<T>, s: seq<T>)
    requires TotalPreorder(le) && TiesEqual(le, a + [x] + b)
    ensures InsertAll(le, a + [x] + b, s) == InsertAll(le, [x] + (a + b), s)
  {
    assert ([x] + (a + b))[1..] == a + b;
    if a == [] {
      assert a + [x] + b == [x] + (a + b);
    } else {
      var rest := a[1..];
      assert (a + [x] + b)[1..] == rest + [x] + b && (a + b)[1..] == rest + b;
      assert forall z :: z in rest + [x] + b ==> z in a + [x] + b;
      MoveToFront(le, rest, x, b, s);
      assert ([x] + (rest + b))[1..] == rest + b;
      assert a[0] in a + [x] + b && x in a + [x] + b;
      InsertCommutes(le, a[0], x, InsertAll(le, rest + b, s));
    }
  }

  /** The stable sort of `a + tail` does not depend on the order of `a` when ties in `a` are equal. */
  lemma {:induction false} SortForgetsOrder<T(!new)>(le: (T, T) -> bool, a: seq<T>, b: seq<T>, s: seq<T>)
    requires TotalPreorder(le) && TiesEqual(le, a) && multiset(a) == multiset(b)
    ensures InsertAll(le, a, s) == InsertAll(le, b, s)
  {
    if a == [] {
      SameElements(a, b);
    } else {
      var i := MatchFirst(a, b);
      var front, back := b[..i], b[i + 1..];
      assert b == front + [b[i]] + back;
      TiesPermute(le, a, b);
      MoveToFront(le, front, a[0], back, s);
      TailKeeps(le, a);
      SortForgetsOrder(le, a[1..], front + back, s);
      assert ([a[0]] + (front + back))[1..] == front + back;
    }
  }

  lemma TiesPermute<T(!new)>(le: (T, T) -> bool, a: seq<T>, b: seq<T>)
    requires TiesEqual(le, a) && multiset(a) == multiset(b)
    ensures TiesEqual(le, b)
  {
    SameElements(a, b);
  }

  /** Equal keys mean equal findings. */
  ghost predicate KeysDecide(findings: seq<Finding>)
  {
    forall f, g :: f in findings && g in findings && Key(f) == Key(g) ==> f == g
  }

  /** The order in which findings came in has no influence on the result. */
  lemma OrderIsForgotten(a: seq<Finding>, b: seq<Finding>, entries: seq<Entry>, baselineDoc: string, takeCheck: bool)
    requires multiset(a) == multiset(b) && KeysDecide(a)
    ensures Applied(a, entries, baselineDoc, takeCheck) == Applied(b, entries, baselineDoc, takeCheck)
  {
    var markedA, markedB := MarkAll(a, entries, takeCheck), MarkAll(b, entries, takeCheck);
    SameElements(a, b);
    StaleSame(a, b, entries, baselineDoc, takeCheck);
    MarkPermutes(a, b, entries, takeCheck);
    KeyOrder();
    MarkedTies(a, entries, takeCheck);
    var stale := StaleAll(entries, a, baselineDoc, takeCheck);
    SortedIsInsertAll(KeyLe, markedA, stale);
    SortedIsInsertAll(KeyLe, markedB, stale);
    SortForgetsOrder(KeyLe, markedA, markedB, Sorted(KeyLe, stale));
  }

  lemma KeyLeBoth(x: Finding, y: Finding)
    requires KeyLe(x, y) && KeyLe(y, x)
    ensures Key(x) == Key(y)
  {
    TupleOrder();
  }

  lemma MarkedTies(a: seq<Finding>, entries: seq<Entry>, takeCheck: bool)
    requires KeysDecide(a)
    ensures TiesEqual(KeyLe, MarkAll(a, entries, takeCheck))
  {
    hide KeyLe, Key;
    var marked := MarkAll(a, entries, takeCheck);
    forall x, y | x in marked && y in marked && KeyLe(x, y) && KeyLe(y, x)
      ensures x == y
    {
      var i :| 0 <= i < |a| && marked[i] == x;
      var j :| 0 <= j < |a| && marked[j] == y;
      KeyLeBoth(x, y);
      assert a[i] in a && a[j] in a;
    }
  }

  lemma {:induction false} StaleSame(a: seq<Finding>, b: seq<Finding>, entries: seq<Entry>, baselineDoc: string,
          takeCheck: bool)
    requires forall f :: f in a <==> f in b
    ensures StaleAll(entries, a, baselineDoc, takeCheck) == StaleAll(entries, b, baselineDoc, takeCheck)
  {
    if entries != [] {
      StaleSame(a, b, entries[1..], baselineDoc, takeCheck);
    }
  }

  lemma MarkAppend(a: seq<Finding>, b: seq<Finding>, entries: seq<Entry>, takeCheck: bool)
    ensures MarkAll(a + b, entries, takeCheck) == MarkAll(a, entries, takeCheck) + MarkAll(b, entries, takeCheck)
  {
    hide Mark, MarkAll;
    var whole := MarkAll(a + b, entries, takeCheck);
    var parts := MarkAll(a, entries, takeCheck) + MarkAll(b, entries, takeCheck);
    forall i | 0 <= i < |whole|
      ensures whole[i] == parts[i]
    {
    }
  }

  ghost function Marks(s: seq<Finding>, entries: seq<Entry>, takeCheck: bool): multiset<Finding>
  {
    multiset(MarkAll(s, entries, takeCheck))
  }

  lemma MarkOut(s: seq<Finding>, i: nat, rest: seq<Finding>, entries: seq<Entry>, takeCheck: bool)
    requires i < |s| && rest == s[..i] + s[i + 1..]
    ensures Marks(s, entries, takeCheck) == Marks(rest, entries, takeCheck) + multiset{Mark(s[i], entries, takeCheck)}
  {
    hide Mark;
    MarkAppend(s[..i], s[i + 1..], entries, takeCheck);
    MarkAppend(s[..i], [s[i]], entries, takeCheck);
    MarkAppend(s[..i] + [s[i]], s[i + 1..], entries, takeCheck);
    assert s == s[..i] + [s[i]] + s[i + 1..];
    assert MarkAll([s[i]], entries, takeCheck) == [Mark(s[i], entries, takeCheck)];
  }

  lemma {:induction false} MarkPermutes(a: seq<Finding>, b: seq<Finding>, entries: seq<Entry>, takeCheck: bool)
    requires multiset(a) == multiset(b)
    ensures Marks(a, entries, takeCheck) == Marks(b, entries, takeCheck)
  {
    hide Mark, Marks;
    if a == [] {
      SameElements(a, b);
    } else {
      var i := MatchFirst(a, b);
      var rest := b[..i] + b[i + 1..];
      MarkPermutes(a[1..], rest, entries, takeCheck);
      MarkOut(b, i, rest, entries, takeCheck);
      assert a[..0] + a[1..] == a[1..];
      MarkOut(a, 0, a[1..], entries, takeCheck);
    }
  }
}
