/**
  The verdict of the reference gate: scope and document cycles and stale baseline entries join
  the findings of the scan, and the baseline of unresolved references then demotes, by exact
  key, whatever it lists, cycle findings and stale entries included.
 */
module ReferenceGate {
  import opened Components
  import opened Graphs
  import opened Ordering
  import opened ReferenceIntegrity
  import opened Texts

  const SCOPE_CYCLE := "SCOPE_DEFERS_TO_CYCLE"
  const DOCUMENT_CYCLE := "UNBASELINED_DOCUMENT_CYCLE"
  const STALE := "STALE_BASELINE"
  const CONCEPT := "concept"

  datatype Key = Key(code: string, path: string, line: int, reference: string)

  datatype Severity = Blocking | Warning | Demoted

  datatype Raw = Raw(key: Key, severity: Severity)

  ghost function ScopeKey(scope: string): Key
  {
    Key(SCOPE_CYCLE, CONCEPT, 0, scope)
  }

  ghost function DocumentKey(component: seq<string>): Key
  {
    Key(DOCUMENT_CYCLE, CONCEPT, 0, Join(",", component))
  }

  /** Components of ids without commas have the same key only if they are the same. */
  lemma DocumentKeysTell(a: seq<string>, b: seq<string>)
    requires a != [] && b != [] && forall id :: id in a || id in b ==> ',' !in id
    ensures DocumentKey(a) == DocumentKey(b) <==> a == b
  {
    JoinSplit(',', a);
    JoinSplit(',', b);
  }

  /** The keys of two scopes differ, and none is that of a document cycle. */
  lemma ScopeKeysTell(a: string, b: string, component: seq<string>)
    ensures ScopeKey(a) == ScopeKey(b) <==> a == b
    ensures ScopeKey(a) != DocumentKey(component)
  {
    assert SCOPE_CYCLE[0] != DOCUMENT_CYCLE[0];
  }

  /** A comma in an id is enough for two components to share their key. */
  lemma CommaSharesKey()
    ensures DocumentKey(["a", "b,c"]) == DocumentKey(["a,b", "c"])
  {
    assert Join(",", ["a", "b,c"]) == "a" + "," + "b,c" && Join(",", ["a,b", "c"]) == "a,b" + "," + "c";
  }

  /** The key of the finding that an entry of unresolved references is stale. */
  ghost function StaleKey(baselineDoc: string, k: Key): Key
  {
    Key(STALE, baselineDoc, 1, Join("|", [k.code, k.path, IntText(k.line), k.reference]))
  }

  ghost function StaleCycleKey(baselineDoc: string, component: seq<string>): Key
  {
    Key(STALE, baselineDoc, 1, Join(",", component))
  }

  ghost predicate HasKey(raw: seq<Raw>, k: Key)
  {
    exists f :: f in raw && f.key == k
  }

  /** Loading and scanning report neither cycles nor stale entries. */
  ghost predicate FromScan(scanned: seq<Raw>)
  {
    forall f :: f in scanned ==> f.key.code != SCOPE_CYCLE && f.key.code != DOCUMENT_CYCLE && f.key.code != STALE
  }

  // ---------------------------------------------------------------------------
  // Suppression by key
  // ---------------------------------------------------------------------------

  /** Warnings pass by the baseline; of the rest, exactly the listed findings become reports. */
  method ApplyUnresolvedBaseline(raw: seq<Raw>, unresolved: set<Key>)
    returns (errors: seq<Raw>, reports: seq<Raw>, warnings: seq<Raw>)
    ensures forall f :: f in errors <==> f in raw && f.severity != Warning && f.key !in unresolved
    ensures forall f :: f in warnings <==> f in raw && f.severity == Warning
    ensures forall f :: f in reports <==> f.severity == Demoted && Suppressed(raw, unresolved, f.key)
    ensures |errors| + |reports| + |warnings| == |raw|
  {
    errors, reports, warnings := [], [], [];
    for i := 0 to |raw|
      invariant forall f :: f in errors <==> f in raw[..i] && f.severity != Warning && f.key !in unresolved
      invariant forall f :: f in warnings <==> f in raw[..i] && f.severity == Warning
      invariant forall f :: f in reports <==> f.severity == Demoted && Suppressed(raw[..i], unresolved, f.key)
      invariant |errors| + |reports| + |warnings| == i
    {
      var finding := raw[i];
      assert raw[..i + 1] == raw[..i] + [finding];
      SuppressedMore(raw[..i], finding, unresolved);
      if finding.severity == Warning {
        warnings := warnings + [finding];
        continue;
      }
      if finding.key in unresolved {
        reports := reports + [Raw(finding.key, Demoted)];
      } else {
        errors := errors + [finding];
      }
    }
    assert raw[..|raw|] == raw;
  }

  /** Some finding of this key is no warning and listed. */
  ghost predicate Suppressed(raw: seq<Raw>, unresolved: set<Key>, k: Key)
  {
    k in unresolved && exists f :: f in raw && f.severity != Warning && f.key == k
  }

  lemma SuppressedMore(raw: seq<Raw>, finding: Raw, unresolved: set<Key>)
    ensures forall k :: Suppressed(raw + [finding], unresolved, k)
                   <==>
                   || Suppressed(raw, unresolved, k)
                   || (finding.key == k && k in unresolved && finding.severity != Warning)
  {
    assert finding in raw + [finding];
    forall k | Suppressed(raw, unresolved, k)
      ensures Suppressed(raw + [finding], unresolved, k)
    {
      var f :| f in raw && f.severity != Warning && f.key == k;
      assert f in raw + [finding];
    }
  }

  // ---------------------------------------------------------------------------
  // Raw findings
  // ---------------------------------------------------------------------------

  /** The key of some cycle finding. */
  ghost predicate IsCycleKey(edges: seq<DefersEdge>, cycles: set<seq<string>>, k: Key)
  {
    || (exists scope :: ScopeHasCycle(edges, scope) && k == ScopeKey(scope))
    || (exists c :: IsCyclicComponent(EdgeSet(edges), c) && c !in cycles && k == DocumentKey(c))
  }

  /** The findings of the scope components, then those of the document components, each once. */
  ghost predicate CycleFindingsOf(raw: seq<Raw>, scoped: seq<ScopeCycle>, unbaselined: seq<seq<string>>)
  {
    && |raw| == |scoped| + |unbaselined|
    && (forall i :: 0 <= i < |scoped| ==> raw[i] == Raw(ScopeKey(scoped[i].scope), Blocking))
    && (forall i :: 0 <= i < |unbaselined| ==> raw[|scoped| + i] == Raw(DocumentKey(unbaselined[i]), Blocking))
  }

  /** One blocking finding for each cyclic component of each scope and for each unbaselined document component. */
  method CycleFindings(edges: seq<DefersEdge>, cycles: set<seq<string>>)
    returns (raw: seq<Raw>, ghost scoped: seq<ScopeCycle>, ghost unbaselined: seq<seq<string>>)
    ensures Distinct(scoped)
    ensures forall f :: f in scoped <==> IsCyclicComponent(EdgeSet(ScopedTo(edges, f.scope)), f.component)
    ensures Distinct(unbaselined)
    ensures forall c :: c in unbaselined <==> IsCyclicComponent(EdgeSet(edges), c) && c !in cycles
    ensures CycleFindingsOf(raw, scoped, unbaselined)
    ensures forall f :: f in raw <==> f.severity == Blocking && IsCycleKey(edges, cycles, f.key)
  {
    hide ScopeHasCycle, IsCyclicComponent, Distinct, IsCycleKey, Join;
    var ofScopes := ScopeCycleFindings(edges);
    var ofDocuments, _ := DocumentCycleFindings(edges, cycles);
    scoped, unbaselined := ofScopes, ofDocuments;
    raw := [];
    for i := 0 to |ofScopes|
      invariant |raw| == i && forall k :: 0 <= k < i ==> raw[k] == Raw(ScopeKey(scoped[k].scope), Blocking)
    {
      raw := raw + [Raw(Key(SCOPE_CYCLE, CONCEPT, 0, ofScopes[i].scope), Blocking)];
    }
    for i := 0 to |ofDocuments|
      invariant |raw| == |scoped| + i
      invariant forall k :: 0 <= k < |scoped| ==> raw[k] == Raw(ScopeKey(scoped[k].scope), Blocking)
      invariant forall k :: 0 <= k < i ==> raw[|scoped| + k] == Raw(DocumentKey(unbaselined[k]), Blocking)
    {
      raw := raw + [Raw(Key(DOCUMENT_CYCLE, CONCEPT, 0, Join(",", ofDocuments[i])), Blocking)];
    }
    forall scope
      ensures ScopeHasCycle(edges, scope) <==> exists f :: f in scoped && f.scope == scope
    {
      ScopeReportedIffCyclic(edges, scoped, scope);
    }
    forall f: Raw
      ensures f in raw <==> f.severity == Blocking && IsCycleKey(edges, cycles, f.key)
    {
      RawInEither(raw, scoped, unbaselined, f);
      RawIffCycleKey(edges, cycles, scoped, unbaselined, f);
    }
  }

  lemma RawInEither(raw: seq<Raw>, scoped: seq<ScopeCycle>, unbaselined: seq<seq<string>>, f: Raw)
    requires CycleFindingsOf(raw, scoped, unbaselined)
    ensures f in raw <==>
            || (exists k :: 0 <= k < |scoped| && f == Raw(ScopeKey(scoped[k].scope), Blocking))
            || (exists k :: 0 <= k < |unbaselined| && f == Raw(DocumentKey(unbaselined[k]), Blocking))
  {
    hide ScopeKey, DocumentKey;
    if f in raw {
      var i :| 0 <= i < |raw| && raw[i] == f;
      assert i < |scoped| ==> f == Raw(ScopeKey(scoped[i].scope), Blocking);
      assert i >= |scoped| ==> raw[|scoped| + (i - |scoped|)] == Raw(DocumentKey(unbaselined[i - |scoped|]), Blocking);
    }
    if k :| 0 <= k < |scoped| && f == Raw(ScopeKey(scoped[k].scope), Blocking) {
      assert raw[k] == f;
    }
    if k :| 0 <= k < |unbaselined| && f == Raw(DocumentKey(unbaselined[k]), Blocking) {
      assert raw[|scoped| + k] == f;
    }
  }

  lemma RawIffCycleKey(edges: seq<DefersEdge>, cycles: set<seq<string>>, scoped: seq<ScopeCycle>,
          unbaselined: seq<seq<string>>, f: Raw)
    requires forall scope :: ScopeHasCycle(edges, scope) <==> exists g :: g in scoped && g.scope == scope
    requires forall c :: c in unbaselined <==> IsCyclicComponent(EdgeSet(edges), c) && c !in cycles
    ensures (exists k :: 0 <= k < |scoped| && f == Raw(ScopeKey(scoped[k].scope), Blocking))
         || (exists k :: 0 <= k < |unbaselined| && f == Raw(DocumentKey(unbaselined[k]), Blocking))
       <==> f.severity == Blocking && IsCycleKey(edges, cycles, f.key)
  {
    hide ScopeHasCycle, IsCyclicComponent, ScopeKey, DocumentKey;
    if k :| 0 <= k < |scoped| && f == Raw(ScopeKey(scoped[k].scope), Blocking) {
      assert scoped[k] in scoped && ScopeHasCycle(edges, scoped[k].scope);
    }
    if k :| 0 <= k < |unbaselined| && f == Raw(DocumentKey(unbaselined[k]), Blocking) {
      assert unbaselined[k] in unbaselined;
    }
    if scope :| ScopeHasCycle(edges, scope) && f.key == ScopeKey(scope) {
      var g :| g in scoped && g.scope == scope;
    }
    if c :| IsCyclicComponent(EdgeSet(edges), c) && c !in cycles && f.key == DocumentKey(c) {
      assert c in unbaselined;
    }
  }

  /** Some finding other than a stale entry has the key. */
  ghost predicate IsActive(scanned: seq<Raw>, edges: seq<DefersEdge>, cycles: set<seq<string>>, k: Key)
  {
    HasKey(scanned, k) || IsCycleKey(edges, cycles, k)
  }

  /** The stale keys: of listed references without a finding, and of listed cycles that are none. */
  ghost predicate IsStaleKey(scanned: seq<Raw>, edges: seq<DefersEdge>, unresolved: set<Key>, cycles: set<seq<string>>,
          baselineDoc: string, stale: Key)
  {
    || (exists k :: k in unresolved && !IsActive(scanned, edges, cycles, k) && stale == StaleKey(baselineDoc, k))
    || (exists c :: c in cycles && !IsCyclicComponent(EdgeSet(edges), c) && stale == StaleCycleKey(baselineDoc, c))
  }

  lemma StaleKeysAre(baselineDoc: string, k: Key, component: seq<string>)
    ensures StaleKey(baselineDoc, k)
         == Key(STALE, baselineDoc, 1, Join("|", [k.code, k.path, IntText(k.line), k.reference]))
    ensures StaleCycleKey(baselineDoc, component) == Key(STALE, baselineDoc, 1, Join(",", component))
  {
  }

  method StaleBaselineFindings(raw: seq<Raw>, edges: seq<DefersEdge>, unresolved: set<Key>, cycles: set<seq<string>>,
          baselineDoc: string, ghost scanned: seq<Raw>)
    returns (stale: seq<Raw>)
    requires forall k :: HasKey(raw, k) <==> IsActive(scanned, edges, cycles, k)
    ensures forall f :: f in stale <==>
            f.severity == Blocking && IsStaleKey(scanned, edges, unresolved, cycles, baselineDoc, f.key)
  {
    hide IsCyclicComponent, StaleKey, StaleCycleKey, IsActive, Join, IntText;
    var active := set f | f in raw :: f.key;
    assert forall k :: k in active <==> HasKey(raw, k);
    var staleCycles := StaleCycles(edges, cycles);
    var left := unresolved - active;
    ghost var done: set<Key> := {};
    stale := [];
    while left != {}
      invariant left !! done && left + done == unresolved - active
      invariant forall f :: f in stale <==> exists k :: k in done && f == Raw(StaleKey(baselineDoc, k), Blocking)
      decreases left
    {
      var k :| k in left;
      var entry := Join("|", [k.code, k.path, IntText(k.line), k.reference]);
      StaleKeysAre(baselineDoc, k, []);
      stale := stale + [Raw(Key(STALE, baselineDoc, 1, entry), Blocking)];
      left, done := left - {k}, done + {k};
    }
    ghost var entries := stale;
    for i := 0 to |staleCycles|
      invariant forall f :: f in stale <==>
                  || f in entries
                  || exists k :: 0 <= k < i && f == Raw(StaleCycleKey(baselineDoc, staleCycles[k]), Blocking)
    {
      StaleKeysAre(baselineDoc, Key("", "", 0, ""), staleCycles[i]);
      stale := stale + [Raw(Key(STALE, baselineDoc, 1, Join(",", staleCycles[i])), Blocking)];
    }
    forall f: Raw
      ensures f in stale <==>
              f.severity == Blocking && IsStaleKey(scanned, edges, unresolved, cycles, baselineDoc, f.key)
    {
      if c :| c in cycles && !IsCyclicComponent(EdgeSet(edges), c) && f.key == StaleCycleKey(baselineDoc, c) {
        assert c in staleCycles;
      }
    }
  }

  // ---------------------------------------------------------------------------
  // Stale entries cannot be hidden
  // ---------------------------------------------------------------------------

  /** Every listed key without a finding has its own stale key listed. */
  ghost predicate HidesItsStale(unresolved: set<Key>, raw: seq<Raw>, baselineDoc: string)
  {
    forall k :: k in unresolved && !HasKey(raw, k) ==> StaleKey(baselineDoc, k) in unresolved
  }

  lemma StaleKeyLonger(baselineDoc: string, k: Key)
    ensures |StaleKey(baselineDoc, k).reference| > |k.reference|
  {
    hide IntText, Join;
    var front := [k.code, k.path, IntText(k.line)];
    JoinSnoc("|", front, k.reference);
    assert front + [k.reference] == [k.code, k.path, IntText(k.line), k.reference];
  }

  /** One stale entry would need another one for its own finding, with a longer reference, and so on. */
  lemma {:induction false} StaleClimbs(unresolved: set<Key>, raw: seq<Raw>, baselineDoc: string, k: Key, n: nat)
    returns (j: Key)
    requires HidesItsStale(unresolved, raw, baselineDoc) && forall f :: f in raw ==> f.key.code != STALE
    requires k in unresolved && !HasKey(raw, k)
    ensures j in unresolved && !HasKey(raw, j) && |j.reference| >= n
  {
    if n == 0 {
      j := k;
    } else {
      var i := StaleClimbs(unresolved, raw, baselineDoc, k, n - 1);
      StaleKeyLonger(baselineDoc, i);
      j := StaleKey(baselineDoc, i);
      assert j.code == STALE;
    }
  }

  lemma {:induction false} LongestReference(keys: set<Key>) returns (bound: nat)
    ensures forall k :: k in keys ==> |k.reference| <= bound
    decreases keys
  {
    if keys == {} {
      bound := 0;
    } else {
      var k :| k in keys;
      var rest := LongestReference(keys - {k});
      bound := if rest > |k.reference| then rest else |k.reference|;
    }
  }

  /** A finite baseline cannot hide a stale entry: hiding all stale findings takes having none. */
  lemma StaleCannotBeHidden(unresolved: set<Key>, raw: seq<Raw>, baselineDoc: string)
    requires HidesItsStale(unresolved, raw, baselineDoc) && forall f :: f in raw ==> f.key.code != STALE
    ensures forall k :: k in unresolved ==> HasKey(raw, k)
  {
    hide StaleKey, HasKey, HidesItsStale;
    var bound := LongestReference(unresolved);
    forall k
      ensures k in unresolved ==> HasKey(raw, k)
    {
      if k in unresolved && !HasKey(raw, k) {
        var j := StaleClimbs(unresolved, raw, baselineDoc, k, bound + 1);
      }
    }
  }

  // ---------------------------------------------------------------------------
  // The verdict
  // ---------------------------------------------------------------------------

  /**
    What the two baselines must list: every error of the scan, every cyclic scope, every
    document cycle (as such or by its joined key) - and nothing that is not there.
   */
  ghost predicate Justified(scanned: seq<Raw>, edges: seq<DefersEdge>, unresolved: set<Key>, cycles: set<seq<string>>)
  {
    && (forall f :: f in scanned && f.severity != Warning ==> f.key in unresolved)
    && (forall scope :: ScopeHasCycle(edges, scope) ==> ScopeKey(scope) in unresolved)
    && (forall c :: IsCyclicComponent(EdgeSet(edges), c) ==> c in cycles || DocumentKey(c) in unresolved)
    && (forall k :: k in unresolved ==> IsActive(scanned, edges, cycles, k))
    && (forall c :: c in cycles ==> IsCyclicComponent(EdgeSet(edges), c))
  }

  /** The key of some finding that is no warning. */
  ghost predicate IsBlockingKey(scanned: seq<Raw>, edges: seq<DefersEdge>, unresolved: set<Key>,
          cycles: set<seq<string>>, baselineDoc: string, k: Key)
  {
    || (exists f :: f in scanned && f.severity != Warning && f.key == k)
    || IsCycleKey(edges, cycles, k)
    || IsStaleKey(scanned, edges, unresolved, cycles, baselineDoc, k)
  }

  /** The gate passes iff both baselines list all that must be listed and nothing stale. */
  method CycleGate(scanned: seq<Raw>, edges: seq<DefersEdge>, unresolved: set<Key>, cycles: set<seq<string>>,
          baselineDoc: string)
    returns (errors: seq<Raw>, reports: seq<Raw>, warnings: seq<Raw>)
    requires FromScan(scanned)
    ensures errors == [] <==> Justified(scanned, edges, unresolved, cycles)
    ensures forall k :: HasKey(errors, k) <==>
            IsBlockingKey(scanned, edges, unresolved, cycles, baselineDoc, k) && k !in unresolved
    ensures forall k :: HasKey(reports, k) <==>
            IsBlockingKey(scanned, edges, unresolved, cycles, baselineDoc, k) && k in unresolved
    ensures forall f :: f in warnings <==> f in scanned && f.severity == Warning
  {
    hide FromScan, Justified, IsCycleKey, IsStaleKey, HasKey, IsBlockingKey, Suppressed;
    var found, _, _ := CycleFindings(edges, cycles);
    var raw := scanned + found;
    ActiveKeys(scanned, found, edges, cycles);
    var stale := StaleBaselineFindings(raw, edges, unresolved, cycles, baselineDoc, scanned);
    errors, reports, warnings := ApplyUnresolvedBaseline(raw + stale, unresolved);
    NoErrorsIff(errors, raw + stale, unresolved);
    VerdictIff(scanned, found, stale, edges, unresolved, cycles, baselineDoc);
    forall k
      ensures HasKey(errors, k) <==>
              IsBlockingKey(scanned, edges, unresolved, cycles, baselineDoc, k) && k !in unresolved
      ensures HasKey(reports, k) <==>
              IsBlockingKey(scanned, edges, unresolved, cycles, baselineDoc, k) && k in unresolved
    {
      BlockingKeys(scanned, found, stale, edges, unresolved, cycles, baselineDoc, k);
      KeysSplit(errors, reports, raw + stale, unresolved, k);
    }
  }

  lemma ActiveKeys(scanned: seq<Raw>, found: seq<Raw>, edges: seq<DefersEdge>, cycles: set<seq<string>>)
    requires forall f :: f in found <==> f.severity == Blocking && IsCycleKey(edges, cycles, f.key)
    ensures forall k :: HasKey(scanned + found, k) <==> IsActive(scanned, edges, cycles, k)
  {
    hide IsCycleKey;
    forall k
      ensures HasKey(scanned + found, k) <==> IsActive(scanned, edges, cycles, k)
    {
      if f :| f in scanned && f.key == k {
        assert f in scanned + found;
      }
      if IsCycleKey(edges, cycles, k) {
        assert Raw(k, Blocking) in scanned + found;
      }
    }
  }

  lemma NoErrorsIff(errors: seq<Raw>, raw: seq<Raw>, unresolved: set<Key>)
    requires forall f :: f in errors <==> f in raw && f.severity != Warning && f.key !in unresolved
    ensures errors == [] <==> AllListed(raw, unresolved)
  {
    assert errors != [] ==> errors[0] in errors;
  }

  /** Every finding that is no warning is listed. */
  ghost predicate AllListed(raw: seq<Raw>, unresolved: set<Key>)
  {
    forall f :: f in raw && f.severity != Warning ==> f.key in unresolved
  }

  lemma BlockingKeys(scanned: seq<Raw>, found: seq<Raw>, stale: seq<Raw>, edges: seq<DefersEdge>, unresolved: set<Key>,
          cycles: set<seq<string>>, baselineDoc: string, k: Key)
    requires forall f :: f in found <==> f.severity == Blocking && IsCycleKey(edges, cycles, f.key)
    requires forall f :: f in stale <==>
             f.severity == Blocking && IsStaleKey(scanned, edges, unresolved, cycles, baselineDoc, f.key)
    ensures (exists f :: f in scanned + found + stale && f.severity != Warning && f.key == k)
       <==> IsBlockingKey(scanned, edges, unresolved, cycles, baselineDoc, k)
  {
    hide IsCycleKey, IsStaleKey;
    var all := scanned + found + stale;
    if f :| f in scanned && f.severity != Warning && f.key == k {
      assert f in all;
    }
    if IsCycleKey(edges, cycles, k) {
      assert Raw(k, Blocking) in all;
    }
    if IsStaleKey(scanned, edges, unresolved, cycles, baselineDoc, k) {
      assert Raw(k, Blocking) in all;
    }
  }

  lemma KeysSplit(errors: seq<Raw>, reports: seq<Raw>, raw: seq<Raw>, unresolved: set<Key>, k: Key)
    requires forall f :: f in errors <==> f in raw && f.severity != Warning && f.key !in unresolved
    requires forall f :: f in reports <==> f.severity == Demoted && Suppressed(raw, unresolved, f.key)
    ensures HasKey(errors, k) <==> k !in unresolved && exists f :: f in raw && f.severity != Warning && f.key == k
    ensures HasKey(reports, k) <==> k in unresolved && exists f :: f in raw && f.severity != Warning && f.key == k
  {
    if Suppressed(raw, unresolved, k) {
      assert Raw(k, Demoted) in reports;
    }
  }

  lemma CycleKeyCode(edges: seq<DefersEdge>, cycles: set<seq<string>>, k: Key)
    requires IsCycleKey(edges, cycles, k)
    ensures k.code != STALE
  {
    hide ScopeHasCycle, IsCyclicComponent;
    CodesDiffer();
  }

  lemma CodesDiffer()
    ensures SCOPE_CYCLE != STALE && DOCUMENT_CYCLE != STALE
  {
    assert SCOPE_CYCLE[1] != STALE[1] && DOCUMENT_CYCLE[0] != STALE[0];
  }

  lemma VerdictIff(scanned: seq<Raw>, found: seq<Raw>, stale: seq<Raw>, edges: seq<DefersEdge>, unresolved: set<Key>,
          cycles: set<seq<string>>, baselineDoc: string)
    requires FromScan(scanned)
    requires forall f :: f in found <==> f.severity == Blocking && IsCycleKey(edges, cycles, f.key)
    requires forall f :: f in stale <==>
             f.severity == Blocking && IsStaleKey(scanned, edges, unresolved, cycles, baselineDoc, f.key)
    ensures AllListed(scanned + found + stale, unresolved) <==> Justified(scanned, edges, unresolved, cycles)
  {
    hide FromScan, AllListed, Justified, IsCycleKey, IsStaleKey;
    if AllListed(scanned + found + stale, unresolved) {
      ListedIsJustified(scanned, found, stale, edges, unresolved, cycles, baselineDoc);
    }
    if Justified(scanned, edges, unresolved, cycles) {
      JustifiedIsListed(scanned, found, stale, edges, unresolved, cycles, baselineDoc);
    }
  }

  lemma JustifiedIsListed(scanned: seq<Raw>, found: seq<Raw>, stale: seq<Raw>, edges: seq<DefersEdge>,
          unresolved: set<Key>, cycles: set<seq<string>>, baselineDoc: string)
    requires forall f :: f in found <==> f.severity == Blocking && IsCycleKey(edges, cycles, f.key)
    requires forall f :: f in stale <==>
             f.severity == Blocking && IsStaleKey(scanned, edges, unresolved, cycles, baselineDoc, f.key)
    requires Justified(scanned, edges, unresolved, cycles)
    ensures AllListed(scanned + found + stale, unresolved)
  {
    hide ScopeHasCycle, IsCyclicComponent, ScopeKey, DocumentKey, StaleKey, StaleCycleKey, IsActive;
    assert forall k :: !IsStaleKey(scanned, edges, unresolved, cycles, baselineDoc, k);
  }

  lemma ListedIsJustified(scanned: seq<Raw>, found: seq<Raw>, stale: seq<Raw>, edges: seq<DefersEdge>,
          unresolved: set<Key>, cycles: set<seq<string>>, baselineDoc: string)
    requires FromScan(scanned)
    requires forall f :: f in found <==> f.severity == Blocking && IsCycleKey(edges, cycles, f.key)
    requires forall f :: f in stale <==>
             f.severity == Blocking && IsStaleKey(scanned, edges, unresolved, cycles, baselineDoc, f.key)
    requires AllListed(scanned + found + stale, unresolved)
    ensures Justified(scanned, edges, unresolved, cycles)
  {
    hide ScopeHasCycle, IsCyclicComponent, IsCycleKey, IsStaleKey, IsActive;
    ActiveKeys(scanned, found, edges, cycles);
    CyclesListed(found, edges, unresolved, cycles);
    forall f | f in scanned + found
      ensures f.key.code != STALE
    {
      if f in found {
        CycleKeyCode(edges, cycles, f.key);
      }
    }
    forall k | k in unresolved && !HasKey(scanned + found, k)
      ensures StaleKey(baselineDoc, k) in unresolved
    {
      StaleReferenceListed(scanned, stale, edges, unresolved, cycles, baselineDoc, k);
    }
    StaleCannotBeHidden(unresolved, scanned + found, baselineDoc);
    forall c | c in cycles
      ensures IsCyclicComponent(EdgeSet(edges), c)
    {
      StaleCycleListed(scanned, stale, edges, unresolved, cycles, baselineDoc, c);
    }
  }

  lemma CyclesListed(found: seq<Raw>, edges: seq<DefersEdge>, unresolved: set<Key>, cycles: set<seq<string>>)
    requires forall f :: f in found <==> f.severity == Blocking && IsCycleKey(edges, cycles, f.key)
    requires AllListed(found, unresolved)
    ensures forall scope :: ScopeHasCycle(edges, scope) ==> ScopeKey(scope) in unresolved
    ensures forall c :: IsCyclicComponent(EdgeSet(edges), c) ==> c in cycles || DocumentKey(c) in unresolved
  {
    hide ScopeHasCycle, IsCyclicComponent, ScopeKey, DocumentKey;
    forall scope | ScopeHasCycle(edges, scope)
      ensures ScopeKey(scope) in unresolved
    {
      assert Raw(ScopeKey(scope), Blocking) in found;
    }
    forall c | IsCyclicComponent(EdgeSet(edges), c) && c !in cycles
      ensures DocumentKey(c) in unresolved
    {
      assert Raw(DocumentKey(c), Blocking) in found;
    }
  }

  lemma StaleReferenceListed(scanned: seq<Raw>, stale: seq<Raw>, edges: seq<DefersEdge>, unresolved: set<Key>,
          cycles: set<seq<string>>, baselineDoc: string, k: Key)
    requires forall f :: f in stale <==>
             f.severity == Blocking && IsStaleKey(scanned, edges, unresolved, cycles, baselineDoc, f.key)
    requires AllListed(stale, unresolved) && k in unresolved && !IsActive(scanned, edges, cycles, k)
    ensures StaleKey(baselineDoc, k) in unresolved
  {
    hide IsActive, StaleKey, StaleCycleKey, IsCyclicComponent;
    assert Raw(StaleKey(baselineDoc, k), Blocking) in stale;
  }

  lemma StaleCycleListed(scanned: seq<Raw>, stale: seq<Raw>, edges: seq<DefersEdge>, unresolved: set<Key>,
          cycles: set<seq<string>>, baselineDoc: string, c: seq<string>)
    requires forall f :: f in stale <==>
             f.severity == Blocking && IsStaleKey(scanned, edges, unresolved, cycles, baselineDoc, f.key)
    requires AllListed(stale, unresolved) && c in cycles
    ensures IsCyclicComponent(EdgeSet(edges), c) || StaleCycleKey(baselineDoc, c) in unresolved
  {
    hide IsActive, StaleKey, StaleCycleKey, IsCyclicComponent;
    if !IsCyclicComponent(EdgeSet(edges), c) {
      assert Raw(StaleCycleKey(baselineDoc, c), Blocking) in stale;
    }
  }

  // ---------------------------------------------------------------------------
  // What passing says about cycles
  // ---------------------------------------------------------------------------

  /** With no cycle finding listed by key, passing means that no scope is cyclic and the cycle baseline is exact. */
  lemma WithoutListedCycles(scanned: seq<Raw>, edges: seq<DefersEdge>, unresolved: set<Key>, cycles: set<seq<string>>)
    requires Justified(scanned, edges, unresolved, cycles)
    requires forall k :: k in unresolved ==> k.code != SCOPE_CYCLE && k.code != DOCUMENT_CYCLE
    ensures forall scope :: !ScopeHasCycle(edges, scope)
    ensures forall c :: c in cycles <==> IsCyclicComponent(EdgeSet(edges), c)
  {
    hide ScopeHasCycle, IsCyclicComponent, IsActive;
  }

  /** The loader refuses cycle entries of fewer than two documents. */
  ghost predicate FromCycleBaseline(cycles: set<seq<string>>)
  {
    forall c :: c in cycles ==> |c| >= 2
  }

  /**
    A cyclic scope passes once its key is listed: whatever document defers to itself in whatever
    scope, the two keys of its findings are enough, and both baselines are what a loader accepts.
   */
  lemma CyclicScopePasses(e: DefersEdge)
    requires e.source == e.target && e.scope.Scoped?
    ensures ScopeHasCycle([e], e.scope.name) && FromCycleBaseline({})
    ensures Justified([], [e], {ScopeKey(e.scope.name), DocumentKey([e.source])}, {})
  {
    hide ScopeKey, DocumentKey, IsCyclicComponent;
    var v, scope := e.source, e.scope.name;
    assert [e][1..] == [] && ScopedTo([e], scope) == [e];
    assert e in [e] && EdgeSet([e]) == {(v, v)};
    SelfLoopOnly(v);
    forall other | ScopeHasCycle([e], other)
      ensures other == scope
    {
      OtherScopeEmpty([e], scope, other);
    }
    assert IsCycleKey([e], {}, ScopeKey(scope));
    assert IsCyclicComponent(EdgeSet([e]), [v]) && [v] !in {};
    assert IsCycleKey([e], {}, DocumentKey([v]));
  }

  /** A document that defers to itself alone can only be justified by key, never as a cycle. */
  lemma SelfLoopNeedsKey(scanned: seq<Raw>, edges: seq<DefersEdge>, unresolved: set<Key>, cycles: set<seq<string>>,
          v: string)
    requires FromCycleBaseline(cycles) && Justified(scanned, edges, unresolved, cycles)
    requires IsCyclicComponent(EdgeSet(edges), [v])
    ensures DocumentKey([v]) in unresolved
  {
    hide IsCyclicComponent, DocumentKey;
    assert [v] !in cycles;
  }

  lemma OtherScopeEmpty(edges: seq<DefersEdge>, scope: string, other: string)
    requires forall e :: e in edges ==> e.scope == Scoped(scope)
    requires ScopeHasCycle(edges, other)
    ensures other == scope
  {
    var E := EdgeSet(ScopedTo(edges, other));
    var v :| OnCycle(E, v);
    var m := FirstStep(E, v, v);
    assert exists e :: e in ScopedTo(edges, other);
  }

  /** A single self-loop is its own only cyclic component. */
  lemma SelfLoopOnly(a: string)
    ensures var E := {(a, a)};
            OnCycle(E, a) && forall c :: IsCyclicComponent(E, c) <==> c == [a]
  {
    var E := {(a, a)};
    ReachEdge(E, a, a);
    forall v | OnCycle(E, v)
      ensures v == a
    {
      var m := FirstStep(E, v, v);
    }
    forall d | IsCyclicComponent(E, d)
      ensures d == [a]
    {
      forall v | v in d
        ensures v == a
      {
        assert d[0] in d && Mutual(E, d[0], v);
        ReachCases(E, d[0], v);
        if v != a {
          var m := LastStep(E, d[0], v);
        }
      }
      OnlyOne(a, d);
    }
    ComponentExists(E, a);
    var c :| IsCyclicComponent(E, c) && a in c;
  }

  lemma OnlyOne(a: string, d: seq<string>)
    requires d != [] && Distinct(d) && forall v :: v in d ==> v == a
    ensures d == [a]
  {
    assert |d| > 1 ==> d[0] != d[1];
    forall i | 0 <= i < |d|
      ensures d[i] == a
    {
      assert d[i] in d;
    }
  }
}
