/**
  Flow-insensitive provenance of process APIs: which library names a call target may stand
  for, over lexical scopes with imports, aliases and other bindings.
 */
module Provenance {
  import opened Options
  import opened Ordering
  import opened Texts

  /** An expression node with the scope it occurs in. */
  datatype Expr = Name(id: string, scope: nat) | Attribute(value: Expr, attr: string, scope: nat) | Other(scope: nat)

  datatype ScopeBindings = ScopeBindings(imports: map<string, seq<string>>, aliases: map<string, seq<Expr>>,
    rebindings: map<string, nat>)

  /** Scopes are numbered in the order they were entered, so a parent has a smaller number. */
  datatype Inventory = Inventory(bindings: seq<ScopeBindings>, parents: seq<Option<nat>>, apis: set<string>)

  type Key = (nat, string)

  /** Root name and dotted rest of a plain attribute chain, with the scope of the whole node. */
  function AttributePath(e: Expr): Option<(string, string)>
  {
    match e
    case Attribute(value, attr, _) =>
      (match value
       case Name(id, _) => Some((id, attr))
       case _ =>
         var inner := AttributePath(value);
         if inner.None? then None else Some((inner.value.0, inner.value.1 + "." + attr)))
    case _ => None
  }

  /** The expression is the name `root` followed by the attributes, one after the other. */
  ghost predicate IsPlainChain(e: Expr, root: string, attrs: seq<string>)
    decreases e
  {
    match e
    case Name(id, _) => id == root && attrs == []
    case Attribute(value, attr, _) =>
      attrs != [] && attrs[|attrs| - 1] == attr && IsPlainChain(value, root, attrs[..|attrs| - 1])
    case Other(_) => false
  }

  /** The attributes of a plain chain, in the order they are written; none if there is anything else. */
  lemma {:induction false} PathOfChain(e: Expr) returns (attrs: seq<string>)
    ensures var path := AttributePath(e);
            && (path.Some? ==>
                 attrs != [] && IsPlainChain(e, path.value.0, attrs) && path.value.1 == Join(".", attrs))
            && (path.None? ==> forall root, names :: IsPlainChain(e, root, names) ==> names == [])
    decreases e
  {
    hide Join;
    attrs := [];
    match e
    case Attribute(value, attr, _) =>
      if value.Name? {
        attrs := [attr];
        JoinOne(".", attr);
        assert [attr][..0] == [];
      } else {
        var inner := PathOfChain(value);
        if AttributePath(value).Some? {
          attrs := inner + [attr];
          JoinSnoc(".", inner, attr);
          assert attrs[..|inner|] == inner;
        } else {
          NotAName(value);
        }
      }
    case _ =>
  }

  lemma NotAName(e: Expr)
    requires !e.Name?
    ensures forall root :: !IsPlainChain(e, root, [])
  {
  }

  /** The name a lookup of the expression starts from. */
  ghost function RootKey(e: Expr): Option<Key>
  {
    match e
    case Name(id, scope) => Some((scope, id))
    case _ =>
      var path := AttributePath(e);
      if path.None? then None else Some((e.scope, path.value.0))
  }

  ghost predicate WellFormed(inv: Inventory)
  {
    && |inv.bindings| == |inv.parents|
    && (forall s :: 0 <= s < |inv.parents| && inv.parents[s].Some? ==> inv.parents[s].value < s)
    && (forall s, n, e :: 0 <= s < |inv.bindings| && n in inv.bindings[s].aliases && e in inv.bindings[s].aliases[n] ==>
         e.scope < |inv.bindings|)
  }

  /** A set that holds the root of every alias; it bounds the lookups. */
  ghost predicate Bounds(inv: Inventory, universe: set<Key>)
  {
    forall s, n, e ::
      0 <= s < |inv.bindings| && n in inv.bindings[s].aliases && e in inv.bindings[s].aliases[n] && RootKey(e).Some? ==>
        RootKey(e).value in universe
  }

  /** The origin names a module or a prefix of a process API. */
  predicate Passes(inv: Inventory, origin: string)
  {
    exists api :: api in inv.apis && origin + "." <= api
  }

  // ---------------------------------------------------------------------------
  // All bindings of a name
  // ---------------------------------------------------------------------------

  datatype Binding = Imported(origin: string) | Aliased(expr: Expr) | Rebound

  function Gets<V>(m: map<string, seq<V>>, name: string): seq<V>
  {
    if name in m then m[name] else []
  }

  function Count(m: map<string, nat>, name: string): nat
  {
    if name in m then m[name] else 0
  }

  function LocalBindings(b: ScopeBindings, name: string): seq<Binding>
  {
    var imported, aliases := Gets(b.imports, name), Gets(b.aliases, name);
    seq(|imported|, i requires 0 <= i < |imported| => Imported(imported[i]))
    + seq(|aliases|, i requires 0 <= i < |aliases| => Aliased(aliases[i]))
    + seq(Count(b.rebindings, name), i => Rebound)
  }

  /** The bindings of a name in a scope and all scopes around it. */
  function BindingsOf(inv: Inventory, name: string, scope: nat): seq<Binding>
    requires WellFormed(inv) && scope < |inv.bindings|
    decreases scope
  {
    LocalBindings(inv.bindings[scope], name)
    + if inv.parents[scope].None? then [] else BindingsOf(inv, name, inv.parents[scope].value)
  }

  // ---------------------------------------------------------------------------
  // The bindings of the inventory
  // ---------------------------------------------------------------------------

  /** The scope and the scopes around it, from the inside out. */
  ghost function Around(inv: Inventory, scope: nat): (r: seq<nat>)
    requires WellFormed(inv) && scope < |inv.bindings|
    ensures r != [] && forall i :: 0 <= i < |r| ==> r[i] < |inv.bindings|
    decreases scope
  {
    [scope] + if inv.parents[scope].None? then [] else Around(inv, inv.parents[scope].value)
  }

  /** How often a scope binds the name by an import, by an alias and otherwise. */
  ghost function BoundIn(b: ScopeBindings, name: string): nat
  {
    (if name in b.imports then |b.imports[name]| else 0)
    + (if name in b.aliases then |b.aliases[name]| else 0)
    + (if name in b.rebindings then b.rebindings[name] else 0)
  }

  ghost function BoundInAll(inv: Inventory, name: string, scopes: seq<nat>): nat
    requires forall i :: 0 <= i < |scopes| ==> scopes[i] < |inv.bindings|
  {
    if scopes == [] then 0 else BoundIn(inv.bindings[scopes[0]], name) + BoundInAll(inv, name, scopes[1..])
  }

  /** The origin is imported under the name in one of the scopes. */
  ghost predicate ImportedAround(inv: Inventory, name: string, scopes: seq<nat>, origin: string)
  {
    exists s ::
      s in scopes && s < |inv.bindings| && name in inv.bindings[s].imports && origin in inv.bindings[s].imports[name]
  }

  ghost predicate AliasedAround(inv: Inventory, name: string, scopes: seq<nat>, e: Expr)
  {
    exists s ::
      s in scopes && s < |inv.bindings| && name in inv.bindings[s].aliases && e in inv.bindings[s].aliases[name]
  }

  ghost predicate ReboundAround(inv: Inventory, name: string, scopes: seq<nat>)
  {
    exists s ::
      s in scopes && s < |inv.bindings| && name in inv.bindings[s].rebindings && inv.bindings[s].rebindings[name] > 0
  }

  lemma LocalBindingsAre(b: ScopeBindings, name: string)
    ensures var r := LocalBindings(b, name);
            && |r| == BoundIn(b, name)
            && (forall o :: Imported(o) in r <==> name in b.imports && o in b.imports[name])
            && (forall e :: Aliased(e) in r <==> name in b.aliases && e in b.aliases[name])
            && (Rebound in r <==> name in b.rebindings && b.rebindings[name] > 0)
  {
    var r := LocalBindings(b, name);
    var imported, aliases, n := Gets(b.imports, name), Gets(b.aliases, name), Count(b.rebindings, name);
    forall o
      ensures Imported(o) in r <==> o in imported
    {
      if o in imported {
        var i :| 0 <= i < |imported| && imported[i] == o;
        assert r[i] == Imported(o);
      }
    }
    forall e
      ensures Aliased(e) in r <==> e in aliases
    {
      if e in aliases {
        var i :| 0 <= i < |aliases| && aliases[i] == e;
        assert r[|imported| + i] == Aliased(e);
      }
    }
    assert n > 0 ==> r[|imported| + |aliases|] == Rebound;
  }

  /**
    The bindings found for a name are those of the inventory: as many as the scopes outwards hold
    together, and exactly their imports, aliases and rebindings.
   */
  lemma {:induction false} BindingsAre(inv: Inventory, name: string, scope: nat)
    requires WellFormed(inv) && scope < |inv.bindings|
    ensures var r, scopes := BindingsOf(inv, name, scope), Around(inv, scope);
            && |r| == BoundInAll(inv, name, scopes)
            && (forall o :: Imported(o) in r <==> ImportedAround(inv, name, scopes, o))
            && (forall e :: Aliased(e) in r <==> AliasedAround(inv, name, scopes, e))
            && (Rebound in r <==> ReboundAround(inv, name, scopes))
    decreases scope
  {
    hide LocalBindings, BoundIn;
    LocalBindingsAre(inv.bindings[scope], name);
    var scopes := Around(inv, scope);
    assert scopes[0] == scope && scope in scopes;
    if inv.parents[scope].None? {
      assert scopes[1..] == [];
    } else {
      BindingsAre(inv, name, inv.parents[scope].value);
      var outer := Around(inv, inv.parents[scope].value);
      assert scopes == [scope] + outer && scopes[1..] == outer;
      assert forall s :: s in scopes <==> s == scope || s in outer;
    }
  }

  ghost predicate InBounds(inv: Inventory, b: Binding, universe: set<Key>)
  {
    b.Aliased? ==> b.expr.scope < |inv.bindings| && (RootKey(b.expr).Some? ==> RootKey(b.expr).value in universe)
  }

  lemma {:induction false} BindingsInBounds(inv: Inventory, name: string, scope: nat, universe: set<Key>)
    requires WellFormed(inv) && Bounds(inv, universe) && scope < |inv.bindings|
    ensures forall b :: b in BindingsOf(inv, name, scope) ==> InBounds(inv, b, universe)
    decreases scope
  {
    if inv.parents[scope].Some? {
      BindingsInBounds(inv, name, inv.parents[scope].value, universe);
    }
  }

  // ---------------------------------------------------------------------------
  // What the resolution computes
  // ---------------------------------------------------------------------------

  /** Possible origins, and whether the answer is uncertain. */
  datatype Origins = Origins(names: set<string>, uncertain: bool)

  function Qualified(inv: Inventory, roots: set<string>, suffix: string): set<string>
  {
    set o | o in roots && Passes(inv, o) :: o + "." + suffix
  }

  function OriginsForName(inv: Inventory, name: string, scope: nat, seen: set<Key>, ghost universe: set<Key>): Origins
    requires WellFormed(inv) && Bounds(inv, universe) && scope < |inv.bindings| && (scope, name) in universe
    decreases |universe - seen|, 0
  {
    var key := (scope, name);
    if key in seen then Origins({}, true)
    else
      var bindings := BindingsOf(inv, name, scope);
      BindingsInBounds(inv, name, scope, universe);
      LookupShrinks(universe, seen, key);
      var r := OriginsForAll(inv, bindings, seen + {key}, universe);
      Origins(r.names, r.uncertain || |bindings| != 1)
  }

  function OriginsForExpression(inv: Inventory, e: Expr, seen: set<Key>, ghost universe: set<Key>): Origins
    requires WellFormed(inv) && Bounds(inv, universe) && e.scope < |inv.bindings|
    requires RootKey(e).Some? ==> RootKey(e).value in universe
    decreases |universe - seen|, 1
  {
    if e.Name? then OriginsForName(inv, e.id, e.scope, seen, universe)
    else
      var path := AttributePath(e);
      if path.None? then Origins({}, false)
      else
        var roots := OriginsForName(inv, path.value.0, e.scope, seen, universe);
        Origins(Qualified(inv, roots.names, path.value.1), roots.uncertain)
  }

  function OriginsForBinding(inv: Inventory, b: Binding, seen: set<Key>, ghost universe: set<Key>): Origins
    requires WellFormed(inv) && Bounds(inv, universe) && InBounds(inv, b, universe)
    decreases |universe - seen|, 2
  {
    match b
    case Imported(origin) => Origins({origin}, false)
    case Rebound => Origins({}, true)
    case Aliased(e) =>
      var r := OriginsForExpression(inv, e, seen, universe);
      Origins(r.names, r.uncertain || r.names == {})
  }

  function OriginsForAll(inv: Inventory, bindings: seq<Binding>, seen: set<Key>, ghost universe: set<Key>): Origins
    requires WellFormed(inv) && Bounds(inv, universe) && forall b :: b in bindings ==> InBounds(inv, b, universe)
    decreases |universe - seen|, 3, |bindings|
  {
    if bindings == [] then Origins({}, false)
    else
      var rest := OriginsForAll(inv, bindings[..|bindings| - 1], seen, universe);
      var last := OriginsForBinding(inv, bindings[|bindings| - 1], seen, universe);
      Origins(rest.names + last.names, rest.uncertain || last.uncertain)
  }

  lemma LookupShrinks(universe: set<Key>, seen: set<Key>, key: Key)
    requires key in universe && key !in seen
    ensures |universe - (seen + {key})| < |universe - seen|
  {
    assert universe - (seen + {key}) == (universe - seen) - {key};
  }

  // ---------------------------------------------------------------------------
  // Certainty
  // ---------------------------------------------------------------------------

  /** One binding that sends the lookup on to the next key. */
  ghost predicate SendsOn(inv: Inventory, from: Key, to: Key)
    requires WellFormed(inv)
  {
    from.0 < |inv.bindings| && exists e :: BindingsOf(inv, from.1, from.0) == [Aliased(e)] && RootKey(e) == Some(to)
  }

  /** Distinct names, each with exactly one binding around it: aliases along the way, an import at the end. */
  ghost predicate AliasChain(inv: Inventory, chain: seq<Key>)
    requires WellFormed(inv)
  {
    && chain != [] && Distinct(chain)
    && (forall i, j {:trigger chain[i], chain[j]} :: 0 <= i && j == i + 1 && j < |chain| ==>
         SendsOn(inv, chain[i], chain[j]))
    && var last := chain[|chain| - 1];
       last.0 < |inv.bindings| && exists o :: BindingsOf(inv, last.1, last.0) == [Imported(o)]
  }

  /** The one origin an alias gives, from the one origin of its root. */
  ghost function Extend(inv: Inventory, e: Expr, base: string): Option<string>
  {
    match e
    case Name(_, _) => Some(base)
    case _ =>
      var path := AttributePath(e);
      if path.Some? && exists api :: api in inv.apis && base + "." <= api then Some(base + "." + path.value.1)
      else None
  }

  /** The origin at the head of a chain, carried back from its import. */
  ghost function OriginAlong(inv: Inventory, chain: seq<Key>): Option<string>
    requires WellFormed(inv)
    decreases |chain|
  {
    if chain == [] || chain[0].0 >= |inv.bindings| then None
    else
      var bindings := BindingsOf(inv, chain[0].1, chain[0].0);
      if |bindings| != 1 then None
      else
        match bindings[0]
        case Imported(o) => Some(o)
        case Rebound => None
        case Aliased(e) =>
          var base := OriginAlong(inv, chain[1..]);
          if base.None? then None else Extend(inv, e, base.value)
  }

  ghost predicate CertainBy(inv: Inventory, name: string, scope: nat, seen: set<Key>, chain: seq<Key>, origin: string)
    requires WellFormed(inv)
  {
    && AliasChain(inv, chain) && chain[0] == (scope, name)
    && (forall i :: 0 <= i < |chain| ==> chain[i] !in seen)
    && OriginAlong(inv, chain) == Some(origin)
  }

  lemma AllOfOne(inv: Inventory, b: Binding, seen: set<Key>, universe: set<Key>)
    requires WellFormed(inv) && Bounds(inv, universe) && InBounds(inv, b, universe)
    ensures OriginsForAll(inv, [b], seen, universe) == OriginsForBinding(inv, b, seen, universe)
  {
    assert [b][..0] == [];
    assert OriginsForAll(inv, [], seen, universe) == Origins({}, false);
  }

  lemma QualifiedOne(inv: Inventory, base: string, suffix: string)
    ensures Qualified(inv, {base}, suffix) == if Passes(inv, base) then {base + "." + suffix} else {}
  {
  }

  /** A single alias is certain iff its root is, and the origin can be carried over. */
  lemma AliasCarries(inv: Inventory, e: Expr, seen: set<Key>, universe: set<Key>, base: string)
    requires WellFormed(inv) && Bounds(inv, universe) && InBounds(inv, Aliased(e), universe) && RootKey(e).Some?
    requires OriginsForName(inv, RootKey(e).value.1, RootKey(e).value.0, seen, universe) == Origins({base}, false)
    ensures var r := OriginsForBinding(inv, Aliased(e), seen, universe);
            if Extend(inv, e, base).Some? then r == Origins({Extend(inv, e, base).value}, false) else r.uncertain
  {
    if !e.Name? {
      QualifiedOne(inv, base, AttributePath(e).value.1);
    }
  }

  /** A name with one binding has the origins of that binding. */
  lemma NameOfOne(inv: Inventory, name: string, scope: nat, b: Binding, seen: set<Key>, universe: set<Key>)
    requires WellFormed(inv) && Bounds(inv, universe) && scope < |inv.bindings| && (scope, name) in universe
    requires (scope, name) !in seen && BindingsOf(inv, name, scope) == [b]
    ensures InBounds(inv, b, universe)
    ensures OriginsForName(inv, name, scope, seen, universe)
         == OriginsForBinding(inv, b, seen + {(scope, name)}, universe)
  {
    hide Bounds, OriginsForBinding, OriginsForAll, InBounds, BindingsOf;
    BindingsInBounds(inv, name, scope, universe);
    assert b in BindingsOf(inv, name, scope);
    AllOfOne(inv, b, seen + {(scope, name)}, universe);
  }

  /** Along a chain the resolution is certain and finds the chain's origin. */
  lemma {:induction false} ChainIsCertain(inv: Inventory, name: string, scope: nat, seen: set<Key>, universe: set<Key>,
          chain: seq<Key>, origin: string)
    requires WellFormed(inv) && Bounds(inv, universe) && scope < |inv.bindings| && (scope, name) in universe
    requires CertainBy(inv, name, scope, seen, chain, origin)
    ensures OriginsForName(inv, name, scope, seen, universe) == Origins({origin}, false)
    decreases |chain|
  {
    hide Bounds, Extend, OriginsForName, OriginsForExpression, OriginsForAll, BindingsOf, RootKey;
    var b := BindingsOf(inv, name, scope)[0];
    assert (scope, name) !in seen;
    assert BindingsOf(inv, name, scope) == [b];
    NameOfOne(inv, name, scope, b, seen, universe);
    if |chain| > 1 {
      assert SendsOn(inv, chain[0], chain[1]);
      var e := b.expr;
      TailIsChain(inv, chain);
      var base := OriginAlong(inv, chain[1..]).value;
      assert CertainBy(inv, chain[1].1, chain[1].0, seen + {chain[0]}, chain[1..], base);
      ChainIsCertain(inv, chain[1].1, chain[1].0, seen + {chain[0]}, universe, chain[1..], base);
      AliasCarries(inv, e, seen + {chain[0]}, universe, base);
    }
  }

  lemma SendsOnInside(inv: Inventory, from: Key, to: Key)
    requires WellFormed(inv) && SendsOn(inv, from, to)
    ensures from.0 < |inv.bindings|
  {
  }

  lemma TailIsChain(inv: Inventory, chain: seq<Key>)
    requires WellFormed(inv) && AliasChain(inv, chain) && |chain| > 1
    ensures AliasChain(inv, chain[1..])
    ensures chain[1].0 < |inv.bindings|
    ensures forall i :: 0 <= i < |chain[1..]| ==> chain[1..][i] != chain[0]
  {
    hide SendsOn, BindingsOf;
    var rest := chain[1..];
    forall i, j | 0 <= i && j == i + 1 && j < |rest|
      ensures SendsOn(inv, rest[i], rest[j])
    {
      assert SendsOn(inv, chain[i + 1], chain[j + 1]);
    }
    assert rest[|rest| - 1] == chain[|chain| - 1];
    if |chain| > 2 {
      SendsOnInside(inv, chain[1], chain[2]);
    }
  }

  /** A certain resolution comes from a chain. */
  lemma {:induction false} CertainHasChain(inv: Inventory, name: string, scope: nat, seen: set<Key>, universe: set<Key>)
    returns (chain: seq<Key>, origin: string)
    requires WellFormed(inv) && Bounds(inv, universe) && scope < |inv.bindings| && (scope, name) in universe
    requires !OriginsForName(inv, name, scope, seen, universe).uncertain
    ensures CertainBy(inv, name, scope, seen, chain, origin)
    ensures OriginsForName(inv, name, scope, seen, universe) == Origins({origin}, false)
    decreases |universe - seen|
  {
    hide Bounds, Extend, CertainBy;
    var key := (scope, name);
    var bindings := BindingsOf(inv, name, scope);
    BindingsInBounds(inv, name, scope, universe);
    LookupShrinks(universe, seen, key);
    var b := bindings[0];
    assert bindings == [b] && b in bindings;
    AllOfOne(inv, b, seen + {key}, universe);
    match b
    case Imported(o) =>
      chain, origin := [key], o;
      ImportEnds(inv, key, o, seen);
    case Rebound =>
      assert false;
    case Aliased(e) =>
      var to := RootKey(e).value;
      var rest, base := CertainHasChain(inv, to.1, to.0, seen + {key}, universe);
      AliasCarries(inv, e, seen + {key}, universe, base);
      chain, origin := [key] + rest, Extend(inv, e, base).value;
      ChainGrows(inv, key, e, seen, rest, base, origin);
  }

  lemma ImportEnds(inv: Inventory, key: Key, o: string, seen: set<Key>)
    requires WellFormed(inv) && key.0 < |inv.bindings| && BindingsOf(inv, key.1, key.0) == [Imported(o)] && key !in seen
    ensures CertainBy(inv, key.1, key.0, seen, [key], o)
  {
  }

  lemma ChainGrows(inv: Inventory, key: Key, e: Expr, seen: set<Key>, rest: seq<Key>, base: string, origin: string)
    requires WellFormed(inv) && key.0 < |inv.bindings| && BindingsOf(inv, key.1, key.0) == [Aliased(e)]
    requires RootKey(e).Some? && var to := RootKey(e).value; CertainBy(inv, to.1, to.0, seen + {key}, rest, base)
    requires key !in seen && Extend(inv, e, base) == Some(origin)
    ensures CertainBy(inv, key.1, key.0, seen, [key] + rest, origin)
  {
    hide AliasChain, Extend, BindingsOf;
    var chain := [key] + rest;
    ChainNotEmpty(inv, rest);
    PrependChain(inv, key, e, rest);
    assert chain[1..] == rest;
  }

  lemma ChainNotEmpty(inv: Inventory, chain: seq<Key>)
    requires WellFormed(inv) && AliasChain(inv, chain)
    ensures chain != []
  {
  }

  lemma PrependChain(inv: Inventory, key: Key, e: Expr, rest: seq<Key>)
    requires WellFormed(inv) && AliasChain(inv, rest) && key.0 < |inv.bindings|
    requires BindingsOf(inv, key.1, key.0) == [Aliased(e)] && RootKey(e) == Some(rest[0])
    requires forall i :: 0 <= i < |rest| ==> rest[i] != key
    ensures AliasChain(inv, [key] + rest)
  {
    var chain := [key] + rest;
    forall i, j | 0 <= i && j == i + 1 && j < |chain|
      ensures SendsOn(inv, chain[i], chain[j])
    {
      if i > 0 {
        assert SendsOn(inv, rest[i - 1], rest[j - 1]);
      }
    }
  }

  // ---------------------------------------------------------------------------
  // Every origin is derivable
  // ---------------------------------------------------------------------------

  /** A finite chain of bindings: which binding is used for a name, and how its root was derived. */
  datatype Derivation = FromImport(index: nat) | FromAlias(index: nat, root: Derivation)

  /** The derivation shows that the name may stand for the origin, and looks up no name twice. */
  ghost predicate Derives(inv: Inventory, name: string, scope: nat, seen: set<Key>, d: Derivation, origin: string)
    requires WellFormed(inv)
    decreases d
  {
    && scope < |inv.bindings| && (scope, name) !in seen
    && var bindings := BindingsOf(inv, name, scope);
       match d
       case FromImport(i) => i < |bindings| && bindings[i] == Imported(origin)
       case FromAlias(i, root) =>
         && i < |bindings| && bindings[i].Aliased? && RootKey(bindings[i].expr).Some?
         && exists base ::
              Derives(inv, RootKey(bindings[i].expr).value.1, RootKey(bindings[i].expr).value.0, seen + {(scope, name)},
              root, base)
                           && Extend(inv, bindings[i].expr, base) == Some(origin)
  }

  ghost predicate Derivable(inv: Inventory, name: string, scope: nat, seen: set<Key>, origin: string)
    requires WellFormed(inv)
  {
    exists d :: Derives(inv, name, scope, seen, d, origin)
  }

  /** No origin is made up: each is the end of some chain of bindings. */
  lemma {:induction false} OriginsAreDerivable(inv: Inventory, name: string, scope: nat, seen: set<Key>,
          universe: set<Key>, origin: string)
    requires WellFormed(inv) && Bounds(inv, universe) && scope < |inv.bindings| && (scope, name) in universe
    requires origin in OriginsForName(inv, name, scope, seen, universe).names
    ensures Derivable(inv, name, scope, seen, origin)
    decreases |universe - seen|
  {
    hide Bounds, Extend, OriginsForAll, BindingsOf, AttributePath, Qualified;
    var bindings := BindingsOf(inv, name, scope);
    BindingsInBounds(inv, name, scope, universe);
    LookupShrinks(universe, seen, (scope, name));
    var seen' := seen + {(scope, name)};
    var i := OriginOfSome(inv, bindings, seen', universe, origin);
    assert bindings[i] in bindings;
    match bindings[i]
    case Imported(o) =>
      assert Derives(inv, name, scope, seen, FromImport(i), origin);
    case Aliased(e) =>
      var to := RootKey(e).value;
      var roots := OriginsForName(inv, to.1, to.0, seen', universe);
      var base := BaseOf(inv, e, roots.names, origin);
      OriginsAreDerivable(inv, to.1, to.0, seen', universe, base);
      var d :| Derives(inv, to.1, to.0, seen', d, base);
      assert Derives(inv, name, scope, seen, FromAlias(i, d), origin);
  }

  /** None is missed either: every chain of bindings that looks up no name twice is followed to its end. */
  lemma {:induction false} DerivableAreOrigins(inv: Inventory, name: string, scope: nat, seen: set<Key>,
          universe: set<Key>, d: Derivation, origin: string)
    requires WellFormed(inv) && Bounds(inv, universe) && scope < |inv.bindings| && (scope, name) in universe
    requires Derives(inv, name, scope, seen, d, origin)
    ensures origin in OriginsForName(inv, name, scope, seen, universe).names
    decreases d
  {
    hide Bounds, Extend, OriginsForAll, BindingsOf, AttributePath, Qualified;
    var bindings := BindingsOf(inv, name, scope);
    BindingsInBounds(inv, name, scope, universe);
    LookupShrinks(universe, seen, (scope, name));
    var seen' := seen + {(scope, name)};
    match d
    case FromImport(i) =>
      assert bindings[i] in bindings;
      SomeOrigin(inv, bindings, seen', universe, i, origin);
    case FromAlias(i, root) =>
      var e := bindings[i].expr;
      assert bindings[i] in bindings;
      var to := RootKey(e).value;
      var base :| Derives(inv, to.1, to.0, seen', root, base) && Extend(inv, e, base) == Some(origin);
      RootScope(e);
      DerivableAreOrigins(inv, to.1, to.0, seen', universe, root, base);
      OriginCarried(inv, e, OriginsForName(inv, to.1, to.0, seen', universe).names, base, origin);
      SomeOrigin(inv, bindings, seen', universe, i, origin);
  }

  lemma RootScope(e: Expr)
    ensures RootKey(e).Some? ==> RootKey(e).value.0 == e.scope
  {
  }

  /** The other way from `BaseOf`: what can be carried over from a root is found. */
  lemma OriginCarried(inv: Inventory, e: Expr, roots: set<string>, base: string, origin: string)
    requires RootKey(e).Some? && base in roots && Extend(inv, e, base) == Some(origin)
    ensures if e.Name? then origin in roots else origin in Qualified(inv, roots, AttributePath(e).value.1)
  {
    hide AttributePath;
  }

  lemma {:induction false} SomeOrigin(inv: Inventory, bindings: seq<Binding>, seen: set<Key>, universe: set<Key>,
          i: nat, origin: string)
    requires WellFormed(inv) && Bounds(inv, universe) && forall b :: b in bindings ==> InBounds(inv, b, universe)
    requires i < |bindings| && origin in OriginsForBinding(inv, bindings[i], seen, universe).names
    ensures origin in OriginsForAll(inv, bindings, seen, universe).names
    decreases |bindings|
  {
    hide OriginsForBinding, InBounds, Bounds;
    if i < |bindings| - 1 {
      SomeOrigin(inv, bindings[..|bindings| - 1], seen, universe, i, origin);
    }
  }

  lemma {:induction false} OriginOfSome(inv: Inventory, bindings: seq<Binding>, seen: set<Key>, universe: set<Key>,
          origin: string)
    returns (i: nat)
    requires WellFormed(inv) && Bounds(inv, universe) && forall b :: b in bindings ==> InBounds(inv, b, universe)
    requires origin in OriginsForAll(inv, bindings, seen, universe).names
    ensures i < |bindings| && origin in OriginsForBinding(inv, bindings[i], seen, universe).names
    decreases |bindings|
  {
    if origin in OriginsForBinding(inv, bindings[|bindings| - 1], seen, universe).names {
      i := |bindings| - 1;
    } else {
      i := OriginOfSome(inv, bindings[..|bindings| - 1], seen, universe, origin);
    }
  }

  lemma BaseOf(inv: Inventory, e: Expr, roots: set<string>, origin: string) returns (base: string)
    requires RootKey(e).Some?
    requires if e.Name? then origin in roots else origin in Qualified(inv, roots, AttributePath(e).value.1)
    ensures base in roots && Extend(inv, e, base) == Some(origin)
  {
    if e.Name? {
      base := origin;
    } else {
      base :| base in roots && Passes(inv, base) && origin == base + "." + AttributePath(e).value.1;
    }
  }

  // ---------------------------------------------------------------------------
  // The resolution itself
  // ---------------------------------------------------------------------------

  /** Walks from the scope outwards and adds up what each scope's bindings of the name contribute. */
  method ResolveName(inv: Inventory, name: string, scope: nat, seen: set<Key>, ghost universe: set<Key>)
    returns (r: Origins)
    requires WellFormed(inv) && Bounds(inv, universe) && scope < |inv.bindings| && (scope, name) in universe
    ensures r == OriginsForName(inv, name, scope, seen, universe)
    decreases |universe - seen|, 0
  {
    hide OriginsForAll, LocalBindings, Bounds, InBounds, RootKey, BindingsOf;
    var key := (scope, name);
    if key in seen {
      return Origins({}, true);
    }
    LookupShrinks(universe, seen, key);
    BindingsInBounds(inv, name, scope, universe);
    var nextSeen := seen + {key};
    ghost var all := BindingsOf(inv, name, scope);
    ghost var done: seq<Binding> := [];
    NothingYet(inv, nextSeen, universe);
    var origins: set<string> := {};
    var bindingCount := 0;
    var unknownBinding := false;
    var current: Option<nat> := Some(scope);
    while current.Some?
      invariant current.Some? ==> current.value < |inv.bindings|
      invariant all == done + Outwards(inv, name, current)
      invariant forall b :: b in all ==> InBounds(inv, b, universe)
      invariant bindingCount == |done|
      invariant Origins(origins, unknownBinding) == OriginsForAll(inv, done, nextSeen, universe)
      decreases if current.Some? then current.value + 1 else 0
    {
      var bindings := LocalBindings(inv.bindings[current.value], name);
      OneScope(inv, name, current.value, done, all, universe);
      var local := ResolveLocal(inv, done, bindings, nextSeen, universe, origins, unknownBinding);
      origins, unknownBinding := local.names, local.uncertain;
      bindingCount := bindingCount + |bindings|;
      done := done + bindings;
      current := inv.parents[current.value];
    }
    assert done == all;
    return Origins(origins, unknownBinding || bindingCount != 1);
  }

  /** The bindings still to be counted: those of `current` and of the scopes around it. */
  ghost function Outwards(inv: Inventory, name: string, current: Option<nat>): seq<Binding>
    requires WellFormed(inv) && (current.Some? ==> current.value < |inv.bindings|)
  {
    if current.None? then [] else BindingsOf(inv, name, current.value)
  }

  lemma OneScope(inv: Inventory, name: string, scope: nat, done: seq<Binding>, all: seq<Binding>, universe: set<Key>)
    requires WellFormed(inv) && scope < |inv.bindings| && all == done + Outwards(inv, name, Some(scope))
    requires forall b :: b in all ==> InBounds(inv, b, universe)
    ensures var bindings, parent := LocalBindings(inv.bindings[scope], name), inv.parents[scope];
            && (parent.Some? ==> parent.value < scope)
            && all == (done + bindings) + Outwards(inv, name, parent)
            && forall b :: b in done + bindings ==> InBounds(inv, b, universe)
  {
    hide InBounds, LocalBindings;
    var bindings := LocalBindings(inv.bindings[scope], name);
    assert all == (done + bindings) + Outwards(inv, name, inv.parents[scope]);
    assert forall b :: b in done + bindings ==> b in all;
  }

  lemma NothingYet(inv: Inventory, seen: set<Key>, universe: set<Key>)
    requires WellFormed(inv) && Bounds(inv, universe)
    ensures OriginsForAll(inv, [], seen, universe) == Origins({}, false)
  {
  }

  /** Adds the contributions of one scope's bindings, in order. */
  method ResolveLocal(inv: Inventory, ghost done: seq<Binding>, bindings: seq<Binding>, seen: set<Key>,
          ghost universe: set<Key>, origins: set<string>, unknown: bool)
    returns (r: Origins)
    requires WellFormed(inv) && Bounds(inv, universe) && forall b :: b in done + bindings ==> InBounds(inv, b, universe)
    requires Origins(origins, unknown) == OriginsForAll(inv, done, seen, universe)
    ensures r == OriginsForAll(inv, done + bindings, seen, universe)
    decreases |universe - seen|, 3
  {
    hide OriginsForAll, Bounds, InBounds, RootKey, OriginsForExpression;
    r := Origins(origins, unknown);
    assert done + bindings[..0] == done;
    for i := 0 to |bindings|
      invariant r == OriginsForAll(inv, done + bindings[..i], seen, universe)
    {
      var b := bindings[i];
      OneBinding(inv, done, bindings, i, seen, universe);
      var one := Origins({}, true);
      match b {
        case Imported(origin) => one := Origins({origin}, false);
        case Rebound =>
        case Aliased(e) =>
          AliasInBounds(inv, e, universe);
          var viaAlias := ResolveExpression(inv, e, seen, universe);
          one := Origins(viaAlias.names, viaAlias.uncertain || viaAlias.names == {});
      }
      assert one == OriginsForBinding(inv, b, seen, universe);
      r := Origins(r.names + one.names, r.uncertain || one.uncertain);
    }
    assert done + bindings[..|bindings|] == done + bindings;
  }

  lemma OneBinding(inv: Inventory, done: seq<Binding>, bindings: seq<Binding>, i: nat, seen: set<Key>,
          universe: set<Key>)
    requires WellFormed(inv) && Bounds(inv, universe) && forall b :: b in done + bindings ==> InBounds(inv, b, universe)
    requires i < |bindings|
    ensures InBounds(inv, bindings[i], universe)
    ensures (forall b :: b in done + bindings[..i] ==> InBounds(inv, b, universe))
            && forall b :: b in done + bindings[..i + 1] ==> InBounds(inv, b, universe)
    ensures var r, one :=
            OriginsForAll(inv, done + bindings[..i], seen, universe),
            OriginsForBinding(inv, bindings[i], seen, universe);
            OriginsForAll(inv, done + bindings[..i + 1], seen, universe)
              == Origins(r.names + one.names, r.uncertain || one.uncertain)
  {
    hide InBounds, Bounds, OriginsForBinding;
    var longer := done + bindings[..i + 1];
    assert bindings[i] in done + bindings;
    assert longer[..|longer| - 1] == done + bindings[..i] && longer[|longer| - 1] == bindings[i];
    assert forall b :: b in longer ==> b in done + bindings;
  }

  lemma AliasInBounds(inv: Inventory, e: Expr, universe: set<Key>)
    requires InBounds(inv, Aliased(e), universe)
    ensures e.scope < |inv.bindings| && (RootKey(e).Some? ==> RootKey(e).value in universe)
  {
  }

  method ResolveExpression(inv: Inventory, e: Expr, seen: set<Key>, ghost universe: set<Key>) returns (r: Origins)
    requires WellFormed(inv) && Bounds(inv, universe) && e.scope < |inv.bindings|
    requires RootKey(e).Some? ==> RootKey(e).value in universe
    ensures r == OriginsForExpression(inv, e, seen, universe)
    decreases |universe - seen|, 1
  {
    if e.Name? {
      r := ResolveName(inv, e.id, e.scope, seen, universe);
      return;
    }
    var path := AttributePath(e);
    if path.None? {
      return Origins({}, false);
    }
    var roots := ResolveName(inv, path.value.0, e.scope, seen, universe);
    return Origins(Qualified(inv, roots.names, path.value.1), roots.uncertain);
  }

  datatype Verdict = Stdlib(apis: seq<string>) | Undecidable(apis: seq<string>) | Unrelated

  /** The target stands for exactly one process API: a certain chain leads there and nowhere else. */
  ghost predicate StandsFor(inv: Inventory, node: Expr, api: string)
    requires WellFormed(inv)
  {
    && RootKey(node).Some? && api in inv.apis
    && exists chain, base ::
         CertainBy(inv, RootKey(node).value.1, RootKey(node).value.0, {}, chain, base)
           && Extend(inv, node, base) == Some(api)
  }

  /** Some chain of bindings makes the target stand for the process API. */
  ghost predicate MayNameApi(inv: Inventory, node: Expr, api: string)
    requires WellFormed(inv)
  {
    && RootKey(node).Some? && api in inv.apis
    && exists base ::
         Derivable(inv, RootKey(node).value.1, RootKey(node).value.0, {}, base) && Extend(inv, node, base) == Some(api)
  }

  ghost function AllRoots(inv: Inventory): set<Key>
  {
    set s, n, e | 0 <= s < |inv.bindings| && n in inv.bindings[s].aliases && e in inv.bindings[s].aliases[n]
      && RootKey(e).Some?
      :: RootKey(e).value
  }

  /**
    `stdlib` is answered iff one process API is named by an acyclic chain of single bindings;
    any API that the target may name otherwise, and any unbound process method, makes it
    undecidable; `unrelated` is left for targets that can name none.
   */
  method ProvenanceFor(inv: Inventory, node: Expr, unboundMethods: set<string>) returns (v: Verdict)
    requires WellFormed(inv) && node.scope < |inv.bindings|
    ensures v.Stdlib? <==> exists api :: StandsFor(inv, node, api)
    ensures v.Stdlib? ==> exists api :: v.apis == [api] && StandsFor(inv, node, api)
    ensures v.Stdlib? ==> var (scope, name) := RootKey(node).value;
                          && BoundInAll(inv, name, Around(inv, scope)) == 1
                          && !ReboundAround(inv, name, Around(inv, scope))
    ensures v.Unrelated? <==>
            (forall api :: !MayNameApi(inv, node, api)) && !(node.Attribute? && node.attr in unboundMethods)
    ensures v.Undecidable? ==> Distinct(v.apis) && Ascending(v.apis) && v.apis != []
    ensures v.Undecidable? && (exists api :: MayNameApi(inv, node, api)) ==>
            forall api :: api in v.apis <==> MayNameApi(inv, node, api)
    ensures v.Undecidable? && (forall api :: !MayNameApi(inv, node, api)) ==> node.Attribute? && v.apis == [node.attr]
  {
    hide OriginsForName, OriginsForAll, CertainBy, Ordered, MayNameApi, StandsFor;
    ghost var universe := AllRoots(inv) + if RootKey(node).Some? then {RootKey(node).value} else {};
    RootsBound(inv, universe);
    var r := ResolveExpression(inv, node, {}, universe);
    assert TotalPreorder(StringLe) by {
      StringOrder();
    }
    var apis := SortedSet(StringLe, set o | o in r.names && o in inv.apis);
    StdlibIff(inv, node, universe, r, apis);
    ApisFound(inv, node, universe, r);
    OrderedAscends(apis);
    assert apis != [] ==> apis[0] in apis;
    if apis != [] && !r.uncertain && |apis| == 1 {
      SingleBinding(inv, node, apis[0]);
    }
    if apis != [] {
      return if r.uncertain || |apis| != 1 then Undecidable(apis) else Stdlib(apis);
    }
    if node.Attribute? && node.attr in unboundMethods {
      return Undecidable([node.attr]);
    }
    return Unrelated;
  }

  /** A target that stands for an API has a root with a single binding, which is no rebinding. */
  lemma SingleBinding(inv: Inventory, node: Expr, api: string)
    requires WellFormed(inv) && node.scope < |inv.bindings| && StandsFor(inv, node, api)
    ensures RootKey(node).Some? && RootKey(node).value.0 < |inv.bindings|
    ensures var (scope, name) := RootKey(node).value;
            BoundInAll(inv, name, Around(inv, scope)) == 1 && !ReboundAround(inv, name, Around(inv, scope))
  {
    hide Around, BoundInAll, ReboundAround, ImportedAround, AliasedAround, OriginAlong, Extend;
    RootScope(node);
    var (scope, name) := RootKey(node).value;
    var chain, base :| CertainBy(inv, name, scope, {}, chain, base) && Extend(inv, node, base) == Some(api);
    BindingsAre(inv, name, scope);
    ChainHead(inv, chain);
  }

  lemma ChainHead(inv: Inventory, chain: seq<Key>)
    requires WellFormed(inv) && AliasChain(inv, chain) && chain[0].0 < |inv.bindings|
    ensures var r := BindingsOf(inv, chain[0].1, chain[0].0);
            |r| == 1 && Rebound !in r
  {
    if |chain| > 1 {
      assert SendsOn(inv, chain[0], chain[1]);
    }
  }

  /** The origins that are process APIs are exactly those the target may name. */
  lemma ApisFound(inv: Inventory, node: Expr, universe: set<Key>, r: Origins)
    requires WellFormed(inv) && Bounds(inv, universe) && node.scope < |inv.bindings|
    requires RootKey(node).Some? ==> RootKey(node).value in universe
    requires r == OriginsForExpression(inv, node, {}, universe)
    ensures forall api :: api in r.names && api in inv.apis <==> MayNameApi(inv, node, api)
  {
    hide OriginsForName, Bounds, Derivable, Extend;
    RootScope(node);
    forall api
      ensures api in r.names && api in inv.apis <==> MayNameApi(inv, node, api)
    {
      if RootKey(node).Some? {
        var key := RootKey(node).value;
        var roots := OriginsForName(inv, key.1, key.0, {}, universe);
        if api in r.names {
          var base := BaseOf(inv, node, roots.names, api);
          OriginsAreDerivable(inv, key.1, key.0, {}, universe, base);
        }
        if MayNameApi(inv, node, api) {
          var base :| Derivable(inv, key.1, key.0, {}, base) && Extend(inv, node, base) == Some(api);
          var d := SomeDerivation(inv, key.1, key.0, {}, base);
          DerivableAreOrigins(inv, key.1, key.0, {}, universe, d, base);
          OriginCarried(inv, node, roots.names, base, api);
        }
      }
    }
  }

  lemma SomeDerivation(inv: Inventory, name: string, scope: nat, seen: set<Key>, origin: string) returns (d: Derivation)
    requires WellFormed(inv) && Derivable(inv, name, scope, seen, origin)
    ensures Derives(inv, name, scope, seen, d, origin)
  {
    d :| Derives(inv, name, scope, seen, d, origin);
  }

  lemma RootsBound(inv: Inventory, universe: set<Key>)
    requires AllRoots(inv) <= universe
    ensures Bounds(inv, universe)
  {
    forall s, n, e | 0 <= s < |inv.bindings| && n in inv.bindings[s].aliases && e in inv.bindings[s].aliases[n]
      && RootKey(e).Some?
      ensures RootKey(e).value in universe
    {
      assert RootKey(e).value in AllRoots(inv);
    }
  }

  lemma StdlibIff(inv: Inventory, node: Expr, universe: set<Key>, r: Origins, apis: seq<string>)
    requires WellFormed(inv) && Bounds(inv, universe) && node.scope < |inv.bindings|
    requires RootKey(node).Some? ==> RootKey(node).value in universe
    requires r == OriginsForExpression(inv, node, {}, universe)
    requires Distinct(apis) && forall o :: o in apis <==> o in r.names && o in inv.apis
    ensures (!r.uncertain && |apis| == 1) <==> exists api :: StandsFor(inv, node, api)
    ensures !r.uncertain && |apis| == 1 ==> StandsFor(inv, node, apis[0])
  {
    hide OriginsForName, CertainBy, Passes;
    if RootKey(node).Some? {
      var key := RootKey(node).value;
      var roots := OriginsForName(inv, key.1, key.0, {}, universe);
      if !roots.uncertain {
        var chain, base := CertainHasChain(inv, key.1, key.0, {}, universe);
        ExpressionOfOne(inv, node, {}, universe, base);
        if |apis| == 1 {
          assert apis[0] in apis;
          assert StandsFor(inv, node, apis[0]);
        }
      }
      forall api | StandsFor(inv, node, api)
        ensures !r.uncertain && |apis| == 1
      {
        var chain, base :| CertainBy(inv, key.1, key.0, {}, chain, base) && Extend(inv, node, base) == Some(api);
        ChainIsCertain(inv, key.1, key.0, {}, universe, chain, base);
        ExpressionOfOne(inv, node, {}, universe, base);
        assert api in apis;
        OnlyOne(apis, api);
      }
    } else {
      assert forall o :: o !in apis;
      HeadIsMember(apis);
    }
  }

  lemma ExpressionOfOne(inv: Inventory, e: Expr, seen: set<Key>, universe: set<Key>, base: string)
    requires WellFormed(inv) && Bounds(inv, universe) && e.scope < |inv.bindings| && RootKey(e).Some?
             && RootKey(e).value in universe
    requires OriginsForName(inv, RootKey(e).value.1, RootKey(e).value.0, seen, universe) == Origins({base}, false)
    ensures var x := Extend(inv, e, base);
            OriginsForExpression(inv, e, seen, universe) == Origins(if x.Some? then {x.value} else {}, false)
  {
    if !e.Name? {
      QualifiedOne(inv, base, AttributePath(e).value.1);
    }
  }

  lemma TwoDiffer(s: seq<string>)
    requires Distinct(s) && |s| > 1
    ensures s[0] != s[1] && s[0] in s && s[1] in s
  {
  }

  lemma HeadIsMember(s: seq<string>)
    ensures s != [] ==> s[0] in s
  {
  }

  lemma OnlyOne(s: seq<string>, x: string)
    requires Distinct(s) && x in s && forall y :: y in s ==> y == x
    ensures |s| == 1
  {
    if |s| > 1 {
      TwoDiffer(s);
    }
  }
}
