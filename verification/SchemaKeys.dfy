/**
  Normalization of the object keys of a parsed JSON document: backslashes are dropped from
  keys, values are left alone, and two keys that become one are a contradiction.
 */
module SchemaKeys {

  const BACKSLASH := '\\'

  datatype Json =
    | Null
    | Bool(b: bool)
    | Number(text: string)
    | Str(s: string)
    | Arr(items: seq<Json>)
    | Obj(pairs: seq<Member>)

  datatype Member = Member(key: string, value: Json)

  datatype Outcome<T> = Normalized(value: T, changed: bool) | Collision

  function Clean(key: string): string
  {
    if key == "" then ""
    else if key[0] == BACKSLASH then Clean(key[1..])
    else [key[0]] + Clean(key[1..])
  }

  /** Cleaning goes character by character, and drops exactly the backslashes. */
  lemma {:induction false} CleanAppend(a: string, b: string)
    ensures Clean(a + b) == Clean(a) + Clean(b)
  {
    if a == "" {
      assert a + b == b;
    } else {
      assert (a + b)[1..] == a[1..] + b;
      CleanAppend(a[1..], b);
    }
  }

  lemma CleanOne(c: char)
    ensures Clean([c]) == if c == '\\' then [] else [c]
  {
    assert [c][1..] == [];
  }

  /**
    The hook run on one object: drops backslashes, notes whether any were there, and
    refuses a second occurrence of a cleaned key.
   */
  method Hook(pairs: seq<Member>) returns (r: Outcome<seq<Member>>)
    ensures r == CleanPairs(pairs)
  {
    hide CleanedTo, KeysDistinct, Clean;
    var result: seq<Member> := [];
    var changed := false;
    NothingCleaned(pairs);
    for i := 0 to |pairs|
      invariant result == CleanedTo(pairs, i) && KeysDistinct(pairs[..i])
      invariant changed <==> exists k :: 0 <= k < i && BACKSLASH in pairs[k].key
    {
      var clean := Clean(pairs[i].key);
      CleanChanges(pairs[i].key);
      CleanedMore(pairs, i);
      changed := changed || clean != pairs[i].key;
      if exists j :: 0 <= j < |result| && result[j].key == clean {
        return Collision;
      }
      result := result + [Member(clean, pairs[i].value)];
    }
    assert pairs[..|pairs|] == pairs;
    return Normalized(result, changed);
  }

  lemma NothingCleaned(pairs: seq<Member>)
    ensures CleanedTo(pairs, 0) == [] && KeysDistinct(pairs[..0])
  {
  }

  /** One more key is new iff no key cleaned so far is the same; once it is not, the object is refused. */
  lemma CleanedMore(pairs: seq<Member>, i: nat)
    requires i < |pairs| && KeysDistinct(pairs[..i])
    ensures var clean, result := Clean(pairs[i].key), CleanedTo(pairs, i);
            && CleanedTo(pairs, i + 1) == result + [Member(clean, pairs[i].value)]
            && ((exists j :: 0 <= j < |result| && result[j].key == clean) ==> !KeysDistinct(pairs))
            && (!(exists j :: 0 <= j < |result| && result[j].key == clean) ==> KeysDistinct(pairs[..i + 1]))
  {
    hide Clean;
    var clean, result := Clean(pairs[i].key), CleanedTo(pairs, i);
    assert forall j :: 0 <= j < i ==> result[j].key == Clean(pairs[j].key) && pairs[..i][j] == pairs[j];
    if !(exists j :: 0 <= j < |result| && result[j].key == clean) {
      var longer := pairs[..i + 1];
      forall j, k | 0 <= j < k < |longer|
        ensures Clean(longer[j].key) != Clean(longer[k].key)
      {
        if k < i {
          assert Clean(pairs[..i][j].key) != Clean(pairs[..i][k].key);
        } else {
          assert result[j].key != clean;
        }
      }
    }
  }

  function CleanedTo(pairs: seq<Member>, n: nat): seq<Member>
    requires n <= |pairs|
  {
    seq(n, i requires 0 <= i < n => Member(Clean(pairs[i].key), pairs[i].value))
  }

  predicate KeysDistinct(pairs: seq<Member>)
  {
    forall j, k :: 0 <= j < k < |pairs| ==> Clean(pairs[j].key) != Clean(pairs[k].key)
  }

  /** What the hook computes. */
  function CleanPairs(pairs: seq<Member>): Outcome<seq<Member>>
  {
    if KeysDistinct(pairs) then
      Normalized(CleanedTo(pairs, |pairs|), exists k :: 0 <= k < |pairs| && BACKSLASH in pairs[k].key)
    else Collision
  }

  /** The hook is applied to every object once its members have been read. */
  function Normalize(j: Json): Outcome<Json>
    decreases j, 1
  {
    match j
    case Arr(items) =>
      var r := NormalizeItems(items);
      if r.Collision? then Collision else Normalized(Arr(r.value), r.changed)
    case Obj(pairs) =>
      var r := NormalizeMembers(pairs);
      if r.Collision? then Collision
      else
        var c := CleanPairs(r.value);
        if c.Collision? then Collision else Normalized(Obj(c.value), r.changed || c.changed)
    case _ => Normalized(j, false)
  }

  function NormalizeItems(items: seq<Json>): Outcome<seq<Json>>
    decreases items, 0
  {
    if items == [] then Normalized([], false)
    else
      var first := Normalize(items[0]);
      if first.Collision? then Collision
      else
        var rest := NormalizeItems(items[1..]);
        if rest.Collision? then Collision
        else Normalized([first.value] + rest.value, first.changed || rest.changed)
  }

  function NormalizeMembers(pairs: seq<Member>): Outcome<seq<Member>>
    decreases pairs, 0
  {
    if pairs == [] then Normalized([], false)
    else
      assert pairs[0] in pairs;
      var first := Normalize(pairs[0].value);
      if first.Collision? then Collision
      else
        var rest := NormalizeMembers(pairs[1..]);
        if rest.Collision? then Collision
        else Normalized([Member(pairs[0].key, first.value)] + rest.value, first.changed || rest.changed)
  }

  // ---------------------------------------------------------------------------
  // What it must do
  // ---------------------------------------------------------------------------

  /** Some object of the document, at any depth, has two keys that clean to the same name. */
  ghost predicate HasCollision(j: Json)
  {
    match j
    case Arr(items) => exists i :: 0 <= i < |items| && HasCollision(items[i])
    case Obj(pairs) =>
      !KeysDistinct(pairs) || exists i :: 0 <= i < |pairs| && (assert pairs[i] in pairs; HasCollision(pairs[i].value))
    case _ => false
  }

  /** Some key of the document, at any depth, contains a backslash. */
  ghost predicate HasBackslashKey(j: Json)
  {
    match j
    case Arr(items) => exists i :: 0 <= i < |items| && HasBackslashKey(items[i])
    case Obj(pairs) =>
      exists i ::
      0 <= i < |pairs| && (BACKSLASH in pairs[i].key || (assert pairs[i] in pairs; HasBackslashKey(pairs[i].value)))
    case _ => false
  }

  /** The two documents differ at most in their keys, and each key of `k` is the cleaned key of `j`. */
  ghost predicate OnlyKeysCleaned(j: Json, k: Json)
  {
    match j
    case Arr(items) => k.Arr? && |k.items| == |items| && forall i :: 0 <= i < |items| ==>
      OnlyKeysCleaned(items[i], k.items[i])
    case Obj(pairs) =>
      k.Obj? && |k.pairs| == |pairs|
      && forall i :: 0 <= i < |pairs| ==>
           && k.pairs[i].key == Clean(pairs[i].key)
           && (assert pairs[i] in pairs; OnlyKeysCleaned(pairs[i].value, k.pairs[i].value))
    case _ => k == j
  }

  lemma {:induction false} CleanChanges(key: string)
    ensures Clean(key) != key <==> BACKSLASH in key
    ensures BACKSLASH !in Clean(key) && |Clean(key)| <= |key|
  {
    if key != "" {
      CleanChanges(key[1..]);
      assert key == [key[0]] + key[1..];
      if key[0] != BACKSLASH {
        assert ([key[0]] + Clean(key[1..]))[1..] == Clean(key[1..]);
      }
    }
  }

  /** What normalization promises for one document. */
  ghost predicate Promised(j: Json, r: Outcome<Json>)
  {
    && (r.Collision? <==> HasCollision(j))
    && (r.Normalized? ==> r.changed == HasBackslashKey(j) && OnlyKeysCleaned(j, r.value))
  }

  /**
    Rejected iff some object carries two keys of one name; otherwise only keys change, and the
    change flag tells exactly whether any key had a backslash.
   */
  lemma {:induction false} NormalizeIsFaithful(j: Json)
    ensures Promised(j, Normalize(j))
    decreases j, 1
  {
    match j
    case Arr(items) => ItemsFaithful(items);
    case Obj(pairs) =>
      MembersFaithful(pairs);
      ObjectFaithful(pairs);
    case _ =>
  }

  lemma {:induction false} ItemsFaithful(items: seq<Json>)
    ensures var r := NormalizeItems(items);
            && (r.Collision? <==> exists i :: 0 <= i < |items| && HasCollision(items[i]))
            && (r.Normalized? ==> && r.changed == (exists i :: 0 <= i < |items| && HasBackslashKey(items[i]))
                                  && |r.value| == |items|
                                  && forall i :: 0 <= i < |items| ==> OnlyKeysCleaned(items[i], r.value[i]))
    decreases items, 0
  {
    if items != [] {
      NormalizeIsFaithful(items[0]);
      ItemsFaithful(items[1..]);
      var rest := items[1..];
      assert forall i :: 1 <= i < |items| ==> items[i] == rest[i - 1];
      assert forall i :: 0 <= i < |rest| ==> rest[i] == items[i + 1];
    }
  }

  ghost predicate MembersPromised(pairs: seq<Member>, r: Outcome<seq<Member>>)
  {
    && (r.Collision? <==> exists i :: 0 <= i < |pairs| && HasCollision(pairs[i].value))
    && (r.Normalized? ==> && r.changed == (exists i :: 0 <= i < |pairs| && HasBackslashKey(pairs[i].value))
                          && |r.value| == |pairs|
                          && forall i :: 0 <= i < |pairs| ==>
                               r.value[i].key == pairs[i].key && OnlyKeysCleaned(pairs[i].value, r.value[i].value))
  }

  lemma {:induction false} MembersFaithful(pairs: seq<Member>)
    ensures MembersPromised(pairs, NormalizeMembers(pairs))
    decreases pairs, 0
  {
    hide Normalize, HasCollision, HasBackslashKey, OnlyKeysCleaned;
    if pairs != [] {
      assert pairs[0] in pairs;
      NormalizeIsFaithful(pairs[0].value);
      MembersFaithful(pairs[1..]);
      var rest := pairs[1..];
      assert forall i :: 1 <= i < |pairs| ==> pairs[i] == rest[i - 1];
      assert forall i :: 0 <= i < |rest| ==> rest[i] == pairs[i + 1];
    }
  }

  lemma ObjectFaithful(pairs: seq<Member>)
    requires MembersPromised(pairs, NormalizeMembers(pairs))
    ensures Promised(Obj(pairs), Normalize(Obj(pairs)))
  {
    hide Clean, NormalizeMembers;
    var r := NormalizeMembers(pairs);
    if r.Normalized? {
      SameKeys(r.value, pairs);
    }
  }

  /** Whether keys clash, and whether one has a backslash, depends on the keys alone. */
  lemma SameKeys(a: seq<Member>, b: seq<Member>)
    requires |a| == |b| && forall k :: 0 <= k < |a| ==> a[k].key == b[k].key
    ensures KeysDistinct(a) <==> KeysDistinct(b)
    ensures (exists k :: 0 <= k < |a| && BACKSLASH in a[k].key) <==> (exists k :: 0 <= k < |b| && BACKSLASH in b[k].key)
  {
  }

  /** Normalized text is returned verbatim when nothing changed, and normalizing again changes nothing. */
  lemma NormalizeIsAProjection(j: Json)
    requires Normalize(j).Normalized?
    ensures !Normalize(j).changed ==> Normalize(j).value == j
    ensures Normalize(Normalize(j).value) == Normalized(Normalize(j).value, false)
  {
    NormalizeIsFaithful(j);
    var k := Normalize(j).value;
    NormalizeIsFaithful(k);
    CleanedHasNoCollision(j, k);
    CleanKeysSame(k, Normalize(k).value);
    if !HasBackslashKey(j) {
      CleanKeysSame(j, k);
    }
  }

  lemma {:induction false} CleanedHasNoCollision(j: Json, k: Json)
    requires OnlyKeysCleaned(j, k) && !HasCollision(j)
    ensures !HasCollision(k) && !HasBackslashKey(k)
    decreases j
  {
    match j
    case Arr(items) =>
      forall i | 0 <= i < |items|
        ensures !HasCollision(k.items[i]) && !HasBackslashKey(k.items[i])
      {
        CleanedHasNoCollision(items[i], k.items[i]);
      }
    case Obj(pairs) =>
      forall i | 0 <= i < |pairs|
        ensures !HasCollision(k.pairs[i].value) && !HasBackslashKey(k.pairs[i].value)
        ensures BACKSLASH !in k.pairs[i].key && Clean(k.pairs[i].key) == k.pairs[i].key
      {
        assert pairs[i] in pairs;
        CleanedHasNoCollision(pairs[i].value, k.pairs[i].value);
        CleanChanges(pairs[i].key);
        CleanChanges(k.pairs[i].key);
      }
      assert KeysDistinct(k.pairs);
    case _ =>
  }

  lemma {:induction false} CleanKeysSame(j: Json, k: Json)
    requires OnlyKeysCleaned(j, k) && !HasBackslashKey(j)
    ensures j == k
    decreases j
  {
    match j
    case Arr(items) =>
      forall i | 0 <= i < |items|
        ensures items[i] == k.items[i]
      {
        CleanKeysSame(items[i], k.items[i]);
      }
      assert items == k.items;
    case Obj(pairs) =>
      forall i | 0 <= i < |pairs|
        ensures pairs[i] == k.pairs[i]
      {
        assert pairs[i] in pairs;
        CleanKeysSame(pairs[i].value, k.pairs[i].value);
        CleanChanges(pairs[i].key);
      }
      assert pairs == k.pairs;
    case _ =>
  }
}
