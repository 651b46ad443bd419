/**
  Total orders on strings and on tuples of strings, and the stable ascending sort.

  The repository sorts nearly every collection before it reports it.  The sort is
  modelled once here, as stable insertion; what the other modules use of it is that the
  result is an ordered permutation and that such a permutation is unique.
 */
module Ordering {

  /** A total preorder: every two elements compare, and comparison is transitive. */
  ghost predicate TotalPreorder<T(!new)>(le: (T, T) -> bool)
  {
    && (forall x, y :: le(x, y) || le(y, x))
    && (forall x, y, z :: le(x, y) && le(y, z) ==> le(x, z))
  }

  ghost predicate Antisymmetric<T(!new)>(le: (T, T) -> bool)
  {
    forall x, y :: le(x, y) && le(y, x) ==> x == y
  }

  ghost predicate TotalOrder<T(!new)>(le: (T, T) -> bool)
  {
    TotalPreorder(le) && Antisymmetric(le)
  }

  /** Lexicographic comparison of sequences, as tuples and strings compare. */
  predicate LexLe<T(==)>(le: (T, T) -> bool, a: seq<T>, b: seq<T>)
  {
    a == [] || (b != [] && if a[0] == b[0] then LexLe(le, a[1..], b[1..]) else le(a[0], b[0]))
  }

  predicate CharLe(a: char, b: char)
  {
    a <= b
  }

  predicate StringLe(a: string, b: string)
  {
    LexLe(CharLe, a, b)
  }

  /** Order on tuples of strings. */
  predicate TupleLe(a: seq<string>, b: seq<string>)
  {
    LexLe(StringLe, a, b)
  }

  lemma {:induction false} LexConnected<T(!new)>(le: (T, T) -> bool, a: seq<T>, b: seq<T>)
    requires TotalOrder(le)
    ensures LexLe(le, a, b) || LexLe(le, b, a)
  {
    if a != [] && b != [] && a[0] == b[0] {
      LexConnected(le, a[1..], b[1..]);
    }
  }

  lemma {:induction false} LexAntisymmetric<T(!new)>(le: (T, T) -> bool, a: seq<T>, b: seq<T>)
    requires TotalOrder(le)
    requires LexLe(le, a, b) && LexLe(le, b, a)
    ensures a == b
  {
    if a != [] && b != [] && a[0] == b[0] {
      LexAntisymmetric(le, a[1..], b[1..]);
      assert a == [a[0]] + a[1..] && b == [b[0]] + b[1..];
    }
  }

  lemma {:induction false} LexTransitive<T(!new)>(le: (T, T) -> bool, a: seq<T>, b: seq<T>, c: seq<T>)
    requires TotalOrder(le)
    requires LexLe(le, a, b) && LexLe(le, b, c)
    ensures LexLe(le, a, c)
  {
    if a != [] && b != [] && c != [] && a[0] == b[0] == c[0] {
      LexTransitive(le, a[1..], b[1..], c[1..]);
    }
  }

  lemma StringOrder()
    ensures TotalOrder(StringLe)
  {
    forall a: string, b: string
      ensures StringLe(a, b) || StringLe(b, a)
      ensures StringLe(a, b) && StringLe(b, a) ==> a == b
    {
      LexConnected(CharLe, a, b);
      if StringLe(a, b) && StringLe(b, a) {
        LexAntisymmetric(CharLe, a, b);
      }
    }
    forall a: string, b: string, c: string | StringLe(a, b) && StringLe(b, c)
      ensures StringLe(a, c)
    {
      LexTransitive(CharLe, a, b, c);
    }
  }

  lemma TupleOrder()
    ensures TotalOrder(TupleLe)
  {
    StringOrder();
    forall a: seq<string>, b: seq<string>
      ensures TupleLe(a, b) || TupleLe(b, a)
      ensures TupleLe(a, b) && TupleLe(b, a) ==> a == b
    {
      LexConnected(StringLe, a, b);
      if TupleLe(a, b) && TupleLe(b, a) {
        LexAntisymmetric(StringLe, a, b);
      }
    }
    forall a: seq<string>, b: seq<string>, c: seq<string> | TupleLe(a, b) && TupleLe(b, c)
      ensures TupleLe(a, c)
    {
      LexTransitive(StringLe, a, b, c);
    }
  }

  // ---------------------------------------------------------------------------
  // What the order is
  // ---------------------------------------------------------------------------

  /** `a` and `b` agree before position `k`. */
  ghost predicate AgreeTo<T>(a: seq<T>, b: seq<T>, k: nat)
  {
    k <= |a| && k <= |b| && a[..k] == b[..k]
  }

  /** The first text is a beginning of the second, or has the smaller character where they first differ. */
  ghost predicate Before(a: string, b: string)
  {
    exists k: nat :: AgreeTo(a, b, k) && (k == |a| || (k < |a| && k < |b| && a[k] < b[k]))
  }

  /** The same of tuples, whose first different texts decide. */
  ghost predicate TupleBefore(a: seq<string>, b: seq<string>)
  {
    exists k: nat :: AgreeTo(a, b, k) && (k == |a| || (k < |a| && k < |b| && a[k] != b[k] && Before(a[k], b[k])))
  }

  lemma AgreeStep<T>(a: seq<T>, b: seq<T>, k: nat)
    requires a != [] && b != [] && a[0] == b[0]
    ensures AgreeTo(a, b, k + 1) <==> AgreeTo(a[1..], b[1..], k)
  {
    if AgreeTo(a, b, k + 1) {
      assert a[1..][..k] == a[..k + 1][1..] && b[1..][..k] == b[..k + 1][1..];
    }
    if AgreeTo(a[1..], b[1..], k) {
      assert a[..k + 1] == [a[0]] + a[1..][..k] && b[..k + 1] == [b[0]] + b[1..][..k];
    }
  }

  /** Comparison is decided at the first difference. */
  lemma {:induction false} LexAt<T>(le: (T, T) -> bool, a: seq<T>, b: seq<T>)
    ensures LexLe(le, a, b) <==>
            exists k: nat :: AgreeTo(a, b, k) && (k == |a| || (k < |a| && k < |b| && a[k] != b[k] && le(a[k], b[k])))
  {
    hide AgreeTo;
    NothingToAgree(a, b);
    if a != [] && b != [] && a[0] == b[0] {
      LexAt(le, a[1..], b[1..]);
      if LexLe(le, a, b) {
        var k: nat :| AgreeTo(a[1..], b[1..], k)
                      && (k == |a[1..]|
                           || (k < |a[1..]| && k < |b[1..]| && a[1..][k] != b[1..][k] && le(a[1..][k], b[1..][k])));
        AgreeStep(a, b, k);
        assert AgreeTo(a, b, k + 1);
      }
      if k: nat :| AgreeTo(a, b, k) && (k == |a| || (k < |a| && k < |b| && a[k] != b[k] && le(a[k], b[k]))) {
        AgreeStep(a, b, k - 1);
      }
    } else if a != [] && b != [] {
      OnlyAtOnce(a, b);
    }
  }

  lemma NothingToAgree<T>(a: seq<T>, b: seq<T>)
    ensures AgreeTo(a, b, 0) && forall k: nat :: AgreeTo(a, b, k) ==> k <= |a| && k <= |b|
  {
  }

  lemma OnlyAtOnce<T>(a: seq<T>, b: seq<T>)
    requires a != [] && b != [] && a[0] != b[0]
    ensures forall k: nat :: AgreeTo(a, b, k) ==> k == 0
  {
    forall k: nat
      ensures AgreeTo(a, b, k) ==> k == 0
    {
      if AgreeTo(a, b, k) && k > 0 {
        AgreeAt(a, b, k, 0);
      }
    }
  }

  lemma AgreeAt<T>(a: seq<T>, b: seq<T>, k: nat, i: nat)
    requires AgreeTo(a, b, k) && i < k
    ensures a[i] == b[i]
  {
    assert a[..k][i] == a[i] && b[..k][i] == b[i];
  }

  /** Strings compare by their first different character. */
  lemma StringLeIff(a: string, b: string)
    ensures StringLe(a, b) <==> Before(a, b)
  {
    LexAt(CharLe, a, b);
  }

  /** Tuples compare by their first different texts. */
  lemma TupleLeIff(a: seq<string>, b: seq<string>)
    ensures TupleLe(a, b) <==> TupleBefore(a, b)
  {
    hide AgreeTo, StringLe, Before;
    LexAt(StringLe, a, b);
    forall k: nat | k < |a| && k < |b|
      ensures StringLe(a[k], b[k]) <==> Before(a[k], b[k])
    {
      StringLeIff(a[k], b[k]);
    }
  }

  /** Each text comes properly before all that follow it. */
  ghost predicate Ascending(s: seq<string>)
  {
    forall i, j :: 0 <= i < j < |s| ==> s[i] != s[j] && Before(s[i], s[j])
  }

  ghost predicate TuplesAscending(s: seq<seq<string>>)
  {
    forall i, j :: 0 <= i < j < |s| ==> s[i] != s[j] && TupleBefore(s[i], s[j])
  }

  lemma OrderedAscends(s: seq<string>)
    requires Ordered(StringLe, s) && Distinct(s)
    ensures Ascending(s)
  {
    hide StringLe, Before;
    forall i, j | 0 <= i < j < |s|
      ensures Before(s[i], s[j])
    {
      StringLeIff(s[i], s[j]);
    }
  }

  lemma OrderedTuplesAscend(s: seq<seq<string>>)
    requires Ordered(TupleLe, s) && Distinct(s)
    ensures TuplesAscending(s)
  {
    hide TupleLe, TupleBefore;
    forall i, j | 0 <= i < j < |s|
      ensures TupleBefore(s[i], s[j])
    {
      TupleLeIff(s[i], s[j]);
    }
  }

  // ---------------------------------------------------------------------------
  // Sorting
  // ---------------------------------------------------------------------------

  ghost predicate Ordered<T>(le: (T, T) -> bool, s: seq<T>)
  {
    forall i, j :: 0 <= i < j < |s| ==> le(s[i], s[j])
  }

  ghost predicate Distinct<T>(s: seq<T>)
  {
    forall i, j :: 0 <= i < j < |s| ==> s[i] != s[j]
  }

  /** Inserts `x` before the first element that does not precede it (stable). */
  function Insert<T>(le: (T, T) -> bool, x: T, s: seq<T>): (r: seq<T>)
    ensures multiset(r) == multiset{x} + multiset(s)
  {
    if s == [] || le(x, s[0]) then [x] + s
    else
      assert s == [s[0]] + s[1..];
      [s[0]] + Insert(le, x, s[1..])
  }

  /** Stable ascending sort. */
  function Sorted<T>(le: (T, T) -> bool, s: seq<T>): (r: seq<T>)
    ensures multiset(r) == multiset(s)
  {
    if s == [] then []
    else
      assert s == [s[0]] + s[1..];
      Insert(le, s[0], Sorted(le, s[1..]))
  }

  lemma SameElements<T>(a: seq<T>, b: seq<T>)
    requires multiset(a) == multiset(b)
    ensures |a| == |b|
    ensures forall x :: x in a <==> x in b
  {
    assert |a| == |multiset(a)| && |b| == |multiset(b)|;
    assert forall x :: x in a <==> x in multiset(a);
    assert forall x :: x in b <==> x in multiset(b);
  }

  /** `x` occurs somewhere before `y`. */
  ghost predicate Earlier<T>(s: seq<T>, x: T, y: T)
  {
    exists i, j :: 0 <= i < j < |s| && s[i] == x && s[j] == y
  }

  lemma EarlierInTail<T>(z: T, s: seq<T>, x: T, y: T)
    ensures Earlier(s, x, y) ==> Earlier([z] + s, x, y)
    ensures x == z && y in s ==> Earlier([z] + s, x, y)
    ensures Earlier([z] + s, x, y) ==> Earlier(s, x, y) || (x == z && y in s)
  {
    var longer := [z] + s;
    if i, j :| 0 <= i < j < |s| && s[i] == x && s[j] == y {
      assert longer[i + 1] == x && longer[j + 1] == y;
    }
    if x == z && y in s {
      var j :| 0 <= j < |s| && s[j] == y;
      assert longer[0] == x && longer[j + 1] == y;
    }
    if i, j :| 0 <= i < j < |longer| && longer[i] == x && longer[j] == y {
      assert s[j - 1] == y && (i > 0 ==> s[i - 1] == x);
    }
  }

  lemma {:induction false} InsertBefore<T>(le: (T, T) -> bool, x: T, s: seq<T>, y: T)
    requires y in s && le(x, y)
    ensures Earlier(Insert(le, x, s), x, y)
  {
    hide Earlier;
    if le(x, s[0]) {
      EarlierInTail(x, s, x, y);
    } else {
      InsertBefore(le, x, s[1..], y);
      EarlierInTail(s[0], Insert(le, x, s[1..]), x, y);
    }
  }

  lemma {:induction false} InsertKeeps<T>(le: (T, T) -> bool, z: T, s: seq<T>, x: T, y: T)
    requires Earlier(s, x, y)
    ensures Earlier(Insert(le, z, s), x, y)
  {
    hide Earlier;
    EarlierInTail(z, s, x, y);
    if s != [] && !le(z, s[0]) {
      var rest := Insert(le, z, s[1..]);
      assert s == [s[0]] + s[1..];
      EarlierInTail(s[0], s[1..], x, y);
      EarlierInTail(s[0], rest, x, y);
      if Earlier(s[1..], x, y) {
        InsertKeeps(le, z, s[1..], x, y);
      } else {
        SameElementsInsert(le, z, s[1..], y);
      }
    }
  }

  lemma SameElementsInsert<T>(le: (T, T) -> bool, z: T, s: seq<T>, y: T)
    requires y in s
    ensures y in Insert(le, z, s)
  {
    assert y in multiset(Insert(le, z, s));
  }

  /** The sort is stable: of two elements that tie, the one that came first stays first. */
  lemma {:induction false} SortedStable<T>(le: (T, T) -> bool, s: seq<T>, x: T, y: T)
    requires Earlier(s, x, y) && le(x, y)
    ensures Earlier(Sorted(le, s), x, y)
  {
    hide Earlier, Insert;
    if s == [] {
      NothingEarlier(x, y);
    } else {
      assert s == [s[0]] + s[1..];
      EarlierInTail(s[0], s[1..], x, y);
      if Earlier(s[1..], x, y) {
        SortedStable(le, s[1..], x, y);
        InsertKeeps(le, s[0], Sorted(le, s[1..]), x, y);
      } else {
        assert y in multiset(Sorted(le, s[1..]));
        InsertBefore(le, x, Sorted(le, s[1..]), y);
      }
    }
  }

  lemma NothingEarlier<T>(x: T, y: T)
    ensures !Earlier([], x, y)
  {
  }

  /** What is in order stays as it is. */
  lemma {:induction false} SortedAlready<T>(le: (T, T) -> bool, s: seq<T>)
    requires Ordered(le, s)
    ensures Sorted(le, s) == s
  {
    if s != [] {
      SortedAlready(le, s[1..]);
      assert |s| > 1 ==> le(s[0], s[1]);
    }
  }

  lemma {:induction false} InsertOrdered<T(!new)>(le: (T, T) -> bool, x: T, s: seq<T>)
    requires TotalPreorder(le) && Ordered(le, s)
    ensures Ordered(le, Insert(le, x, s))
  {
    if s != [] && !le(x, s[0]) {
      var rest := Insert(le, x, s[1..]);
      InsertOrdered(le, x, s[1..]);
      forall j | 0 <= j < |rest|
        ensures le(s[0], rest[j])
      {
        assert rest[j] in multiset(rest);
        assert rest[j] == x || rest[j] in s[1..];
      }
    } else {
      assert forall j :: 0 <= j < |s| ==> le(x, s[j]);
    }
  }

  lemma {:induction false} SortedOrdered<T(!new)>(le: (T, T) -> bool, s: seq<T>)
    requires TotalPreorder(le)
    ensures Ordered(le, Sorted(le, s))
  {
    if s != [] {
      SortedOrdered(le, s[1..]);
      InsertOrdered(le, s[0], Sorted(le, s[1..]));
    }
  }

  lemma TailMultiset<T>(a: seq<T>)
    requires a != []
    ensures multiset(a[1..]) == multiset(a) - multiset{a[0]}
  {
    assert a == [a[0]] + a[1..];
  }

  lemma WithoutMultiset<T>(b: seq<T>, i: nat)
    requires i < |b|
    ensures multiset(b[..i] + b[i + 1..]) == multiset(b) - multiset{b[i]}
  {
    assert b == b[..i] + [b[i]] + b[i + 1..];
  }

  /** A first element of one arrangement is found in the other, and the rests match again. */
  lemma MatchFirst<T>(a: seq<T>, b: seq<T>) returns (i: nat)
    requires a != [] && multiset(a) == multiset(b)
    ensures i < |b| && b[i] == a[0] && multiset(a[1..]) == multiset(b[..i] + b[i + 1..])
  {
    SameElements(a, b);
    assert a[0] in b;
    i :| 0 <= i < |b| && b[i] == a[0];
    TailMultiset(a);
    WithoutMultiset(b, i);
  }

  /** Elements of `s` that tie in the order are the same element. */
  ghost predicate TiesEqual<T(!new)>(le: (T, T) -> bool, s: seq<T>)
  {
    forall x, y :: x in s && y in s && le(x, y) && le(y, x) ==> x == y
  }

  lemma OrderedHead<T(!new)>(le: (T, T) -> bool, a: seq<T>, x: T)
    requires TotalPreorder(le) && Ordered(le, a) && x in a
    ensures le(a[0], x)
  {
    var i :| 0 <= i < |a| && a[i] == x;
    assert i == 0 || le(a[0], a[i]);
  }

  lemma TieAt<T(!new)>(le: (T, T) -> bool, s: seq<T>, x: T, y: T)
    requires TiesEqual(le, s) && x in s && y in s
    ensures le(x, y) && le(y, x) ==> x == y
  {
  }

  lemma TailKeeps<T(!new)>(le: (T, T) -> bool, s: seq<T>)
    requires s != []
    ensures Ordered(le, s) ==> Ordered(le, s[1..])
    ensures TiesEqual(le, s) ==> TiesEqual(le, s[1..])
  {
  }

  /** An ordered arrangement of a multiset is unique as soon as ties are equal elements. */
  lemma TailsPermute<T>(a: seq<T>, b: seq<T>)
    requires multiset(a) == multiset(b) && a != [] && b != [] && a[0] == b[0]
    ensures multiset(a[1..]) == multiset(b[1..])
  {
    TailMultiset(a);
    TailMultiset(b);
  }

  lemma HeadAndTailEqual<T>(a: seq<T>, b: seq<T>)
    requires a != [] && b != [] && a[0] == b[0] && a[1..] == b[1..]
    ensures a == b
  {
    assert a == [a[0]] + a[1..] && b == [b[0]] + b[1..];
  }

  lemma HeadsEqual<T(!new)>(le: (T, T) -> bool, a: seq<T>, b: seq<T>)
    requires TotalPreorder(le) && Ordered(le, a) && Ordered(le, b) && TiesEqual(le, a)
    requires a != [] && b != [] && forall x :: x in a <==> x in b
    ensures a[0] == b[0]
  {
    hide TotalPreorder, Ordered, TiesEqual;
    assert a[0] in a && b[0] in b;
    TieAt(le, a, a[0], b[0]);
    OrderedHead(le, a, b[0]);
    OrderedHead(le, b, a[0]);
  }

  lemma {:induction false} OrderedUnique<T(!new)>(le: (T, T) -> bool, a: seq<T>, b: seq<T>)
    requires TotalPreorder(le) && Ordered(le, a) && Ordered(le, b)
    requires multiset(a) == multiset(b)
    requires TiesEqual(le, a)
    ensures a == b
  {
    hide TotalPreorder, Ordered, TiesEqual;
    SameElements(a, b);
    if a != [] {
      HeadsEqual(le, a, b);
      TailKeeps(le, a);
      TailKeeps(le, b);
      TailsPermute(a, b);
      OrderedUnique(le, a[1..], b[1..]);
      HeadAndTailEqual(a, b);
    }
  }

  /** Without repetitions, an ordered sequence is determined by its set of elements. */
  lemma {:induction false} OrderedSetUnique<T(!new)>(le: (T, T) -> bool, a: seq<T>, b: seq<T>)
    requires TotalOrder(le) && Ordered(le, a) && Ordered(le, b)
    requires Distinct(a) && Distinct(b)
    requires forall x :: x in a <==> x in b
    ensures a == b
  {
    DistinctMultiset(a);
    DistinctMultiset(b);
    assert multiset(a) == multiset(b);
    OrderedUnique(le, a, b);
  }

  lemma {:induction false} DistinctMultiset<T>(s: seq<T>)
    requires Distinct(s)
    ensures forall x :: multiset(s)[x] == if x in s then 1 else 0
  {
    if s != [] {
      DistinctMultiset(s[1..]);
      assert s == [s[0]] + s[1..];
    }
  }

  lemma {:induction false} MultisetDistinct<T>(s: seq<T>)
    requires forall x :: multiset(s)[x] <= 1
    ensures Distinct(s)
  {
    if s != [] {
      assert s == [s[0]] + s[1..];
      assert forall x :: multiset(s)[x] == multiset{s[0]}[x] + multiset(s[1..])[x];
      MultisetDistinct(s[1..]);
      assert multiset(s[1..])[s[0]] == 0;
      assert s[0] !in s[1..];
    }
  }

  lemma SortedDistinct<T>(le: (T, T) -> bool, s: seq<T>)
    requires Distinct(s)
    ensures Distinct(Sorted(le, s))
  {
    DistinctMultiset(s);
    MultisetDistinct(Sorted(le, s));
  }

  /** `sorted(...)` of a set: the elements once each, in ascending order. */
  method SortedSet<T(==, !new)>(le: (T, T) -> bool, s: set<T>) returns (r: seq<T>)
    requires TotalPreorder(le)
    ensures Ordered(le, r) && Distinct(r)
    ensures forall x :: x in r <==> x in s
  {
    var listed: seq<T> := [];
    var rest := s;
    while rest != {}
      invariant rest <= s && Distinct(listed)
      invariant forall x :: x in listed <==> x in s - rest
      decreases rest
    {
      var x :| x in rest;
      assert x !in listed;
      listed := listed + [x];
      rest := rest - {x};
    }
    r := Sorted(le, listed);
    SortedOrdered(le, listed);
    SortedDistinct(le, listed);
    SameElements(listed, r);
  }
}
