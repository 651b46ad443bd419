/**
  Delta ingest of chunks (or glossary terms) into a remote collection, against the full
  rebuild. Every single write to the collection may fail, and a write reported as failed may
  still have taken effect.
 */
module DeltaIngest {
  import opened Options
  import opened Ordering

  /** What is stored for one object: the hash compared by the delta, and all other properties. */
  datatype Properties = Properties(contentHash: string, rest: string)

  datatype Item = Item(uid: string, properties: Properties)

  type Index = map<string, Properties>

  datatype Write = Insert | Replace | Delete

  datatype Failure = Failed(write: Write, uid: string)

  datatype Report = Report(discovered: nat, inserted: nat, updated: nat, deleted: nat, skipped: nat,
    errors: seq<Failure>)

  ghost function At<V>(m: map<string, V>, uid: string): Option<V>
  {
    if uid in m then Some(m[uid]) else None
  }

  ghost function Hashes(index: Index): map<string, string>
  {
    map uid | uid in index :: index[uid].contentHash
  }

  // ---------------------------------------------------------------------------
  // The remote collection
  // ---------------------------------------------------------------------------

  class Collection {
    var stored: Index
    ghost var failures: nat

    constructor ()
      ensures stored == map[] && failures == 0
    {
      stored, failures := map[], 0;
    }

    /** Insert or replace one object. */
    method Put(item: Item) returns (ok: bool)
      modifies this
      ensures stored == old(stored)[item.uid := item.properties] || (!ok && stored == old(stored))
      ensures failures == old(failures) + if ok then 0 else 1
    {
      ok := *;
      var lost: bool := *;
      if ok || !lost {
        stored := stored[item.uid := item.properties];
      }
      failures := failures + if ok then 0 else 1;
    }

    method DeleteById(uid: string) returns (ok: bool)
      modifies this
      ensures stored == old(stored) - {uid} || (!ok && stored == old(stored))
      ensures failures == old(failures) + if ok then 0 else 1
    {
      ok := *;
      var lost: bool := *;
      if ok || !lost {
        stored := stored - {uid};
      }
      failures := failures + if ok then 0 else 1;
    }
  }

  // ---------------------------------------------------------------------------
  // What a list of objects means as an index
  // ---------------------------------------------------------------------------

  /** `index` after writing the objects in order; a later object replaces an earlier one. */
  ghost function Written(index: Index, items: seq<Item>): Index
  {
    if items == [] then index
    else
      var last := items[|items| - 1];
      Written(index, items[..|items| - 1])[last.uid := last.properties]
  }

  /** The index of a corpus. */
  ghost function Indexed(items: seq<Item>): Index
  {
    Written(map[], items)
  }

  ghost predicate LastFor(items: seq<Item>, uid: string, k: nat)
  {
    k < |items| && items[k].uid == uid && forall j :: k < j < |items| ==> items[j].uid != uid
  }

  ghost predicate Mentions(items: seq<Item>, uid: string)
  {
    exists item :: item in items && item.uid == uid
  }

  /** An index holds, for each id, what the last object with that id says, and nothing else new. */
  lemma {:induction false} WrittenAt(index: Index, items: seq<Item>, uid: string)
    ensures !Mentions(items, uid) ==> At(Written(index, items), uid) == At(index, uid)
    ensures Mentions(items, uid) ==>
            exists k: nat :: LastFor(items, uid, k) && At(Written(index, items), uid) == Some(items[k].properties)
  {
    if items != [] {
      var front, last := items[..|items| - 1], items[|items| - 1];
      assert items == front + [last];
      WrittenAt(index, front, uid);
      if last.uid == uid {
        assert LastFor(items, uid, |items| - 1);
      } else if Mentions(items, uid) {
        assert Mentions(front, uid);
        var k: nat :| LastFor(front, uid, k) && At(Written(index, front), uid) == Some(front[k].properties);
        assert LastFor(items, uid, k);
      }
    }
  }

  /** Objects taken from `index`, one per id. */
  ghost predicate TakenFrom(items: seq<Item>, index: Index)
  {
    forall item :: item in items ==> At(index, item.uid) == Some(item.properties)
  }

  lemma WrittenTaken(index: Index, items: seq<Item>, source: Index, uid: string)
    requires TakenFrom(items, source)
    ensures At(Written(index, items), uid) == if Mentions(items, uid) then At(source, uid) else At(index, uid)
  {
    hide Written;
    WrittenAt(index, items, uid);
    if Mentions(items, uid) {
      var k: nat :| LastFor(items, uid, k) && At(Written(index, items), uid) == Some(items[k].properties);
      assert items[k] in items;
    }
  }

  // ---------------------------------------------------------------------------
  // What a delta means
  // ---------------------------------------------------------------------------

  /** The result of a delta without failures: objects whose hash agrees are left as they are. */
  ghost function Converged(remote: Index, local: Index): Index
  {
    map uid | uid in local ::
      if uid in remote && remote[uid].contentHash == local[uid].contentHash then remote[uid] else local[uid]
  }

  /** Each id holds what it held before, or what the corpus says. */
  ghost predicate OldOrNew(before: Index, after: Index, local: Index)
  {
    forall uid: string {:trigger At(after, uid)} ::
      At(after, uid) == At(before, uid) || At(after, uid) == At(local, uid)
  }

  /** No object keeps its hash while another property changes. */
  ghost predicate HashCovers(remote: Index, local: Index)
  {
    forall uid :: uid in remote && uid in local && remote[uid].contentHash == local[uid].contentHash ==>
      remote[uid] == local[uid]
  }

  /** On hashes, a delta agrees with a full rebuild whatever was stored before. */
  lemma ConvergedHashes(remote: Index, local: Index)
    ensures Hashes(Converged(remote, local)) == Hashes(local)
  {
    assert Converged(remote, local).Keys == local.Keys;
  }

  /** On all properties, it agrees exactly when equal hashes mean equal properties. */
  lemma ConvergedIsRebuilt(remote: Index, local: Index)
    ensures Converged(remote, local) == local <==> HashCovers(remote, local)
  {
    var c := Converged(remote, local);
    assert c.Keys == local.Keys;
    if c == local {
      forall uid | uid in remote && uid in local && remote[uid].contentHash == local[uid].contentHash
        ensures remote[uid] == local[uid]
      {
        assert c[uid] == remote[uid];
      }
    }
  }

  /** A property outside both the hash and the id, such as the title of the document, goes stale. */
  lemma StaleProperty()
    ensures var remote, local := map["u" := Properties("h", "title old")], map["u" := Properties("h", "title new")];
            Hashes(remote) == Hashes(local) && Converged(remote, local) == remote != local
  {
    var remote, local := map["u" := Properties("h", "title old")], map["u" := Properties("h", "title new")];
    assert remote["u"] != local["u"];
  }

  // ---------------------------------------------------------------------------
  // Bulk writes
  // ---------------------------------------------------------------------------

  /** Every id holds what it held before or what one of the objects says. */
  ghost predicate OldOrWritten(before: Index, after: Index, items: seq<Item>)
  {
    forall uid: string {:trigger At(after, uid)} ::
      At(after, uid) == At(before, uid)
        || exists item :: item in items && item.uid == uid && At(after, uid) == Some(item.properties)
  }

  lemma PutKeeps(before: Index, now: Index, after: Index, items: seq<Item>, item: Item)
    requires OldOrWritten(before, now, items)
    requires after == now[item.uid := item.properties] || after == now
    ensures OldOrWritten(before, after, items + [item])
  {
    forall uid: string
      ensures At(after, uid) == At(before, uid)
              || exists i :: i in items + [item] && i.uid == uid && At(after, uid) == Some(i.properties)
    {
      if At(after, uid) == At(now, uid) {
        if At(now, uid) != At(before, uid) {
          var i :| i in items && i.uid == uid && At(now, uid) == Some(i.properties);
          assert i in items + [item];
        }
      } else {
        assert item in items + [item] && item.uid == uid;
      }
    }
  }

  /** The ids whose write was not reported as failed. */
  ghost function Done(write: Write, uids: seq<string>, errors: seq<Failure>): set<string>
  {
    set uid | uid in uids && Failed(write, uid) !in errors
  }

  /** The failures are of this kind of write and of these ids; without repeated ids, each counts once. */
  ghost predicate AreFailures(write: Write, uids: seq<string>, done: nat, errors: seq<Failure>)
  {
    && (forall e :: e in errors ==> e.write == write && e.uid in uids)
    && done + |errors| == |uids|
    && (Distinct(uids) ==> Distinct(errors) && done == |Done(write, uids, errors)|)
  }

  lemma NoFailures(write: Write)
    ensures AreFailures(write, [], 0, [])
  {
    assert Done(write, [], []) == {};
  }

  lemma OneMoreDone(write: Write, uids: seq<string>, done: nat, errors: seq<Failure>, uid: string, ok: bool)
    requires AreFailures(write, uids, done, errors)
    ensures ok ==> AreFailures(write, uids + [uid], done + 1, errors)
    ensures !ok ==> AreFailures(write, uids + [uid], done, errors + [Failed(write, uid)])
  {
    var more := uids + [uid];
    var failed := errors + [Failed(write, uid)];
    if Distinct(more) {
      DistinctFront(uids, uid);
      assert Failed(write, uid) !in errors;
      if ok {
        assert Done(write, more, errors) == Done(write, uids, errors) + {uid};
      } else {
        assert Done(write, more, failed) == Done(write, uids, errors);
      }
    }
  }

  lemma DistinctFront(uids: seq<string>, uid: string)
    requires Distinct(uids + [uid])
    ensures Distinct(uids) && uid !in uids
  {
    var more := uids + [uid];
    assert more[|uids|] == uid && forall i :: 0 <= i < |uids| ==> more[i] == uids[i];
  }

  ghost function Uids(items: seq<Item>): (r: seq<string>)
    ensures |r| == |items|
  {
    seq(|items|, i requires 0 <= i < |items| => items[i].uid)
  }

  lemma UidsMore(items: seq<Item>, i: nat)
    requires i < |items|
    ensures items[..i + 1] == items[..i] + [items[i]] && Uids(items[..i + 1]) == Uids(items[..i]) + [items[i].uid]
  {
  }

  /** Unless a failure names an id, it holds what it would without any. */
  ghost predicate AsWritten(write: Write, before: Index, after: Index, items: seq<Item>, errors: seq<Failure>)
  {
    forall uid: string {:trigger At(after, uid)} ::
      Failed(write, uid) !in errors ==> At(after, uid) == At(Written(before, items), uid)
  }

  lemma AsWrittenMore(write: Write, before: Index, now: Index, after: Index, items: seq<Item>, item: Item,
          errors: seq<Failure>, ok: bool)
    requires AsWritten(write, before, now, items, errors)
    requires after == now[item.uid := item.properties] || (!ok && after == now)
    ensures AsWritten(write, before, after, items + [item], if ok then errors else errors + [Failed(write, item.uid)])
  {
    var more := items + [item];
    assert more[..|items|] == items;
    assert Written(before, more) == Written(before, items)[item.uid := item.properties];
    forall uid: string |
      Failed(write, uid) !in (if ok then errors else errors + [Failed(write, item.uid)])
      ensures At(after, uid) == At(Written(before, more), uid)
    {
      if !ok {
        assert Failed(write, item.uid) in errors + [Failed(write, item.uid)];
      }
      assert Failed(write, uid) !in errors;
      assert At(now, uid) == At(Written(before, items), uid);
    }
  }

  lemma NothingAsWritten(write: Write, index: Index)
    ensures AsWritten(write, index, index, [], [])
  {
  }

  /** Without failures, everything is as written. */
  lemma AllAsWritten(write: Write, before: Index, after: Index, items: seq<Item>)
    requires AsWritten(write, before, after, items, [])
    ensures after == Written(before, items)
  {
    hide Written;
    forall uid: string
      ensures At(after, uid) == At(Written(before, items), uid)
    {
    }
    SameAt(after, Written(before, items));
  }

  method BulkInsert(collection: Collection, items: seq<Item>) returns (inserted: nat, errors: seq<Failure>)
    modifies collection
    ensures AreFailures(Insert, Uids(items), inserted, errors)
    ensures collection.failures == old(collection.failures) + |errors|
    ensures OldOrWritten(old(collection.stored), collection.stored, items)
    ensures AsWritten(Insert, old(collection.stored), collection.stored, items, errors)
    ensures items == [] ==> collection.stored == old(collection.stored)
  {
    hide OldOrWritten, AsWritten, AreFailures, Uids;
    ghost var before := collection.stored;
    NothingWritten(before);
    NothingAsWritten(Insert, before);
    NoFailures(Insert);
    NoUids(items);
    errors := [];
    for i := 0 to |items|
      invariant |errors| <= i && AreFailures(Insert, Uids(items[..i]), i - |errors|, errors)
      invariant collection.failures == old(collection.failures) + |errors|
      invariant OldOrWritten(before, collection.stored, items[..i])
      invariant AsWritten(Insert, before, collection.stored, items[..i], errors)
      invariant i == 0 ==> collection.stored == before
    {
      ghost var now := collection.stored;
      var ok := collection.Put(items[i]);
      UidsMore(items, i);
      PutKeeps(before, now, collection.stored, items[..i], items[i]);
      AsWrittenMore(Insert, before, now, collection.stored, items[..i], items[i], errors, ok);
      OneMoreDone(Insert, Uids(items[..i]), i - |errors|, errors, items[i].uid, ok);
      if !ok {
        errors := errors + [Failed(Insert, items[i].uid)];
      }
    }
    assert items[..|items|] == items;
    inserted := |items| - |errors|;
  }

  lemma NoUids(items: seq<Item>)
    ensures items[..0] == [] && Uids([]) == []
  {
  }

  lemma NothingWritten(index: Index)
    ensures OldOrWritten(index, index, [])
  {
  }

  method BulkReplace(collection: Collection, items: seq<Item>) returns (updated: nat, errors: seq<Failure>)
    modifies collection
    ensures AreFailures(Replace, Uids(items), updated, errors)
    ensures collection.failures == old(collection.failures) + |errors|
    ensures OldOrWritten(old(collection.stored), collection.stored, items)
    ensures AsWritten(Replace, old(collection.stored), collection.stored, items, errors)
    ensures items == [] ==> collection.stored == old(collection.stored)
  {
    hide OldOrWritten, AsWritten, AreFailures, Uids;
    ghost var before := collection.stored;
    NothingWritten(before);
    NothingAsWritten(Replace, before);
    NoFailures(Replace);
    NoUids(items);
    errors, updated := [], 0;
    for i := 0 to |items|
      invariant AreFailures(Replace, Uids(items[..i]), updated, errors)
      invariant collection.failures == old(collection.failures) + |errors|
      invariant OldOrWritten(before, collection.stored, items[..i])
      invariant AsWritten(Replace, before, collection.stored, items[..i], errors)
      invariant i == 0 ==> collection.stored == before
    {
      ghost var now := collection.stored;
      var ok := collection.Put(items[i]);
      UidsMore(items, i);
      PutKeeps(before, now, collection.stored, items[..i], items[i]);
      AsWrittenMore(Replace, before, now, collection.stored, items[..i], items[i], errors, ok);
      OneMoreDone(Replace, Uids(items[..i]), updated, errors, items[i].uid, ok);
      if ok {
        updated := updated + 1;
      } else {
        errors := errors + [Failed(Replace, items[i].uid)];
      }
    }
    assert items[..|items|] == items;
  }

  /** Every id holds what it held before or nothing; unless a failure names it, a listed one holds nothing. */
  ghost predicate AsDeleted(before: Index, after: Index, uids: seq<string>, errors: seq<Failure>)
  {
    forall uid: string {:trigger At(after, uid)} ::
      && (At(after, uid) == At(before, uid) || (uid in uids && At(after, uid) == None))
      && (Failed(Delete, uid) !in errors ==> At(after, uid) == if uid in uids then None else At(before, uid))
  }

  lemma NothingDeleted(before: Index)
    ensures AsDeleted(before, before, [], [])
  {
  }

  lemma AsDeletedMore(before: Index, now: Index, after: Index, uids: seq<string>, uid: string, errors: seq<Failure>,
          ok: bool)
    requires AsDeleted(before, now, uids, errors)
    requires after == now - {uid} || (!ok && after == now)
    ensures AsDeleted(before, after, uids + [uid], if ok then errors else errors + [Failed(Delete, uid)])
  {
    var failed := if ok then errors else errors + [Failed(Delete, uid)];
    forall other: string
      ensures At(after, other) == At(before, other) || (other in uids + [uid] && At(after, other) == None)
      ensures Failed(Delete, other) !in failed ==>
                At(after, other) == if other in uids + [uid] then None else At(before, other)
    {
      assert At(now, other) == At(before, other) || (other in uids && At(now, other) == None);
      assert Failed(Delete, other) in errors ==> Failed(Delete, other) in failed;
      assert !ok ==> Failed(Delete, uid) in failed;
    }
  }

  method BulkDelete(collection: Collection, uids: seq<string>) returns (deleted: nat, errors: seq<Failure>)
    modifies collection
    ensures AreFailures(Delete, uids, deleted, errors)
    ensures collection.failures == old(collection.failures) + |errors|
    ensures AsDeleted(old(collection.stored), collection.stored, uids, errors)
  {
    hide AsDeleted, AreFailures;
    ghost var before := collection.stored;
    NothingDeleted(before);
    NoFailures(Delete);
    assert uids[..0] == [];
    errors, deleted := [], 0;
    for i := 0 to |uids|
      invariant AreFailures(Delete, uids[..i], deleted, errors)
      invariant collection.failures == old(collection.failures) + |errors|
      invariant AsDeleted(before, collection.stored, uids[..i], errors)
    {
      ghost var now := collection.stored;
      assert uids[..i + 1] == uids[..i] + [uids[i]];
      var ok := collection.DeleteById(uids[i]);
      AsDeletedMore(before, now, collection.stored, uids[..i], uids[i], errors, ok);
      OneMoreDone(Delete, uids[..i], deleted, errors, uids[i], ok);
      if ok {
        deleted := deleted + 1;
      } else {
        errors := errors + [Failed(Delete, uids[i])];
      }
    }
    assert uids[..|uids|] == uids;
  }

  // ---------------------------------------------------------------------------
  // Full and delta ingest
  // ---------------------------------------------------------------------------

  /** Full ingest into the collection that was dropped and created anew. */
  method IngestFull(items: seq<Item>) returns (collection: Collection, report: Report)
    ensures fresh(collection)
    ensures report.discovered == |items| && collection.failures == |report.errors|
    ensures AreFailures(Insert, Uids(items), report.inserted, report.errors)
    ensures report.updated == report.deleted == report.skipped == 0
    ensures OldOrWritten(map[], collection.stored, items)
    ensures AsWritten(Insert, map[], collection.stored, items, report.errors)
    ensures report.errors == [] ==> collection.stored == Indexed(items)
  {
    hide OldOrWritten, AsWritten, AreFailures, Uids;
    collection := new Collection();
    var inserted, errors := BulkInsert(collection, items);
    report := Report(|items|, inserted, 0, 0, 0, errors);
    if errors == [] {
      AllAsWritten(Insert, map[], collection.stored, items);
    }
  }

  ghost predicate Enumerates(order: seq<string>, keys: set<string>)
  {
    Distinct(order) && |order| == |keys| && forall uid :: uid in order <==> uid in keys
  }

  lemma EnumeratesNone()
    ensures Enumerates([], {})
  {
  }

  lemma EnumeratesMore(order: seq<string>, keys: set<string>, uid: string)
    requires Enumerates(order, keys) && uid !in keys
    ensures Enumerates(order + [uid], keys + {uid})
  {
  }

  /** The dictionary of local objects, in the order its keys were first seen. */
  method LocalById(items: seq<Item>) returns (order: seq<string>, local: Index)
    ensures local == Indexed(items) && Enumerates(order, local.Keys)
  {
    hide Enumerates;
    order, local := [], map[];
    EnumeratesNone();
    assert local.Keys == {};
    for i := 0 to |items|
      invariant local == Indexed(items[..i])
      invariant Enumerates(order, local.Keys)
    {
      assert items[..i + 1][..i] == items[..i];
      var item := items[i];
      if item.uid !in local {
        EnumeratesMore(order, local.Keys, item.uid);
        order := order + [item.uid];
        assert local[item.uid := item.properties].Keys == local.Keys + {item.uid};
      } else {
        assert local[item.uid := item.properties].Keys == local.Keys;
      }
      local := local[item.uid := item.properties];
    }
    assert items[..|items|] == items;
  }

  /** The hashes of some of the stored objects. */
  ghost function HashesOf(stored: Index, uids: set<string>): map<string, string>
    requires uids <= stored.Keys
  {
    map uid | uid in uids :: stored[uid].contentHash
  }

  lemma HashesOfNone(stored: Index)
    ensures HashesOf(stored, {}) == map[]
  {
  }

  lemma HashesOfMore(stored: Index, uids: set<string>, uid: string)
    requires uids <= stored.Keys && uid in stored
    ensures HashesOf(stored, uids + {uid}) == HashesOf(stored, uids)[uid := stored[uid].contentHash]
  {
  }

  lemma HashesOfAll(stored: Index)
    ensures HashesOf(stored, stored.Keys) == Hashes(stored) && Hashes(stored).Keys == stored.Keys
  {
  }

  /** What the iteration over the collection reads, in whatever order it yields the objects. */
  method FetchRemoteState(collection: Collection) returns (order: seq<string>, remote: map<string, string>)
    ensures remote == Hashes(collection.stored) && Enumerates(order, remote.Keys)
  {
    hide Enumerates, HashesOf;
    order, remote := [], map[];
    EnumeratesNone();
    HashesOfNone(collection.stored);
    var left := collection.stored.Keys;
    ghost var seen: set<string> := {};
    while left != {}
      invariant left + seen == collection.stored.Keys && left !! seen
      invariant seen <= collection.stored.Keys && remote == HashesOf(collection.stored, seen)
      invariant Enumerates(order, seen)
      decreases left
    {
      var uid :| uid in left;
      EnumeratesMore(order, seen, uid);
      HashesOfMore(collection.stored, seen, uid);
      order, left, seen := order + [uid], left - {uid}, seen + {uid};
      remote := remote[uid := collection.stored[uid].contentHash];
    }
    HashesOfAll(collection.stored);
  }

  // Which local objects are new, which differ from the stored hash, which agree with it; and what is stored besides

  ghost function New(remote: Index, local: Index): set<string>
  {
    set uid | uid in local && uid !in remote
  }

  ghost function Changed(remote: Index, local: Index): set<string>
  {
    set uid | uid in local && uid in remote && remote[uid].contentHash != local[uid].contentHash
  }

  ghost function Same(remote: Index, local: Index): set<string>
  {
    set uid | uid in local && uid in remote && remote[uid].contentHash == local[uid].contentHash
  }

  ghost function Unknown(remote: Index, local: Index): set<string>
  {
    set uid | uid in remote && uid !in local
  }

  /** Objects of the corpus, one for each of these ids. */
  ghost predicate Picks(items: seq<Item>, local: Index, uids: set<string>)
  {
    TakenFrom(items, local) && Enumerates(Uids(items), uids)
  }

  lemma PicksNone(local: Index)
    ensures Picks([], local, {})
  {
    EnumeratesNone();
    assert Uids([]) == [];
  }

  lemma PicksMore(items: seq<Item>, local: Index, uids: set<string>, uid: string)
    requires Picks(items, local, uids) && uid in local && uid !in uids
    ensures Picks(items + [Item(uid, local[uid])], local, uids + {uid})
  {
    hide Enumerates;
    EnumeratesMore(Uids(items), uids, uid);
    assert Uids(items + [Item(uid, local[uid])]) == Uids(items) + [uid];
  }

  lemma Picked(items: seq<Item>, local: Index, uids: set<string>, uid: string)
    requires Picks(items, local, uids)
    ensures Mentions(items, uid) <==> uid in uids
  {
    if Mentions(items, uid) {
      var item :| item in items && item.uid == uid;
      var i :| 0 <= i < |items| && items[i] == item;
      assert Uids(items)[i] == uid;
    }
    if uid in uids {
      assert uid in Uids(items);
      var i :| 0 <= i < |items| && Uids(items)[i] == uid;
      assert items[i] in items;
    }
  }

  /** The ids seen so far are in their lists. */
  ghost predicate SortedTo(stored: Index, local: Index, seen: set<string>, toInsert: seq<Item>, toReplace: seq<Item>,
          skipped: nat)
  {
    && Picks(toInsert, local, New(stored, local) * seen) && Picks(toReplace, local, Changed(stored, local) * seen)
    && skipped == |Same(stored, local) * seen|
  }

  lemma SortedNone(stored: Index, local: Index)
    ensures SortedTo(stored, local, {}, [], [], 0)
  {
    hide Picks, New, Changed, Same;
    PicksNone(local);
    assert forall uids: set<string> :: uids * {} == {};
  }

  lemma SortsOne(stored: Index, local: Index, seen: set<string>, uid: string)
    requires uid in local && uid !in seen
    ensures New(stored, local) * (seen + {uid})
            == New(stored, local) * seen + if uid !in stored then {uid} else {}
    ensures Changed(stored, local) * (seen + {uid})
            == Changed(stored, local) * seen
               + if uid in stored && stored[uid].contentHash != local[uid].contentHash then {uid} else {}
    ensures Same(stored, local) * (seen + {uid})
            == Same(stored, local) * seen
               + if uid in stored && stored[uid].contentHash == local[uid].contentHash then {uid} else {}
  {
  }

  lemma SortedMore(stored: Index, local: Index, seen: set<string>, toInsert: seq<Item>, toReplace: seq<Item>,
          skipped: nat, uid: string)
    requires SortedTo(stored, local, seen, toInsert, toReplace, skipped) && uid in local && uid !in seen
    ensures var item, more := Item(uid, local[uid]), seen + {uid};
            if uid !in stored then SortedTo(stored, local, more, toInsert + [item], toReplace, skipped)
            else if stored[uid].contentHash != local[uid].contentHash then
              SortedTo(stored, local, more, toInsert, toReplace + [item], skipped)
            else SortedTo(stored, local, more, toInsert, toReplace, skipped + 1)
  {
    hide Picks, New, Changed, Same;
    SortsOne(stored, local, seen, uid);
    NothingMore(New(stored, local) * seen);
    NothingMore(Changed(stored, local) * seen);
    NothingMore(Same(stored, local) * seen);
    if uid !in stored {
      PicksMore(toInsert, local, New(stored, local) * seen, uid);
    } else if stored[uid].contentHash != local[uid].contentHash {
      PicksMore(toReplace, local, Changed(stored, local) * seen, uid);
    }
  }

  lemma NothingMore(uids: set<string>)
    ensures uids + {} == uids
  {
  }

  method Classify(order: seq<string>, local: Index, remote: map<string, string>, ghost stored: Index)
    returns (toInsert: seq<Item>, toReplace: seq<Item>, skipped: nat)
    requires Enumerates(order, local.Keys) && remote == Hashes(stored)
    ensures Picks(toInsert, local, New(stored, local)) && Picks(toReplace, local, Changed(stored, local))
    ensures skipped == |Same(stored, local)|
  {
    hide SortedTo, Enumerates, Distinct, Picks;
    toInsert, toReplace, skipped := [], [], 0;
    SortedNone(stored, local);
    InOrder(order, local.Keys);
    ghost var seen: set<string> := {};
    for i := 0 to |order|
      invariant seen == set uid | uid in order[..i]
      invariant SortedTo(stored, local, seen, toInsert, toReplace, skipped)
    {
      var uid := order[i];
      NewInOrder(order, i);
      assert order[..i + 1] == order[..i] + [uid];
      SortedMore(stored, local, seen, toInsert, toReplace, skipped, uid);
      seen := seen + {uid};
      if uid !in remote {
        toInsert := toInsert + [Item(uid, local[uid])];
      } else if remote[uid] != local[uid].contentHash {
        toReplace := toReplace + [Item(uid, local[uid])];
      } else {
        skipped := skipped + 1;
      }
    }
    assert order[..|order|] == order;
    AllSorted(stored, local, seen, toInsert, toReplace, skipped);
  }

  lemma AllSorted(stored: Index, local: Index, seen: set<string>, toInsert: seq<Item>, toReplace: seq<Item>,
          skipped: nat)
    requires SortedTo(stored, local, seen, toInsert, toReplace, skipped) && seen == local.Keys
    ensures Picks(toInsert, local, New(stored, local)) && Picks(toReplace, local, Changed(stored, local))
    ensures skipped == |Same(stored, local)|
  {
    hide Picks;
    assert New(stored, local) * seen == New(stored, local);
    assert Changed(stored, local) * seen == Changed(stored, local);
    assert Same(stored, local) * seen == Same(stored, local);
  }

  lemma InOrder(order: seq<string>, keys: set<string>)
    requires Enumerates(order, keys)
    ensures Distinct(order) && forall uid :: uid in order <==> uid in keys
  {
  }

  method ToDelete(order: seq<string>, local: Index) returns (toDelete: seq<string>)
    requires Distinct(order)
    ensures Enumerates(toDelete, set uid | uid in order && uid !in local)
  {
    hide Enumerates, Distinct;
    toDelete := [];
    EnumeratesNone();
    ghost var gone: set<string> := {};
    for i := 0 to |order|
      invariant Enumerates(toDelete, gone)
      invariant gone == set uid | uid in order[..i] && uid !in local
    {
      NewInOrder(order, i);
      assert order[..i + 1] == order[..i] + [order[i]];
      if order[i] !in local {
        EnumeratesMore(toDelete, gone, order[i]);
        toDelete := toDelete + [order[i]];
        gone := gone + {order[i]};
      }
    }
    assert order[..|order|] == order;
  }

  lemma NewInOrder(order: seq<string>, i: nat)
    requires Distinct(order) && i < |order|
    ensures order[i] !in order[..i]
  {
  }

  lemma WritesOldOrNew(before: Index, now: Index, after: Index, items: seq<Item>, local: Index)
    requires OldOrNew(before, now, local) && OldOrWritten(now, after, items) && TakenFrom(items, local)
    ensures OldOrNew(before, after, local)
  {
    forall uid: string
      ensures At(after, uid) == At(before, uid) || At(after, uid) == At(local, uid)
    {
      assert At(now, uid) == At(before, uid) || At(now, uid) == At(local, uid);
      if At(after, uid) != At(now, uid) {
        var item :| item in items && item.uid == uid && At(after, uid) == Some(item.properties);
      }
    }
  }

  lemma DeletesOldOrNew(before: Index, now: Index, after: Index, uids: seq<string>, errors: seq<Failure>, local: Index)
    requires OldOrNew(before, now, local) && forall uid :: uid in uids ==> uid !in local
    requires AsDeleted(now, after, uids, errors)
    ensures OldOrNew(before, after, local)
  {
    forall uid: string
      ensures At(after, uid) == At(before, uid) || At(after, uid) == At(local, uid)
    {
      assert At(now, uid) == At(before, uid) || At(now, uid) == At(local, uid);
    }
  }

  lemma {:induction false} WrittenAlike(a: Index, b: Index, items: seq<Item>, uid: string)
    requires At(a, uid) == At(b, uid)
    ensures At(Written(a, items), uid) == At(Written(b, items), uid)
  {
    if items != [] {
      WrittenAlike(a, b, items[..|items| - 1], uid);
    }
  }

  /** Inserting the new, replacing the changed and deleting the unknown objects is the whole delta. */
  lemma CleanDelta(remote: Index, local: Index, toInsert: seq<Item>, toReplace: seq<Item>, uid: string)
    requires Picks(toInsert, local, New(remote, local)) && Picks(toReplace, local, Changed(remote, local))
    ensures At(Converged(remote, local), uid)
            == if uid in Unknown(remote, local) then None else At(Written(Written(remote, toInsert), toReplace), uid)
  {
    hide Written, Mentions;
    WrittenTaken(Written(remote, toInsert), toReplace, local, uid);
    WrittenTaken(remote, toInsert, local, uid);
    Picked(toInsert, local, New(remote, local), uid);
    Picked(toReplace, local, Changed(remote, local), uid);
  }

  /** Whatever fails: unless a failure names an id, it holds what it would without any. */
  ghost predicate ConvergedUnlessReported(before: Index, after: Index, local: Index, errors: seq<Failure>)
  {
    forall uid: string {:trigger At(after, uid)} ::
      (forall e :: e in errors ==> e.uid != uid) ==> At(after, uid) == At(Converged(before, local), uid)
  }

  lemma Unreported(before: Index, first: Index, second: Index, after: Index, local: Index, toInsert: seq<Item>,
          toReplace: seq<Item>, toDelete: seq<string>, e1: seq<Failure>, e2: seq<Failure>, e3: seq<Failure>)
    requires Picks(toInsert, local, New(before, local)) && Picks(toReplace, local, Changed(before, local))
    requires forall uid :: uid in toDelete <==> uid in Unknown(before, local)
    requires AsWritten(Insert, before, first, toInsert, e1) && AsWritten(Replace, first, second, toReplace, e2)
    requires AsDeleted(second, after, toDelete, e3)
    ensures ConvergedUnlessReported(before, after, local, e1 + e2 + e3)
  {
    hide Picks, Written, Converged, Unknown, New, Changed;
    forall uid: string | forall e :: e in e1 + e2 + e3 ==> e.uid != uid
      ensures At(after, uid) == At(Converged(before, local), uid)
    {
      NotIn(uid, e1, e2, e3);
      assert At(first, uid) == At(Written(before, toInsert), uid);
      assert At(second, uid) == At(Written(first, toReplace), uid);
      WrittenAlike(first, Written(before, toInsert), toReplace, uid);
      CleanDelta(before, local, toInsert, toReplace, uid);
    }
  }

  lemma NotIn(uid: string, e1: seq<Failure>, e2: seq<Failure>, e3: seq<Failure>)
    requires forall e :: e in e1 + e2 + e3 ==> e.uid != uid
    ensures Failed(Insert, uid) !in e1 && Failed(Replace, uid) !in e2 && Failed(Delete, uid) !in e3
  {
    forall write: Write
      ensures Failed(write, uid) !in e1 + e2 + e3
    {
      assert Failed(write, uid).uid == uid;
    }
  }

  lemma NothingReported(before: Index, after: Index, local: Index)
    requires ConvergedUnlessReported(before, after, local, [])
    ensures after == Converged(before, local)
  {
    hide Converged;
    forall uid: string
      ensures At(after, uid) == At(Converged(before, local), uid)
    {
    }
    SameAt(after, Converged(before, local));
  }

  lemma SameAt(a: Index, b: Index)
    requires forall uid: string :: At(a, uid) == At(b, uid)
    ensures a == b
  {
    forall uid: string
      ensures uid in a <==> uid in b
      ensures uid in a ==> a[uid] == b[uid]
    {
      assert At(a, uid) == At(b, uid);
    }
  }

  /** The ids a kind of write is for. */
  ghost function Due(write: Write, remote: Index, local: Index): set<string>
  {
    match write
    case Insert => New(remote, local)
    case Replace => Changed(remote, local)
    case Delete => Unknown(remote, local)
  }

  /** The ids of these whose write was not reported as failed. */
  ghost function Carried(write: Write, uids: set<string>, errors: seq<Failure>): set<string>
  {
    set uid | uid in uids && Failed(write, uid) !in errors
  }

  /** Every count is that of its own set of ids, failures left out, and each failure is of an id of its set. */
  ghost predicate IsAccount(remote: Index, local: Index, report: Report)
  {
    && report.discovered == |local|
    && report.inserted == |Carried(Insert, New(remote, local), report.errors)|
    && report.updated == |Carried(Replace, Changed(remote, local), report.errors)|
    && report.deleted == |Carried(Delete, Unknown(remote, local), report.errors)|
    && report.skipped == |Same(remote, local)|
    && Distinct(report.errors) && forall e :: e in report.errors ==> e.uid in Due(e.write, remote, local)
  }

  /** Without failures, the counts are the sizes of the sets. */
  lemma CleanAccount(remote: Index, local: Index, report: Report)
    requires IsAccount(remote, local, report) && report.errors == []
    ensures report.inserted == |New(remote, local)| && report.updated == |Changed(remote, local)|
    ensures report.deleted == |Unknown(remote, local)|
    ensures report.inserted + report.updated + report.skipped == report.discovered
  {
    hide New, Changed, Unknown, Same;
    assert forall write: Write, uids :: Carried(write, uids, []) == uids;
    Sorted(remote, local);
  }

  lemma Sorted(remote: Index, local: Index)
    ensures |New(remote, local)| + |Changed(remote, local)| + |Same(remote, local)| == |local|
  {
    hide New, Changed, Same;
    Parts(remote, local);
    AddUp(New(remote, local), Changed(remote, local), Same(remote, local), local.Keys);
  }

  lemma Parts(remote: Index, local: Index)
    ensures New(remote, local) !! Changed(remote, local) && New(remote, local) !! Same(remote, local)
    ensures Changed(remote, local) !! Same(remote, local)
    ensures New(remote, local) + Changed(remote, local) + Same(remote, local) == local.Keys
  {
  }

  lemma AddUp(a: set<string>, b: set<string>, c: set<string>, all: set<string>)
    requires a !! b && a !! c && b !! c && a + b + c == all
    ensures |a| + |b| + |c| == |all|
  {
    assert |a + b + c| == |a + b| + |c|;
  }

  lemma CarriedOut(write: Write, uids: seq<string>, keys: set<string>, done: nat, errors: seq<Failure>,
          all: seq<Failure>)
    requires AreFailures(write, uids, done, errors) && Enumerates(uids, keys)
    requires forall uid :: Failed(write, uid) in all <==> Failed(write, uid) in errors
    ensures done == |Carried(write, keys, all)|
  {
    assert Done(write, uids, errors) == Carried(write, keys, all);
  }

  lemma Accounted(remote: Index, local: Index, i: seq<string>, r: seq<string>, d: seq<string>, report: Report,
          e1: seq<Failure>, e2: seq<Failure>, e3: seq<Failure>)
    requires Enumerates(i, New(remote, local)) && Enumerates(r, Changed(remote, local))
    requires Enumerates(d, Unknown(remote, local))
    requires AreFailures(Insert, i, report.inserted, e1) && AreFailures(Replace, r, report.updated, e2)
    requires AreFailures(Delete, d, report.deleted, e3) && report.errors == e1 + e2 + e3
    requires report.discovered == |local| && report.skipped == |Same(remote, local)|
    ensures IsAccount(remote, local, report)
  {
    hide New, Changed, Unknown, Same, Carried, Enumerates, AreFailures;
    Failures(Insert, i, New(remote, local), report.inserted, e1);
    Failures(Replace, r, Changed(remote, local), report.updated, e2);
    Failures(Delete, d, Unknown(remote, local), report.deleted, e3);
    CarriedOut(Insert, i, New(remote, local), report.inserted, e1, report.errors);
    CarriedOut(Replace, r, Changed(remote, local), report.updated, e2, report.errors);
    CarriedOut(Delete, d, Unknown(remote, local), report.deleted, e3, report.errors);
    DistinctKinds(e1, e2, e3);
  }

  lemma Failures(write: Write, uids: seq<string>, keys: set<string>, done: nat, errors: seq<Failure>)
    requires AreFailures(write, uids, done, errors) && Enumerates(uids, keys)
    ensures Distinct(errors) && forall e :: e in errors ==> e.write == write && e.uid in keys
  {
  }

  lemma DistinctKinds(e1: seq<Failure>, e2: seq<Failure>, e3: seq<Failure>)
    requires Distinct(e1) && Distinct(e2) && Distinct(e3)
    requires forall e :: e in e1 ==> e.write == Insert
    requires forall e :: e in e2 ==> e.write == Replace
    requires forall e :: e in e3 ==> e.write == Delete
    ensures Distinct(e1 + e2 + e3)
  {
    DistinctBoth(e1, e2);
    DistinctBoth(e1 + e2, e3);
  }

  lemma DistinctBoth<T>(a: seq<T>, b: seq<T>)
    requires Distinct(a) && Distinct(b) && forall x :: x in a ==> x !in b
    ensures Distinct(a + b)
  {
    var both := a + b;
    forall i, j | 0 <= i < j < |both|
      ensures both[i] != both[j]
    {
      if i < |a| <= j {
        assert both[i] in a && both[j] in b;
      }
    }
  }

  /** The report of a run that found nothing to do. */
  ghost function AllSkipped(discovered: nat): Report
  {
    Report(discovered, 0, 0, 0, discovered, [])
  }

  /**
    The delta. Whatever fails, every id holds what it held before or what the corpus says, and
    an id that no failure names holds what it would without any: the object of the corpus, up to
    properties outside the hash. Every count is that of its own set of ids; and all is reported
    as skipped iff the stored hashes were those of the corpus.
   */
  method IngestDelta(collection: Collection, items: seq<Item>) returns (report: Report)
    modifies collection
    ensures OldOrNew(old(collection.stored), collection.stored, Indexed(items))
    ensures ConvergedUnlessReported(old(collection.stored), collection.stored, Indexed(items), report.errors)
    ensures report.errors == [] ==> collection.stored == Converged(old(collection.stored), Indexed(items))
    ensures IsAccount(old(collection.stored), Indexed(items), report)
    ensures collection.failures == old(collection.failures) + |report.errors|
    ensures report == AllSkipped(report.discovered) <==> Hashes(old(collection.stored)) == Hashes(Indexed(items))
    ensures report == AllSkipped(report.discovered) ==> collection.stored == old(collection.stored)
  {
    hide OldOrNew, OldOrWritten, AsWritten, AsDeleted, AreFailures, Converged, ConvergedUnlessReported, Written, Uids;
    hide New, Changed, Same, Unknown, IsAccount, TakenFrom, Enumerates, Distinct;
    ghost var before := collection.stored;
    var remoteOrder, remote := FetchRemoteState(collection);
    var localOrder, local := LocalById(items);
    var toInsert, toReplace, skipped := Classify(localOrder, local, remote, before);
    InOrder(remoteOrder, remote.Keys);
    var toDelete := ToDelete(remoteOrder, local);
    UnknownAre(remoteOrder, before, local);
    StaysOldOrNew(before, local);
    InOrder(toDelete, Unknown(before, local));
    var inserted, insertErrors := BulkInsert(collection, toInsert);
    WritesOldOrNew(before, before, collection.stored, toInsert, local);
    ghost var first := collection.stored;
    var updated, replaceErrors := BulkReplace(collection, toReplace);
    WritesOldOrNew(before, first, collection.stored, toReplace, local);
    ghost var second := collection.stored;
    var deleted, deleteErrors := BulkDelete(collection, toDelete);
    DeletesOldOrNew(before, second, collection.stored, toDelete, deleteErrors, local);
    report := Report(|local|, inserted, updated, deleted, skipped, insertErrors + replaceErrors + deleteErrors);
    Unreported(before, first, second, collection.stored, local, toInsert, toReplace, toDelete, insertErrors,
      replaceErrors, deleteErrors);
    Accounted(before, local, Uids(toInsert), Uids(toReplace), toDelete, report, insertErrors, replaceErrors,
      deleteErrors);
    if report.errors == [] {
      NothingReported(before, collection.stored, local);
    }
    AllSkippedIff(before, local, report);
    if report == AllSkipped(report.discovered) {
      NothingChanges(before, collection.stored, local);
    }
  }

  lemma UnknownAre(order: seq<string>, remote: Index, local: Index)
    requires forall uid :: uid in order <==> uid in Hashes(remote)
    ensures (set uid | uid in order && uid !in local) == Unknown(remote, local)
  {
  }

  lemma StaysOldOrNew(before: Index, local: Index)
    ensures OldOrNew(before, before, local)
  {
  }

  lemma SameHashes(remote: Index, local: Index)
    ensures Hashes(remote) == Hashes(local) <==>
            New(remote, local) == Changed(remote, local) == Unknown(remote, local) == {}
  {
    if Hashes(remote) == Hashes(local) {
      assert Hashes(remote).Keys == remote.Keys && Hashes(local).Keys == local.Keys;
      assert forall uid :: uid in local ==> Hashes(remote)[uid] == local[uid].contentHash;
    }
    if New(remote, local) == Changed(remote, local) == Unknown(remote, local) == {} {
      forall uid: string
        ensures uid in remote <==> uid in local
        ensures uid in local ==> remote[uid].contentHash == local[uid].contentHash
      {
        assert uid !in New(remote, local) && uid !in Changed(remote, local) && uid !in Unknown(remote, local);
      }
      assert Hashes(remote) == Hashes(local);
    }
  }

  lemma NoneDue(remote: Index, local: Index, errors: seq<Failure>)
    requires forall e :: e in errors ==> e.uid in Due(e.write, remote, local)
    ensures New(remote, local) == Changed(remote, local) == Unknown(remote, local) == {} ==> errors == []
  {
    hide New, Changed, Unknown;
    if errors != [] {
      var e := errors[0];
      assert e.uid in Due(e.write, remote, local);
    }
  }

  lemma AllSkippedIff(remote: Index, local: Index, report: Report)
    requires IsAccount(remote, local, report)
    ensures report == AllSkipped(report.discovered) <==> Hashes(remote) == Hashes(local)
  {
    hide Hashes, New, Changed, Unknown, Same, Distinct;
    SameHashes(remote, local);
    Sorted(remote, local);
    if Hashes(remote) == Hashes(local) {
      NoneDue(remote, local, report.errors);
    }
    if report.errors == [] {
      CleanAccount(remote, local, report);
    }
  }

  lemma NothingChanges(before: Index, after: Index, local: Index)
    requires after == Converged(before, local) && Hashes(before) == Hashes(local)
    ensures after == before
  {
    hide Hashes;
    SameHashes(before, local);
    forall uid: string
      ensures At(after, uid) == At(before, uid)
    {
      assert uid !in New(before, local) && uid !in Changed(before, local) && uid !in Unknown(before, local);
    }
    SameAt(after, before);
  }

  // ---------------------------------------------------------------------------
  // Whole histories
  // ---------------------------------------------------------------------------

  /** Some corpus of the history, or the collection before it, holds this for the id. */
  ghost predicate FromHistory(before: Index, corpora: seq<seq<Item>>, uid: string, value: Option<Properties>)
  {
    value == At(before, uid) || exists k :: 0 <= k < |corpora| && value == At(Indexed(corpora[k]), uid)
  }

  lemma HistoryGrows(before: Index, corpora: seq<seq<Item>>, now: Index, after: Index, corpus: seq<Item>)
    requires forall uid: string {:trigger At(now, uid)} :: FromHistory(before, corpora, uid, At(now, uid))
    requires OldOrNew(now, after, Indexed(corpus))
    ensures forall uid: string {:trigger At(after, uid)} :: FromHistory(before, corpora + [corpus], uid, At(after, uid))
  {
    hide Written;
    var longer := corpora + [corpus];
    forall uid: string
      ensures FromHistory(before, longer, uid, At(after, uid))
    {
      assert FromHistory(before, corpora, uid, At(now, uid));
      assert longer[|corpora|] == corpus;
      if At(after, uid) == At(now, uid) && At(now, uid) != At(before, uid) {
        var k :| 0 <= k < |corpora| && At(now, uid) == At(Indexed(corpora[k]), uid);
        assert longer[k] == corpora[k];
      }
    }
  }

  /**
    Delta after delta over a changing corpus, failures included: nothing is ever stored that no
    corpus said, and one run without failures makes the hashes those of its corpus again.
   */
  method IngestHistory(collection: Collection, corpora: seq<seq<Item>>) returns (reports: seq<Report>)
    modifies collection
    ensures |reports| == |corpora|
    ensures forall uid: string {:trigger At(collection.stored, uid)} ::
            FromHistory(old(collection.stored), corpora, uid, At(collection.stored, uid))
    ensures corpora != [] && reports[|reports| - 1].errors == [] ==>
            Hashes(collection.stored) == Hashes(Indexed(corpora[|corpora| - 1]))
  {
    hide Written, OldOrNew, FromHistory;
    reports := [];
    ghost var before := collection.stored;
    HistoryStarts(before);
    for i := 0 to |corpora|
      invariant |reports| == i
      invariant forall uid: string {:trigger At(collection.stored, uid)} ::
                FromHistory(before, corpora[..i], uid, At(collection.stored, uid))
      invariant i > 0 && reports[i - 1].errors == [] ==> Hashes(collection.stored) == Hashes(Indexed(corpora[i - 1]))
    {
      ghost var now := collection.stored;
      var report := IngestDelta(collection, corpora[i]);
      reports := reports + [report];
      HistoryGrows(before, corpora[..i], now, collection.stored, corpora[i]);
      assert corpora[..i + 1] == corpora[..i] + [corpora[i]];
      ConvergedHashes(now, Indexed(corpora[i]));
    }
    assert corpora[..|corpora|] == corpora;
  }

  lemma HistoryStarts(before: Index)
    ensures forall uid: string {:trigger At(before, uid)} :: FromHistory(before, [], uid, At(before, uid))
  {
  }

  /** A rebuild and a delta of the same corpus, both without failures, agree on every hash. */
  method RebuildAgreesWithDelta(collection: Collection, items: seq<Item>)
    returns (delta: Report, again: Report, full: Report, rebuilt: Collection)
    modifies collection
    ensures fresh(rebuilt)
    ensures delta.errors == [] && full.errors == [] ==> Hashes(collection.stored) == Hashes(rebuilt.stored)
    ensures delta.errors == [] && full.errors == [] && HashCovers(old(collection.stored), Indexed(items)) ==>
            collection.stored == rebuilt.stored
    ensures delta.errors == [] ==> again == AllSkipped(|Indexed(items)|)
  {
    hide Written, OldOrNew, Converged, HashCovers;
    ghost var before := collection.stored;
    delta := IngestDelta(collection, items);
    ConvergedHashes(before, Indexed(items));
    ConvergedIsRebuilt(before, Indexed(items));
    again := IngestDelta(collection, items);
    rebuilt, full := IngestFull(items);
  }
}
