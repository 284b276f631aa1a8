/** `merge`: folds a batch of scraped records into the stored collection, keyed by `server`. */
module Merger {
  import opened Values

  /** The value a `rapidjson::Value&` designates; `merge` rewrites it in place. */
  class ValueRef {
    var value: Json

    constructor (value: Json)
      ensures this.value == value
    {
      this.value := value;
    }
  }

  /** Entry i of `entries` is keyed `k`. */
  predicate KeyedAt(entries: seq<Json>, i: int, k: string)
    requires AllReadable(entries)
  {
    0 <= i < |entries| && Server(entries[i]) == Some(k)
  }

  /** No key is held by two entries. */
  ghost predicate UniqueKeys(entries: seq<Json>)
    requires AllReadable(entries)
  {
    forall i, j, k :: KeyedAt(entries, i, k) && KeyedAt(entries, j, k) ==> i == j
  }

  /** Two distinct entries keyed `k` break uniqueness. */
  lemma NotUnique(entries: seq<Json>, i: nat, j: nat, k: string)
    requires AllReadable(entries) && i != j && KeyedAt(entries, i, k) && KeyedAt(entries, j, k)
    ensures !UniqueKeys(entries)
  {
  }

  /** Every position the index holds is a position of `entries`. */
  predicate IndexInRange(index: map<string, nat>, entries: seq<Json>) {
    forall k :: k in index ==> index[k] < |entries|
  }

  /** The index of the first loop of `merge`: each key of the entries to the position of the
      last entry holding it, since a later `servers[key] = &v` overwrites an earlier one. */
  function IndexOf(entries: seq<Json>): (index: map<string, nat>)
    requires AllReadable(entries)
    ensures IndexInRange(index, entries)
  {
    if entries == [] then map[]
    else
      var n := |entries| - 1;
      var earlier := IndexOf(entries[..n]);
      match Server(entries[n])
      case None => earlier
      case Some(k) => earlier[k := n]
  }

  /** Key `k` is in the index exactly when an entry holds it, and then the index gives the last
      entry that holds it. */
  lemma {:induction false} IndexOfKey(entries: seq<Json>, k: string)
    requires AllReadable(entries)
    ensures k in IndexOf(entries) <==> exists i :: KeyedAt(entries, i, k)
    ensures k in IndexOf(entries) ==>
              KeyedAt(entries, IndexOf(entries)[k], k) &&
              forall j :: IndexOf(entries)[k] < j < |entries| ==> !KeyedAt(entries, j, k)
  {
    if entries != [] {
      var n := |entries| - 1;
      var front := entries[..n];
      IndexOfKey(front, k);
      assert forall i :: 0 <= i < n ==> front[i] == entries[i];
      assert forall i :: 0 <= i < n ==> (KeyedAt(front, i, k) <==> KeyedAt(entries, i, k));
      if KeyedAt(entries, n, k) {
        assert IndexOf(entries) == IndexOf(front)[k := n];
      } else {
        assert k in IndexOf(entries) <==> k in IndexOf(front);
        if k in IndexOf(entries) {
          assert IndexOf(entries)[k] == IndexOf(front)[k];
        }
        if exists i :: KeyedAt(entries, i, k) {
          var i :| KeyedAt(entries, i, k);
          assert KeyedAt(front, i, k);
        }
      }
    }
  }

  /** One pass of the second loop of `merge` on record `v`. */
  function Step(entries: seq<Json>, index: map<string, nat>, v: Json): seq<Json>
    requires IndexInRange(index, entries) && Readable(v)
  {
    match Server(v)
    case None => entries
    case Some(k) => if k in index then entries[index[k] := v] else entries + [v]
  }

  /** The entries after the second loop of `merge` has run over `batch` with a fixed index. */
  function Upsert(entries: seq<Json>, index: map<string, nat>, batch: seq<Json>): (r: seq<Json>)
    requires IndexInRange(index, entries) && AllReadable(entries) && AllReadable(batch)
    ensures |r| >= |entries| && AllReadable(r)
  {
    if batch == [] then entries
    else
      var n := |batch| - 1;
      Step(Upsert(entries, index, batch[..n]), index, batch[n])
  }

  /** `merge(local, remote)`: swaps the batch in when the local value is empty or not an array;
      otherwise indexes the local entries once, then replaces the entry of every batch record
      with a known key and appends every record with a new one. */
  method Merge(local: ValueRef, remote: Json)
    requires MergeReady(local.value, remote)
    modifies local
    ensures local.value == Merged(old(local.value), remote)
    ensures !old(local.value).Arr? || old(local.value).items == [] ==> local.value == remote
  {
    if !local.value.Arr? || local.value.items == [] {
      local.value := remote;
      return;
    }
    ghost var original := local.value.items;
    var servers: map<string, nat> := map[];
    for n := 0 to |local.value.items|
      invariant local.value.items == original
      invariant servers == IndexOf(original[..n])
    {
      assert original[..n + 1][..n] == original[..n];
      var v := local.value.items[n];
      if HasMember(v, ServerField) {
        servers := servers[Server(v).value := n];
      }
    }
    assert original[..|original|] == original;

    for i := 0 to |remote.items|
      invariant local.value == Arr(Upsert(original, servers, remote.items[..i]))
    {
      assert remote.items[..i + 1][..i] == remote.items[..i];
      var v := remote.items[i];
      if !HasMember(v, ServerField) {
        continue;
      }
      var key := Server(v).value;
      if key in servers {
        local.value := Arr(local.value.items[servers[key] := v]);
      } else {
        local.value := Arr(local.value.items + [v]);
      }
    }
    assert remote.items[..|remote.items|] == remote.items;
  }

  /** The batch records with a `server` key the index does not hold, in batch order: the
      records the second loop appends. */
  function Appended(index: map<string, nat>, batch: seq<Json>): (r: seq<Json>)
    requires AllReadable(batch)
    ensures AllReadable(r)
    ensures forall p :: 0 <= p < |r| ==> Server(r[p]).Some? && Server(r[p]).value !in index
  {
    if batch == [] then []
    else
      var n := |batch| - 1;
      var v := batch[n];
      Appended(index, batch[..n]) + (if Server(v).Some? && Server(v).value !in index then [v] else [])
  }

  /** The last batch record whose key the index sends to position i, if any. */
  function Replacement(index: map<string, nat>, batch: seq<Json>, i: nat): Option<Json>
    requires AllReadable(batch)
  {
    if batch == [] then None
    else
      var n := |batch| - 1;
      var v := batch[n];
      if Server(v).Some? && Server(v).value in index && index[Server(v).value] == i then Some(v)
      else Replacement(index, batch[..n], i)
  }

  /** The last batch record keyed `k`, if any. */
  function LastWithKey(batch: seq<Json>, k: string): (r: Option<Json>)
    requires AllReadable(batch)
    ensures r.None? <==> forall j :: 0 <= j < |batch| ==> !KeyedAt(batch, j, k)
    ensures r.Some? ==> r.value in batch && Readable(r.value) && Server(r.value) == Some(k)
  {
    if batch == [] then None
    else
      var n := |batch| - 1;
      if Server(batch[n]) == Some(k) then
        assert KeyedAt(batch, n, k);
        Some(batch[n])
      else
        var r := LastWithKey(batch[..n], k);
        assert forall j :: 0 <= j < n ==> batch[..n][j] == batch[j];
        assert forall j :: 0 <= j < n ==> (KeyedAt(batch[..n], j, k) <==> KeyedAt(batch, j, k));
        r
  }

  /** The second loop keeps every existing position: position i ends up holding the last batch
      record sent there by the index, or its old entry; the records with new keys follow, in
      batch order. */
  lemma {:induction false} UpsertShape(entries: seq<Json>, index: map<string, nat>, batch: seq<Json>)
    requires IndexInRange(index, entries) && AllReadable(entries) && AllReadable(batch)
    ensures |Upsert(entries, index, batch)| == |entries| + |Appended(index, batch)|
    ensures Upsert(entries, index, batch)[|entries|..] == Appended(index, batch)
    ensures forall i :: 0 <= i < |entries| ==>
              Upsert(entries, index, batch)[i] == Replacement(index, batch, i).GetOr(entries[i])
  {
    if batch != [] {
      var n := |batch| - 1;
      var front := batch[..n];
      UpsertShape(entries, index, front);
      var prev := Upsert(entries, index, front);
      var v := batch[n];
      assert Upsert(entries, index, batch) == Step(prev, index, v);
      if Server(v).Some? && Server(v).value !in index {
        assert Appended(index, batch) == Appended(index, front) + [v];
        assert Upsert(entries, index, batch) == prev + [v];
        assert (prev + [v])[|entries|..] == prev[|entries|..] + [v];
      } else {
        assert Appended(index, batch) == Appended(index, front);
      }
    }
  }

  /** Two keys never share a position of the index, so the records the index sends to the
      position of key `k` are exactly the records keyed `k`. */
  lemma {:induction false} ReplacementOfKey(index: map<string, nat>, batch: seq<Json>, k: string)
    requires AllReadable(batch) && k in index
    requires forall k' :: k' in index && index[k'] == index[k] ==> k' == k
    ensures Replacement(index, batch, index[k]) == LastWithKey(batch, k)
  {
    if batch != [] {
      ReplacementOfKey(index, batch[..|batch| - 1], k);
    }
  }

  /** A position no key of the index points at receives no record. */
  lemma {:induction false} ReplacementUnindexed(index: map<string, nat>, batch: seq<Json>, i: nat)
    requires AllReadable(batch)
    requires forall k :: k in index ==> index[k] != i
    ensures Replacement(index, batch, i) == None
  {
    if batch != [] {
      ReplacementUnindexed(index, batch[..|batch| - 1], i);
    }
  }

  /** LastWithKey picks the record at the last position keyed `k`. */
  lemma {:induction false} LastWithKeyAt(batch: seq<Json>, k: string, j: nat)
    requires AllReadable(batch) && KeyedAt(batch, j, k)
    requires forall j' :: j < j' < |batch| ==> !KeyedAt(batch, j', k)
    ensures LastWithKey(batch, k) == Some(batch[j])
  {
    var n := |batch| - 1;
    if j < n {
      assert !KeyedAt(batch, n, k);
      assert forall j' :: 0 <= j' < n ==> batch[..n][j'] == batch[j'];
      assert KeyedAt(batch[..n], j, k);
      forall j' | j < j' < n ensures !KeyedAt(batch[..n], j', k) {
        assert !KeyedAt(batch, j', k);
      }
      LastWithKeyAt(batch[..n], k, j);
    }
  }

  /** A batch whose every key is already indexed appends nothing. */
  lemma {:induction false} AppendedNone(index: map<string, nat>, batch: seq<Json>)
    requires AllReadable(batch)
    requires forall j :: 0 <= j < |batch| && Server(batch[j]).Some? ==> Server(batch[j]).value in index
    ensures Appended(index, batch) == []
  {
    if batch != [] {
      AppendedNone(index, batch[..|batch| - 1]);
    }
  }

  /** A record with a new key is among the appended records. */
  lemma {:induction false} AppendedContains(index: map<string, nat>, batch: seq<Json>, j: nat)
    requires AllReadable(batch) && j < |batch|
    requires Server(batch[j]).Some? && Server(batch[j]).value !in index
    ensures exists p :: 0 <= p < |Appended(index, batch)| && Appended(index, batch)[p] == batch[j]
  {
    var n := |batch| - 1;
    if j < n {
      assert batch[..n][j] == batch[j];
      AppendedContains(index, batch[..n], j);
      var p :| 0 <= p < |Appended(index, batch[..n])| && Appended(index, batch[..n])[p] == batch[j];
      assert Appended(index, batch)[p] == batch[j];
    } else {
      assert Appended(index, batch)[|Appended(index, batch)| - 1] == batch[j];
    }
  }

  /** The records appended for a prefix of the batch come first, unchanged. */
  lemma AppendedExtends(index: map<string, nat>, batch: seq<Json>)
    requires AllReadable(batch) && batch != []
    ensures var front, r := Appended(index, batch[..|batch| - 1]), Appended(index, batch);
            |front| <= |r| && r[..|front|] == front
  {
  }

  /** Two records with new keys are both appended, in batch order. */
  lemma {:induction false} AppendedInOrder(index: map<string, nat>, batch: seq<Json>, j1: nat, j2: nat)
    requires AllReadable(batch) && j1 < j2 < |batch|
    requires Server(batch[j1]).Some? && Server(batch[j1]).value !in index
    requires Server(batch[j2]).Some? && Server(batch[j2]).value !in index
    ensures exists p, q :: 0 <= p < q < |Appended(index, batch)| &&
              Appended(index, batch)[p] == batch[j1] && Appended(index, batch)[q] == batch[j2]
  {
    var n := |batch| - 1;
    var front := batch[..n];
    assert front[j1] == batch[j1];
    var r, prefix := Appended(index, batch), Appended(index, front);
    AppendedExtends(index, batch);
    if j2 == n {
      AppendedContains(index, front, j1);
      var p :| 0 <= p < |prefix| && prefix[p] == batch[j1];
      assert r == prefix + [batch[n]];
      assert r[p] == batch[j1] && r[|prefix|] == batch[j2];
    } else {
      assert front[j2] == batch[j2];
      AppendedInOrder(index, front, j1, j2);
      var p, q :| 0 <= p < q < |prefix| && prefix[p] == batch[j1] && prefix[q] == batch[j2];
      assert r[p] == prefix[p] && r[q] == prefix[q];
    }
  }

  /** What `merge` requires: rapidjson asserts that the batch is an array and that every record
      it inspects is readable; with an empty or non-array local value nothing is inspected. */
  predicate MergeReady(local: Json, remote: Json) {
    local.Arr? && local.items != [] ==>
      remote.Arr? && AllReadable(local.items) && AllReadable(remote.items)
  }

  /** The value `merge` leaves in `local`. */
  function Merged(local: Json, remote: Json): Json
    requires MergeReady(local, remote)
  {
    if !local.Arr? || local.items == [] then remote
    else Arr(Upsert(local.items, IndexOf(local.items), remote.items))
  }

  /** Merging into a non-empty array keeps every existing position: an entry keyed `k` that the
      index points at holds the last batch record keyed `k`, or keeps its content when there is
      none; every other entry keeps its content. */
  lemma MergeInPlace(local: Json, remote: Json, i: nat)
    requires local.Arr? && local.items != [] && MergeReady(local, remote) && i < |local.items|
    ensures Merged(local, remote).Arr? && i < |Merged(local, remote).items|
    ensures var e, r := local.items, Merged(local, remote).items;
            r[i] == if Server(e[i]).Some? && Server(e[i]).value in IndexOf(e) && IndexOf(e)[Server(e[i]).value] == i
                    then LastWithKey(remote.items, Server(e[i]).value).GetOr(e[i])
                    else e[i]
  {
    var e := local.items;
    var index := IndexOf(e);
    UpsertShape(e, index, remote.items);
    if Server(e[i]).Some? && Server(e[i]).value in index && index[Server(e[i]).value] == i {
      var k := Server(e[i]).value;
      forall k' | k' in index && index[k'] == index[k] ensures k' == k {
        IndexOfKey(e, k');
      }
      ReplacementOfKey(index, remote.items, k);
    } else {
      forall k | k in index ensures index[k] != i {
        IndexOfKey(e, k);
      }
      ReplacementUnindexed(index, remote.items, i);
    }
  }

  /** Merging into a non-empty array appends the batch records whose key the local entries do not
      hold, in batch order, after the existing entries: the length grows by exactly their number. */
  lemma MergeAppends(local: Json, remote: Json)
    requires local.Arr? && local.items != [] && MergeReady(local, remote)
    ensures Merged(local, remote).Arr?
    ensures var e, r := local.items, Merged(local, remote).items;
            |r| == |e| + |Appended(IndexOf(e), remote.items)| &&
            r[|e|..] == Appended(IndexOf(e), remote.items)
  {
    UpsertShape(local.items, IndexOf(local.items), remote.items);
  }

  /** Every existing position keeps its key: merging never removes, moves or re-keys an entry. */
  lemma MergeKeepsKeys(local: Json, remote: Json)
    requires local.Arr? && local.items != [] && MergeReady(local, remote)
    ensures var e, r := local.items, Merged(local, remote).items;
            |r| >= |e| && forall i :: 0 <= i < |e| ==> Server(r[i]) == Server(e[i])
  {
    forall i | 0 <= i < |local.items|
      ensures Server(Merged(local, remote).items[i]) == Server(local.items[i])
    {
      MergeInPlace(local, remote, i);
    }
  }

  /** On local entries with unique keys, the merge result has unique keys exactly when the
      appended records do. */
  lemma MergeUniqueKeys(local: Json, remote: Json)
    requires local.Arr? && local.items != [] && MergeReady(local, remote)
    requires UniqueKeys(local.items)
    ensures AllReadable(Merged(local, remote).items)
    ensures UniqueKeys(Merged(local, remote).items) <==> UniqueKeys(Appended(IndexOf(local.items), remote.items))
  {
    var e, r := local.items, Merged(local, remote).items;
    var added := Appended(IndexOf(e), remote.items);
    MergeAppends(local, remote);
    MergeKeepsKeys(local, remote);
    assert forall p :: 0 <= p < |added| ==> r[|e| + p] == added[p];
    if UniqueKeys(r) {
      forall p, q, k | KeyedAt(added, p, k) && KeyedAt(added, q, k) ensures p == q {
        assert KeyedAt(r, |e| + p, k) && KeyedAt(r, |e| + q, k);
      }
    }
    if UniqueKeys(added) {
      forall i, j, k | KeyedAt(r, i, k) && KeyedAt(r, j, k) ensures i == j {
        if i < |e| {
          IndexOfKey(e, k);
          assert KeyedAt(e, i, k);
        }
        if j < |e| {
          IndexOfKey(e, k);
          assert KeyedAt(e, j, k);
        }
        if i >= |e| && j >= |e| {
          assert KeyedAt(added, i - |e|, k) && KeyedAt(added, j - |e|, k);
        }
      }
    }
  }

  /** The index is never updated during the second loop: two batch records that share a key new
      to the local entries are both appended, and the result holds that key twice. */
  lemma MergeDuplicatesNewKey(local: Json, remote: Json, j1: nat, j2: nat, k: string)
    requires local.Arr? && local.items != [] && MergeReady(local, remote)
    requires j1 < j2 && KeyedAt(remote.items, j1, k) && KeyedAt(remote.items, j2, k)
    requires forall i :: 0 <= i < |local.items| ==> !KeyedAt(local.items, i, k)
    ensures AllReadable(Merged(local, remote).items) && !UniqueKeys(Merged(local, remote).items)
  {
    var e, r := local.items, Merged(local, remote).items;
    IndexOfKey(e, k);
    AppendedInOrder(IndexOf(e), remote.items, j1, j2);
    MergeAppends(local, remote);
    var added := Appended(IndexOf(e), remote.items);
    var p, q :| 0 <= p < q < |added| && added[p] == remote.items[j1] && added[q] == remote.items[j2];
    assert r[|e| + p] == r[|e|..][p] && r[|e| + q] == r[|e|..][q];
    NotUnique(r, |e| + p, |e| + q, k);
  }

  /** Merging a collection's own content back into it changes nothing. */
  lemma MergeSelf(entries: seq<Json>)
    requires AllReadable(entries)
    ensures Merged(Arr(entries), Arr(entries)) == Arr(entries)
  {
    if entries != [] {
      var local := Arr(entries);
      var index := IndexOf(entries);
      var r := Merged(local, local).items;
      forall j | 0 <= j < |entries| && Server(entries[j]).Some?
        ensures Server(entries[j]).value in index
      {
        IndexOfKey(entries, Server(entries[j]).value);
        assert KeyedAt(entries, j, Server(entries[j]).value);
      }
      AppendedNone(index, entries);
      MergeAppends(local, local);
      forall i | 0 <= i < |entries| ensures r[i] == entries[i] {
        MergeInPlace(local, local, i);
        if Server(entries[i]).Some? && Server(entries[i]).value in index && index[Server(entries[i]).value] == i {
          var k := Server(entries[i]).value;
          IndexOfKey(entries, k);
          LastWithKeyAt(entries, k, i);
        }
      }
    }
  }

  /** Keys are compared as C strings: a batch record whose `server` agrees with a local entry's
      up to an embedded NUL replaces that entry rather than being appended. */
  lemma MergeNulKeys()
    ensures var local := Obj([Member("server", Str("a\0x"))]);
            var batch := Obj([Member("server", Str("a\0y"))]);
            Merged(Arr([local]), Arr([batch])) == Arr([batch])
  {
    var local := Obj([Member("server", Str("a\0x"))]);
    var batch := Obj([Member("server", Str("a\0y"))]);
    assert CString("a\0x") == "a" == CString("a\0y");
    assert Server(local) == Some("a") == Server(batch);
    assert IndexOf([local]) == map["a" := 0];
    assert [batch][..0] == [];
  }
}
