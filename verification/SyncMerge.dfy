/** The last-writer-wins merge of the local sync store, held in memory
    (src/core/sync/local_filesystem_sync.cpp, PushRecords and PullRecords). */
module SyncMerge {
  import opened Common

  datatype SyncEntityType = Bookmark | History | WorkspaceConfig | CapabilityRule

  datatype SyncRecord = SyncRecord(
    entityType: SyncEntityType,
    recordId: string,
    version: nat,
    timestamp: nat,
    payloadJson: string,
    isDeleted: bool)

  datatype Store = Store(records: map<string, SyncRecord>, lastSync: nat)

  const EMPTY := Store(map[], 0)

  // The higher version wins, then the later timestamp; of equals, the one pushed last.
  predicate Supersedes(r: SyncRecord, s: SyncRecord) {
    r.version > s.version || (r.version == s.version && r.timestamp >= s.timestamp)
  }

  function Merge(s: Option<SyncRecord>, r: Option<SyncRecord>): Option<SyncRecord> {
    if s.None? then r
    else if r.None? then s
    else if Supersedes(r.value, s.value) then r else s
  }

  function Lookup(m: map<string, SyncRecord>, id: string): Option<SyncRecord> {
    if id in m then Some(m[id]) else None
  }

  function AfterPushOne(s: Store, r: SyncRecord): Store {
    if r.recordId == "" then s
    else Store(if r.recordId in s.records && !Supersedes(r, s.records[r.recordId]) then s.records
               else s.records[r.recordId := r],
               Max(s.lastSync, r.timestamp))
  }

  function AfterPush(s: Store, rs: seq<SyncRecord>): Store {
    if rs == [] then s else AfterPushOne(AfterPush(s, rs[..|rs| - 1]), rs[|rs| - 1])
  }

  // Records are filed under their own id.
  ghost predicate IsFiled(m: map<string, SyncRecord>) {
    forall id | id in m :: id != "" && m[id].recordId == id
  }

  // ---------- Pushing is merging ----------

  // What a batch holds of one record: the last of its maximal versions.
  function Winner(rs: seq<SyncRecord>, id: string): Option<SyncRecord> {
    if rs == [] then None
    else
      var r := rs[|rs| - 1];
      Merge(Winner(rs[..|rs| - 1], id), if id != "" && r.recordId == id then Some(r) else None)
  }

  lemma MergeLaws(a: Option<SyncRecord>, b: Option<SyncRecord>, c: Option<SyncRecord>)
    ensures Merge(Merge(a, b), c) == Merge(a, Merge(b, c))
    ensures Merge(Merge(a, b), b) == Merge(a, b)
  {
  }

  lemma {:induction false} PushMerges(s: Store, rs: seq<SyncRecord>, id: string)
    ensures Lookup(AfterPush(s, rs).records, id) == Merge(Lookup(s.records, id), Winner(rs, id))
  {
    if rs != [] {
      hide Merge;
      var n := |rs| - 1;
      var last := if id != "" && rs[n].recordId == id then Some(rs[n]) else None;
      PushMerges(s, rs[..n], id);
      PushOneMerges(AfterPush(s, rs[..n]), rs[n], id);
      MergeLaws(Lookup(s.records, id), Winner(rs[..n], id), last);
    } else {
      assert Merge(Lookup(s.records, id), None) == Lookup(s.records, id);
    }
  }

  lemma PushOneMerges(s: Store, r: SyncRecord, id: string)
    ensures Lookup(AfterPushOne(s, r).records, id)
         == Merge(Lookup(s.records, id), if id != "" && r.recordId == id then Some(r) else None)
  {
  }

  // The k-th record is the last one of maximal version and timestamp among those of its id.
  predicate IsLastMaximal(rs: seq<SyncRecord>, k: nat) {
    && k < |rs|
    && forall j | 0 <= j < |rs| && rs[j].recordId == rs[k].recordId ::
         Supersedes(rs[k], rs[j]) && (j > k ==> !Supersedes(rs[j], rs[k]))
  }

  lemma {:induction false} WinnerIsLastMaximal(rs: seq<SyncRecord>, id: string) returns (k: nat)
    requires id != "" && exists i :: 0 <= i < |rs| && rs[i].recordId == id
    ensures IsLastMaximal(rs, k) && rs[k].recordId == id && Winner(rs, id) == Some(rs[k])
  {
    var n := |rs| - 1;
    if exists i :: 0 <= i < n && rs[..n][i].recordId == id {
      k := WinnerIsLastMaximal(rs[..n], id);
      if rs[n].recordId == id && Supersedes(rs[n], rs[k]) {
        forall j | 0 <= j < |rs| && rs[j].recordId == id
          ensures Supersedes(rs[n], rs[j])
        {
          assert j < n ==> Supersedes(rs[k], rs[..n][j]);
        }
        k := n;
      } else {
        assert forall j | 0 <= j < n :: rs[j] == rs[..n][j];
      }
    } else {
      NoWinner(rs[..n], id);
      assert rs[n].recordId == id;
      assert forall j | 0 <= j < n :: rs[j] == rs[..n][j];
      k := n;
    }
  }

  lemma {:induction false} NoWinner(rs: seq<SyncRecord>, id: string)
    requires id == "" || forall i | 0 <= i < |rs| :: rs[i].recordId != id
    ensures Winner(rs, id) == None
  {
    if rs != [] {
      NoWinner(rs[..|rs| - 1], id);
    }
  }

  lemma OneLastMaximal(rs: seq<SyncRecord>, k: nat, l: nat)
    requires IsLastMaximal(rs, k) && IsLastMaximal(rs, l) && rs[k].recordId == rs[l].recordId
    ensures k == l
  {
    assert Supersedes(rs[k], rs[l]) && Supersedes(rs[l], rs[k]);
  }

  // After pushing any records into an empty store, a record is stored exactly when its non-empty id was
  // pushed, and then it is the last one of maximal version and timestamp.
  lemma StoredIsLastMaximal(rs: seq<SyncRecord>, id: string)
    ensures var m := AfterPush(EMPTY, rs).records;
      && (id in m <==> id != "" && exists i :: 0 <= i < |rs| && rs[i].recordId == id)
      && (forall k: nat | k < |rs| && IsLastMaximal(rs, k) && rs[k].recordId == id && id != "" ::
        id in m && m[id] == rs[k])
  {
    hide AfterPush, Winner, IsLastMaximal;
    PushMerges(EMPTY, rs, id);
    if id != "" && exists i :: 0 <= i < |rs| && rs[i].recordId == id {
      var w := WinnerIsLastMaximal(rs, id);
      forall k: nat | k < |rs| && IsLastMaximal(rs, k) && rs[k].recordId == id
        ensures k == w
      {
        OneLastMaximal(rs, k, w);
      }
    } else {
      NoWinner(rs, id);
    }
  }

  // That is: no pushed record of its id has a higher version, or the same version and a later timestamp.
  lemma StoredIsHighest(rs: seq<SyncRecord>, id: string, j: nat)
    requires j < |rs| && rs[j].recordId == id != ""
    ensures var m := AfterPush(EMPTY, rs).records;
      && id in m && m[id] in rs && m[id].recordId == id
      && (m[id].version > rs[j].version || (m[id].version == rs[j].version && m[id].timestamp >= rs[j].timestamp))
  {
    hide AfterPush;
    StoredIsLastMaximal(rs, id);
    var k := WinnerIsLastMaximal(rs, id);
  }

  // ---------- Repetition and batches ----------

  lemma {:induction false} LastSyncIs(s: Store, rs: seq<SyncRecord>)
    ensures AfterPush(s, rs).lastSync >= s.lastSync
    ensures forall r | r in rs && r.recordId != "" :: AfterPush(s, rs).lastSync >= r.timestamp
    ensures AfterPush(s, rs).lastSync == s.lastSync
         || exists r :: r in rs && r.recordId != "" && AfterPush(s, rs).lastSync == r.timestamp
  {
    if rs != [] {
      var n := |rs| - 1;
      LastSyncIs(s, rs[..n]);
      assert rs == rs[..n] + [rs[n]];
      if AfterPush(s, rs).lastSync == AfterPush(s, rs[..n]).lastSync {
      } else {
        assert rs[n] in rs && rs[n].recordId != "";
      }
    }
  }

  lemma SameStores(a: Store, b: Store)
    requires forall id :: Lookup(a.records, id) == Lookup(b.records, id)
    requires a.lastSync == b.lastSync
    ensures a == b
  {
    forall id
      ensures id in a.records <==> id in b.records
      ensures id in a.records ==> a.records[id] == b.records[id]
    {
      assert Lookup(a.records, id) == Lookup(b.records, id);
    }
    assert a.records == b.records;
  }

  // Pushing a batch again changes nothing, whatever the store held before.
  lemma PushTwice(s: Store, rs: seq<SyncRecord>)
    ensures AfterPush(AfterPush(s, rs), rs) == AfterPush(s, rs)
  {
    hide AfterPush, Merge, Winner;
    var once := AfterPush(s, rs);
    forall id
      ensures Lookup(AfterPush(once, rs).records, id) == Lookup(once.records, id)
    {
      PushMerges(s, rs, id);
      PushMerges(once, rs, id);
      MergeLaws(Lookup(s.records, id), Winner(rs, id), None);
    }
    LastSyncIs(s, rs);
    LastSyncIs(once, rs);
    SameStores(AfterPush(once, rs), once);
  }

  lemma {:induction false} PushInBatches(s: Store, first: seq<SyncRecord>, second: seq<SyncRecord>)
    ensures AfterPush(AfterPush(s, first), second) == AfterPush(s, first + second)
  {
    if second == [] {
      assert first + second == first;
    } else {
      var n := |second| - 1;
      PushInBatches(s, first, second[..n]);
      assert (first + second)[..|first| + n] == first + second[..n];
    }
  }

  // ---------- Convergence ----------

  // Two records of one id that are both maximal are the same record.
  predicate TiesAgree(rs: seq<SyncRecord>) {
    forall i, j | 0 <= i < |rs| && 0 <= j < |rs| && IsMaximal(rs, i) && IsMaximal(rs, j)
      && rs[i].recordId == rs[j].recordId ::
      rs[i] == rs[j]
  }

  predicate IsMaximal(rs: seq<SyncRecord>, k: nat)
    requires k < |rs|
  {
    rs[k].recordId != "" && forall j | 0 <= j < |rs| && rs[j].recordId == rs[k].recordId :: Supersedes(rs[k], rs[j])
  }

  ghost predicate SameRecords(rs: seq<SyncRecord>, ts: seq<SyncRecord>) {
    forall r :: r in rs <==> r in ts
  }

  // The store is the same for every order, repetition and cutting into batches of these records.
  ghost predicate Converges(rs: seq<SyncRecord>) {
    forall ts | SameRecords(rs, ts) :: AfterPush(EMPTY, ts) == AfterPush(EMPTY, rs)
  }

  lemma ConvergesExactly(rs: seq<SyncRecord>)
    ensures Converges(rs) <==> TiesAgree(rs)
  {
    hide AfterPush, IsMaximal;
    if TiesAgree(rs) {
      forall ts | SameRecords(rs, ts)
        ensures AfterPush(EMPTY, ts) == AfterPush(EMPTY, rs)
      {
        SameSetSameStore(rs, ts);
      }
    } else {
      var i, j :| 0 <= i < |rs| && 0 <= j < |rs| && IsMaximal(rs, i) && IsMaximal(rs, j)
        && rs[i].recordId == rs[j].recordId
                  && rs[i] != rs[j];
      LastPushWins(rs, i);
      LastPushWins(rs, j);
      assert AfterPush(EMPTY, rs + [rs[i]]) != AfterPush(EMPTY, rs + [rs[j]]);
    }
  }

  // Two records of one id, version and timestamp: the one pushed last stays.
  lemma PushOrderMatters()
    ensures var p, q := SyncRecord(Bookmark, "r", 1, 5, "p", false), SyncRecord(Bookmark, "r", 1, 5, "q", false);
      AfterPush(EMPTY, [p, q]).records == map["r" := q] && AfterPush(EMPTY, [q, p]).records == map["r" := p] && p != q
  {
    var p, q := SyncRecord(Bookmark, "r", 1, 5, "p", false), SyncRecord(Bookmark, "r", 1, 5, "q", false);
    assert "p"[0] != "q"[0];
    PushTwo(p, q);
    PushTwo(q, p);
  }

  lemma PushTwo(p: SyncRecord, q: SyncRecord)
    requires p.recordId == q.recordId != "" && Supersedes(q, p)
    ensures AfterPush(EMPTY, [p, q]).records == map[p.recordId := q]
  {
    assert [p, q][..1] == [p] && [p][..0] == [];
    assert AfterPush(EMPTY, [p]) == AfterPushOne(AfterPush(EMPTY, []), p);
    assert AfterPush(EMPTY, [p]).records == map[p.recordId := p];
    assert AfterPush(EMPTY, [p, q]) == AfterPushOne(AfterPush(EMPTY, [p]), q);
  }

  // Pushing a maximal record once more makes it the stored one.
  lemma LastPushWins(rs: seq<SyncRecord>, k: nat)
    requires k < |rs| && IsMaximal(rs, k)
    ensures var more := rs + [rs[k]];
      && SameRecords(rs, more)
      && Lookup(AfterPush(EMPTY, more).records, rs[k].recordId) == Some(rs[k])
  {
    var id := rs[k].recordId;
    var w := WinnerIsLastMaximal(rs, id);
    PushMerges(EMPTY, rs, id);
    var more := rs + [rs[k]];
    assert more[..|rs|] == rs;
    PushOneMerges(AfterPush(EMPTY, rs), rs[k], id);
    assert rs[k] in rs;
  }

  lemma SameWinner(rs: seq<SyncRecord>, ts: seq<SyncRecord>, id: string)
    requires TiesAgree(rs) && SameRecords(rs, ts)
    ensures Winner(rs, id) == Winner(ts, id)
  {
    hide Winner;
    if id == "" {
      NoWinner(rs, id);
      NoWinner(ts, id);
    } else if exists i :: 0 <= i < |rs| && rs[i].recordId == id {
      var i :| 0 <= i < |rs| && rs[i].recordId == id;
      assert rs[i] in ts;
      var k := WinnerIsLastMaximal(rs, id);
      var l := WinnerIsLastMaximal(ts, id);
      assert ts[l] in rs;
      var m :| 0 <= m < |rs| && rs[m] == ts[l];
      forall j | 0 <= j < |rs| && rs[j].recordId == id
        ensures Supersedes(rs[m], rs[j])
      {
        assert rs[j] in ts;
      }
      assert IsMaximal(rs, k) && IsMaximal(rs, m);
    } else {
      NoWinner(rs, id);
      forall i | 0 <= i < |ts|
        ensures ts[i].recordId != id
      {
        assert ts[i] in rs;
      }
      NoWinner(ts, id);
    }
  }

  lemma SameSetSameStore(rs: seq<SyncRecord>, ts: seq<SyncRecord>)
    requires TiesAgree(rs) && SameRecords(rs, ts)
    ensures AfterPush(EMPTY, rs) == AfterPush(EMPTY, ts)
  {
    hide AfterPush, Winner, Merge, TiesAgree;
    forall id
      ensures Lookup(AfterPush(EMPTY, rs).records, id) == Lookup(AfterPush(EMPTY, ts).records, id)
    {
      PushMerges(EMPTY, rs, id);
      PushMerges(EMPTY, ts, id);
      SameWinner(rs, ts, id);
    }
    LastSyncIs(EMPTY, rs);
    LastSyncIs(EMPTY, ts);
    SameStores(AfterPush(EMPTY, rs), AfterPush(EMPTY, ts));
  }

  // ---------- Two stores that exchange their records ----------

  predicate IsOrdered(rs: seq<SyncRecord>) {
    forall i, j | 0 <= i < j < |rs| :: rs[i].timestamp <= rs[j].timestamp && rs[i].recordId != rs[j].recordId
  }

  // The sequence lists the records of the store newer than a timestamp, each once, oldest first.
  ghost predicate Lists(rs: seq<SyncRecord>, m: map<string, SyncRecord>, since: nat) {
    && IsOrdered(rs)
    && (forall r :: r in rs <==> r.recordId in m && m[r.recordId] == r && r.timestamp > since)
  }

  lemma WinnerOfListed(rs: seq<SyncRecord>, m: map<string, SyncRecord>, since: nat, id: string)
    requires Lists(rs, m, since) && IsFiled(m)
    ensures Winner(rs, id) == if id in m && m[id].timestamp > since then Lookup(m, id) else None
  {
    hide Winner;
    assert id in m && m[id].timestamp > since ==> m[id] in rs;
    if exists i :: 0 <= i < |rs| && rs[i].recordId == id {
      var i :| 0 <= i < |rs| && rs[i].recordId == id;
      assert rs[i] in rs;
      var k := WinnerIsLastMaximal(rs, id);
      assert rs[k] in rs;
    } else {
      NoWinner(rs, id);
    }
  }

  // Pulling from zero on leaves out records of timestamp zero: the other side must have something as good.
  predicate IsCovered(s: Option<SyncRecord>, other: Option<SyncRecord>) {
    s.Some? && s.value.timestamp == 0 ==> other.Some? && Supersedes(other.value, s.value)
  }

  predicate IsTie(s: Option<SyncRecord>, other: Option<SyncRecord>) {
    s.Some? && other.Some? && Supersedes(s.value, other.value) && Supersedes(other.value, s.value)
  }

  predicate Reconcilable(s: Option<SyncRecord>, other: Option<SyncRecord>) {
    IsCovered(s, other) && IsCovered(other, s) && (IsTie(s, other) ==> s == other)
  }

  function Listed(s: Option<SyncRecord>): Option<SyncRecord> {
    if s.Some? && s.value.timestamp > 0 then s else None
  }

  lemma ExchangeOne(s: Option<SyncRecord>, other: Option<SyncRecord>)
    ensures Merge(s, Listed(other)) == Merge(other, Listed(s)) <==> Reconcilable(s, other)
  {
  }

  // Two stores that push what the other lists from zero on end with the same records exactly when they
  // hold no different records of one version and timestamp, and cover each other's records of timestamp zero.
  lemma ExchangeConverges(a: Store, b: Store, fromA: seq<SyncRecord>, fromB: seq<SyncRecord>)
    requires IsFiled(a.records) && IsFiled(b.records) && Lists(fromA, a.records, 0) && Lists(fromB, b.records, 0)
    ensures AfterPush(a, fromB).records == AfterPush(b, fromA).records
       <==> forall id :: Reconcilable(Lookup(a.records, id), Lookup(b.records, id))
  {
    hide AfterPush, Winner, Lists, Reconcilable, Merge;
    var x, y := AfterPush(a, fromB).records, AfterPush(b, fromA).records;
    forall id
      ensures Lookup(x, id) == Lookup(y, id) <==> Reconcilable(Lookup(a.records, id), Lookup(b.records, id))
    {
      PushMerges(a, fromB, id);
      PushMerges(b, fromA, id);
      WinnerOfListed(fromA, a.records, 0, id);
      WinnerOfListed(fromB, b.records, 0, id);
      ExchangeOne(Lookup(a.records, id), Lookup(b.records, id));
    }
    if forall id :: Reconcilable(Lookup(a.records, id), Lookup(b.records, id)) {
      SameStores(Store(x, 0), Store(y, 0));
    } else {
      var id :| !Reconcilable(Lookup(a.records, id), Lookup(b.records, id));
      assert Lookup(x, id) != Lookup(y, id);
    }
  }

  // ---------- The provider ----------

  class LocalSyncProvider {
    var records: map<string, SyncRecord>
    var lastSyncTimestamp: nat

    ghost function State(): Store
      reads this
    {
      Store(records, lastSyncTimestamp)
    }

    constructor ()
      ensures State() == EMPTY && IsFiled(records)
    {
      records, lastSyncTimestamp := map[], 0;
    }

    // In memory there is nothing to save, and the answer is always yes.
    method PushRecords(batch: seq<SyncRecord>) returns (ok: bool)
      requires IsFiled(records)
      modifies this
      ensures State() == AfterPush(old(State()), batch) && IsFiled(records) && ok
    {
      for i := 0 to |batch|
        invariant State() == AfterPush(old(State()), batch[..i]) && IsFiled(records)
      {
        var r := batch[i];
        assert batch[..i + 1][..i] == batch[..i];
        if r.recordId == "" {
          continue;
        }
        if r.recordId !in records {
          records := records[r.recordId := r];
        } else {
          var stored := records[r.recordId];
          if r.version > stored.version || (r.version == stored.version && r.timestamp >= stored.timestamp) {
            records := records[r.recordId := r];
          }
        }
        if r.timestamp > lastSyncTimestamp {
          lastSyncTimestamp := r.timestamp;
        }
      }
      assert batch[..|batch|] == batch;
      ok := true;
    }

    // The records are visited in no particular order; each is put at its place by timestamp.
    method PullRecords(since: nat) returns (result: seq<SyncRecord>)
      requires IsFiled(records)
      ensures Lists(result, records, since)
    {
      result := [];
      var keys := records.Keys;
      while keys != {}
        invariant keys <= records.Keys
        invariant Lists(result, records - keys, since)
        decreases |keys|
      {
        var id :| id in keys;
        ghost var visited := records - keys;
        keys := keys - {id};
        assert records - keys == visited[id := records[id]];
        if records[id].timestamp > since {
          result := InsertByTime(result, records[id], visited, since);
        }
      }
      assert records - {} == records;
    }

    static method InsertByTime(rs: seq<SyncRecord>, r: SyncRecord, ghost m: map<string, SyncRecord>, ghost since: nat)
      returns (result: seq<SyncRecord>)
      requires Lists(rs, m, since) && r.recordId !in m && r.timestamp > since
      ensures Lists(result, m[r.recordId := r], since)
    {
      var k := |rs|;
      while k > 0 && rs[k - 1].timestamp > r.timestamp
        invariant 0 <= k <= |rs|
        invariant forall j | k <= j < |rs| :: rs[j].timestamp > r.timestamp
      {
        k := k - 1;
      }
      result := rs[..k] + [r] + rs[k..];
      InsertedListed(rs, r, k, m, since);
    }
  }

  // What is at the j-th place after r was put at the k-th.
  function Moved(rs: seq<SyncRecord>, r: SyncRecord, k: nat, j: nat): SyncRecord
    requires j <= |rs| && k <= |rs|
  {
    if j < k then rs[j] else if j == k then r else rs[j - 1]
  }

  lemma InsertedListed(rs: seq<SyncRecord>, r: SyncRecord, k: nat, m: map<string, SyncRecord>, since: nat)
    requires Lists(rs, m, since) && r.recordId !in m && r.timestamp > since && k <= |rs|
    requires k > 0 ==> rs[k - 1].timestamp <= r.timestamp
    requires forall j | k <= j < |rs| :: rs[j].timestamp > r.timestamp
    ensures Lists(rs[..k] + [r] + rs[k..], m[r.recordId := r], since)
  {
    hide IsOrdered;
    Inserted(rs, r, k);
    forall j | 0 <= j < |rs|
      ensures rs[j].recordId != r.recordId
    {
      assert rs[j] in rs;
    }
    InsertedOrdered(rs, r, k, rs[..k] + [r] + rs[k..]);
  }

  lemma InsertedOrdered(rs: seq<SyncRecord>, r: SyncRecord, k: nat, result: seq<SyncRecord>)
    requires IsOrdered(rs) && k <= |rs| && (k > 0 ==> rs[k - 1].timestamp <= r.timestamp)
    requires forall j | 0 <= j < |rs| :: rs[j].recordId != r.recordId && (j >= k ==> rs[j].timestamp > r.timestamp)
    requires |result| == |rs| + 1
    requires forall j | 0 <= j < |result| :: result[j] == Moved(rs, r, k, j)
    ensures IsOrdered(result)
  {
    assert forall i | 0 <= i < k :: rs[i].timestamp <= r.timestamp by {
      assert forall i | 0 <= i < k - 1 :: rs[i].timestamp <= rs[k - 1].timestamp;
    }
    forall i, j | 0 <= i < j < |result|
      ensures result[i].timestamp <= result[j].timestamp && result[i].recordId != result[j].recordId
    {
      if i == k {
        assert result[j] == rs[j - 1];
      } else if j == k {
        assert result[i] == rs[i];
      } else {
        var i', j' := if i < k then i else i - 1, if j < k then j else j - 1;
        assert result[i] == rs[i'] && result[j] == rs[j'] && i' < j';
      }
    }
  }

  lemma Inserted(rs: seq<SyncRecord>, r: SyncRecord, k: nat)
    requires k <= |rs|
    ensures var result := rs[..k] + [r] + rs[k..];
      && (forall j | 0 <= j < |result| :: result[j] == Moved(rs, r, k, j))
      && (forall x :: x in result <==> x in rs || x == r)
  {
    assert rs == rs[..k] + rs[k..];
    var result := rs[..k] + [r] + rs[k..];
    forall x
      ensures x in result <==> x in rs || x == r
    {
      assert x in rs <==> x in rs[..k] || x in rs[k..];
    }
  }
}
