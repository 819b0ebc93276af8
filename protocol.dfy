/**
 * What `delete` and `restore` do to the store, as functions of the store's
 * state before the call, the store's outcome oracle and the aggregate's
 * snapshot; and the properties of those two protocols.
 */
module Protocol {
  import opened Wrappers
  import opened Records
  import opened GuildSnapshot
  import opened Store

  /** The aggregate's records in restore order: profile (if any), feeds, formats, subscribers. */
  function SnapshotRecords(d: Snapshot): (recs: seq<Record>)
    ensures |recs| == ProfileCount(d) + |d.feeds| + |d.formats| + |d.subscribers|
  {
    (if d.profile.Some? then [ProfileRecord(d.profile.value)] else [])
    + seq(|d.feeds|, i requires 0 <= i < |d.feeds| => FeedRecord(d.feeds[i]))
    + seq(|d.formats|, i requires 0 <= i < |d.formats| => FormatRecord(d.formats[i]))
    + seq(|d.subscribers|, i requires 0 <= i < |d.subscribers| => SubscriberRecord(d.subscribers[i]))
  }

  function ProfileCount(d: Snapshot): nat {
    if d.profile.Some? then 1 else 0
  }

  /**
   * `delete`: look up every snapshot record by its own kind and `_id`, then
   * call `delete()` on every handle found; the first rejection is reported.
   */
  function DeleteEffect(s: StoreState, o: Oracle, d: Snapshot): (StoreState, Outcome) {
    var s0 := s.(log := s.log + [DeleteCalled]);
    var looked := LookupAll(s0, KeysOf(SnapshotRecords(d)));
    RemoveAll(looked.0, o, looked.1)
  }

  /**
   * `restore`: `delete` first; then one handle per snapshot record and
   * `save()` on each. When a save rejects, `delete()` is called on every
   * handle built, whatever its own save did, its rejections are ignored,
   * and the first save error is reported.
   */
  function RestoreEffect(s: StoreState, o: Oracle, d: Snapshot): (StoreState, Outcome) {
    var deleted := DeleteEffect(s, o, d);
    if deleted.1.Failed? then deleted
    else
      var built := ConstructAll(deleted.0, SnapshotRecords(d));
      var saved := SaveAll(built.0, o, built.1);
      if saved.1.Done? then saved
      else (RemoveAll(saved.0, o, built.1).0, saved.1)
  }

  // ---- The handles and calls of each protocol ----

  /** The handles `delete` finds: one per looked-up address holding a record, numbered from `s.next`. */
  function FoundHandles(s: StoreState, d: Snapshot): seq<Handle> {
    Number(s.next, Found(s.records, KeysOf(SnapshotRecords(d))))
  }

  /** The handles `restore` builds, numbered after those its `delete` found. */
  function BuiltHandles(s: StoreState, d: Snapshot): seq<Handle> {
    Number(s.next + |FoundHandles(s, d)|, SnapshotRecords(d))
  }

  /** The calls `delete` appends to the log. */
  function DeleteLog(s: StoreState, d: Snapshot): seq<Call> {
    [DeleteCalled] + LookupCalls(KeysOf(SnapshotRecords(d))) + RemoveCalls(FoundHandles(s, d))
  }

  /** The calls `restore` appends to the log. */
  function RestoreLog(s: StoreState, o: Oracle, d: Snapshot): seq<Call> {
    var hs := BuiltHandles(s, d);
    if DeleteEffect(s, o, d).1.Failed? then DeleteLog(s, d)
    else if FirstFailure(SaveOutcomes(o, hs)).Done? then DeleteLog(s, d) + ConstructCalls(hs) + SaveCalls(hs)
    else DeleteLog(s, d) + ConstructCalls(hs) + SaveCalls(hs) + RemoveCalls(hs)
  }

  lemma DeleteLogged(s: StoreState, o: Oracle, d: Snapshot)
    ensures DeleteEffect(s, o, d).0.log == s.log + DeleteLog(s, d)
    ensures DeleteEffect(s, o, d).0.next == s.next + |FoundHandles(s, d)|
    ensures DeleteEffect(s, o, d).0.records == ApplyRemoves(s.records, o, FoundHandles(s, d))
    ensures DeleteEffect(s, o, d).1 == FirstFailure(RemoveOutcomes(o, FoundHandles(s, d)))
  {
  }

  lemma RestoreLogged(s: StoreState, o: Oracle, d: Snapshot)
    ensures RestoreEffect(s, o, d).0.log == s.log + RestoreLog(s, o, d)
  {
    DeleteLogged(s, o, d);
    var deleted := DeleteEffect(s, o, d);
    if deleted.1.Done? {
      var hs := BuiltHandles(s, d);
      var built := ConstructAll(deleted.0, SnapshotRecords(d));
      assert built.1 == hs;
      assert built.0.log == s.log + DeleteLog(s, d) + ConstructCalls(hs);
      var saved := SaveAll(built.0, o, hs);
      assert saved.0.log == s.log + DeleteLog(s, d) + ConstructCalls(hs) + SaveCalls(hs);
      assert saved.1 == FirstFailure(SaveOutcomes(o, hs));
      var done := DeleteLog(s, d) + ConstructCalls(hs) + SaveCalls(hs);
      AppendAssoc(s.log, DeleteLog(s, d), ConstructCalls(hs));
      AppendAssoc(s.log, DeleteLog(s, d) + ConstructCalls(hs), SaveCalls(hs));
      if saved.1.Failed? {
        var undone := RemoveAll(saved.0, o, hs).0;
        AppendAssoc(s.log, done, RemoveCalls(hs));
        assert RestoreEffect(s, o, d).0 == undone;
      } else {
        assert RestoreEffect(s, o, d).0 == saved.0;
      }
    }
  }

  lemma AppendAssoc<T>(a: seq<T>, b: seq<T>, c: seq<T>)
    ensures a + (b + c) == a + b + c
  {
  }

  /** What each kind of fragment of the log holds. */
  lemma CallsOf(keys: seq<Key>, hs: seq<Handle>)
    ensures forall c :: c in LookupCalls(keys) ==> c.Lookup?
    ensures forall c :: c in ConstructCalls(hs) ==> c.Construct? && c.handle in hs
    ensures forall c :: c in SaveCalls(hs) ==> c.Save? && exists i :: 0 <= i < |hs| && c.num == hs[i].num
    ensures forall c :: c in RemoveCalls(hs) ==> c.Remove? && exists i :: 0 <= i < |hs| && c.num == hs[i].num
  {
  }

  /** `delete`'s log holds its own entry, lookups, and removals of the handles it found. */
  lemma DeleteLogCalls(s: StoreState, d: Snapshot)
    ensures forall c :: c in DeleteLog(s, d) ==>
      c.DeleteCalled? || c.Lookup? || (c.Remove? && s.next <= c.num < s.next + |FoundHandles(s, d)|)
  {
    var found := FoundHandles(s, d);
    CallsOf(KeysOf(SnapshotRecords(d)), found);
  }

  // ---- Where each input record sits among the snapshot records ----

  lemma SnapshotRecordsLayout(d: Snapshot)
    ensures d.profile.Some? ==> SnapshotRecords(d)[0] == ProfileRecord(d.profile.value)
    ensures forall i :: 0 <= i < |d.feeds| ==>
      SnapshotRecords(d)[ProfileCount(d) + i] == FeedRecord(d.feeds[i])
    ensures forall i :: 0 <= i < |d.formats| ==>
      SnapshotRecords(d)[ProfileCount(d) + |d.feeds| + i] == FormatRecord(d.formats[i])
    ensures forall i :: 0 <= i < |d.subscribers| ==>
      SnapshotRecords(d)[ProfileCount(d) + |d.feeds| + |d.formats| + i] == SubscriberRecord(d.subscribers[i])
    ensures forall r :: r in SnapshotRecords(d) && r.ProfileRecord? ==> d.profile == Some(r.profile)
  {
  }

  // ---- delete ----

  /**
   * `delete` logs itself, then looks up every snapshot entry once, in order
   * (profile, feeds, formats, subscribers), each by that entry's own kind and
   * `_id`, so a duplicated id is looked up twice; all later calls are
   * `delete()` calls.
   */
  lemma DeleteLooksUpEachEntry(s: StoreState, d: Snapshot)
    ensures var log := DeleteLog(s, d);
      var p := ProfileCount(d);
      var n := p + |d.feeds| + |d.formats| + |d.subscribers|;
      |log| == 1 + n + |FoundHandles(s, d)| && log[0] == DeleteCalled &&
      (d.profile.Some? ==> log[1] == Lookup(Key(ProfileKind, d.profile.value.id))) &&
      (forall i :: 0 <= i < |d.feeds| ==> log[1 + p + i] == Lookup(Key(FeedKind, d.feeds[i].id))) &&
      (forall i :: 0 <= i < |d.formats| ==> log[1 + p + |d.feeds| + i] == Lookup(Key(FormatKind, d.formats[i].id))) &&
      (forall i :: 0 <= i < |d.subscribers| ==>
        log[1 + p + |d.feeds| + |d.formats| + i] == Lookup(Key(SubscriberKind, d.subscribers[i].id))) &&
      (forall j :: 1 + n <= j < |log| ==> log[j].Remove?)
  {
    SnapshotKeysLayout(d);
    LogPositions(KeysOf(SnapshotRecords(d)), FoundHandles(s, d));
  }

  /** Where each lookup and each removal sits in a log of `delete`'s shape. */
  lemma LogPositions(keys: seq<Key>, found: seq<Handle>)
    ensures var log := [DeleteCalled] + LookupCalls(keys) + RemoveCalls(found);
      |log| == 1 + |keys| + |found| && log[0] == DeleteCalled &&
      (forall j :: 0 <= j < |keys| ==> log[1 + j] == Lookup(keys[j])) &&
      (forall j :: 1 + |keys| <= j < |log| ==> log[j].Remove?)
  {
    var log := [DeleteCalled] + LookupCalls(keys) + RemoveCalls(found);
    assert forall j :: 0 <= j < |found| ==> log[1 + |keys| + j] == Remove(found[j].num);
  }

  /**
   * When every snapshot entry's address holds a record, `delete` finds one
   * handle per entry, in snapshot order, each on the record stored at that
   * entry's address: two entries with one `_id` yield two distinct handles.
   */
  lemma DeleteFindsEveryEntry(s: StoreState, d: Snapshot)
    requires forall j :: 0 <= j < |SnapshotRecords(d)| ==> KeyOf(SnapshotRecords(d)[j]) in s.records
    ensures var found := FoundHandles(s, d);
      var recs := SnapshotRecords(d);
      |found| == |recs| &&
      forall j :: 0 <= j < |recs| ==> found[j] == Handle(s.next + j, s.records[KeyOf(recs[j])])
  {
    var recs := SnapshotRecords(d);
    var keys := KeysOf(recs);
    FoundEveryKey(s.records, keys);
  }

  /** The address of each snapshot entry among the snapshot's addresses. */
  lemma SnapshotKeysLayout(d: Snapshot)
    ensures var keys := KeysOf(SnapshotRecords(d));
      var p := ProfileCount(d);
      (d.profile.Some? ==> keys[0] == Key(ProfileKind, d.profile.value.id)) &&
      (forall i :: 0 <= i < |d.feeds| ==> keys[p + i] == Key(FeedKind, d.feeds[i].id)) &&
      (forall i :: 0 <= i < |d.formats| ==> keys[p + |d.feeds| + i] == Key(FormatKind, d.formats[i].id)) &&
      (forall i :: 0 <= i < |d.subscribers| ==>
        keys[p + |d.feeds| + |d.formats| + i] == Key(SubscriberKind, d.subscribers[i].id))
  {
    SnapshotRecordsLayout(d);
  }

  /** With no profile and empty record lists, `delete` makes no lookup and no `delete()` call. */
  lemma DeleteOfEmpty(s: StoreState, o: Oracle, d: Snapshot)
    requires d.profile.None? && d.feeds == [] && d.formats == [] && d.subscribers == []
    ensures DeleteLog(s, d) == [DeleteCalled]
    ensures DeleteEffect(s, o, d) == (s.(log := s.log + [DeleteCalled]), Done)
  {
    assert SnapshotRecords(d) == [];
    assert KeysOf([]) == [] && LookupCalls([]) == [];
    assert Found(s.records, []) == [];
    assert Number(s.next, []) == [];
    assert RemoveCalls([]) == [] && RemoveOutcomes(o, []) == [];
    DeleteLogged(s, o, d);
  }

  /**
   * `delete` finds a handle on exactly the records stored at the snapshot's
   * addresses: each handle it finds holds the record stored at its own
   * address, one of the snapshot's addresses, and each snapshot record whose
   * address holds a record yields a handle on that record.
   */
  lemma DeleteFindsStoredRecords(s: StoreState, d: Snapshot)
    requires WellFormed(s.records)
    ensures var found := FoundHandles(s, d);
      var recs := SnapshotRecords(d);
      |found| <= |recs| &&
      (forall i :: 0 <= i < |found| ==>
        (found[i].num == s.next + i && KeyOf(found[i].rec) in KeysOf(recs) &&
         KeyOf(found[i].rec) in s.records && s.records[KeyOf(found[i].rec)] == found[i].rec)) &&
      (forall j :: 0 <= j < |recs| && KeyOf(recs[j]) in s.records ==>
        exists i :: 0 <= i < |found| && found[i].rec == s.records[KeyOf(recs[j])])
  {
    var recs := SnapshotRecords(d);
    var keys := KeysOf(recs);
    var stored := Found(s.records, keys);
    var found := FoundHandles(s, d);
    FoundAtKeys(s.records, keys);
    forall i | 0 <= i < |found|
      ensures KeyOf(found[i].rec) in keys && KeyOf(found[i].rec) in s.records && s.records[KeyOf(found[i].rec)] == found[i].rec
    {
      assert found[i].rec == stored[i] && stored[i] in stored;
      var j :| 0 <= j < |keys| && keys[j] in s.records && s.records[keys[j]] == stored[i];
    }
    forall j | 0 <= j < |recs| && KeyOf(recs[j]) in s.records
      ensures exists i :: 0 <= i < |found| && found[i].rec == s.records[KeyOf(recs[j])]
    {
      assert keys[j] == KeyOf(recs[j]);
      assert s.records[keys[j]] in stored;
      var i :| 0 <= i < |stored| && stored[i] == s.records[keys[j]];
      assert found[i].rec == stored[i];
    }
  }

  /** `delete` calls `delete()` exactly once on each handle it found, and on no other handle. */
  lemma DeleteRemovesEachFoundOnce(s: StoreState, d: Snapshot)
    ensures var found := FoundHandles(s, d);
      (forall i :: 0 <= i < |found| ==> Count(DeleteLog(s, d), Remove(found[i].num)) == 1) &&
      (forall c :: c in DeleteLog(s, d) && c.Remove? ==> exists i :: 0 <= i < |found| && c.num == found[i].num)
  {
    var keys := KeysOf(SnapshotRecords(d));
    var found := FoundHandles(s, d);
    var head := [DeleteCalled] + LookupCalls(keys);
    var removes := RemoveCalls(found);
    CallsOf(keys, found);
    forall i | 0 <= i < |found| ensures Count(DeleteLog(s, d), Remove(found[i].num)) == 1 {
      assert removes[i] == Remove(found[i].num);
      assert DeleteLog(s, d) == head + removes + [];
      CountOnceIn(head, removes, [], i);
    }
  }

  /** `delete` reports a rejection exactly when some `delete()` call on a found handle rejects. */
  lemma DeleteOutcome(s: StoreState, o: Oracle, d: Snapshot)
    ensures var found := FoundHandles(s, d);
      DeleteEffect(s, o, d).1.Failed? <==> exists i :: 0 <= i < |found| && o.remove(found[i].num).Failed?
  {
    var found := FoundHandles(s, d);
    var outs := RemoveOutcomes(o, found);
    DeleteLogged(s, o, d);
    if exists i :: 0 <= i < |found| && o.remove(found[i].num).Failed? {
      var i :| 0 <= i < |found| && o.remove(found[i].num).Failed?;
      assert outs[i].Failed?;
    }
  }

  /**
   * When every `delete()` call resolves, no record remains at the address of
   * any snapshot record; records at other addresses are untouched either way.
   */
  lemma DeleteClears(s: StoreState, o: Oracle, d: Snapshot)
    requires WellFormed(s.records)
    ensures var after := DeleteEffect(s, o, d).0;
      var recs := SnapshotRecords(d);
      var found := FoundHandles(s, d);
      WellFormed(after.records) &&
      ((forall i :: 0 <= i < |found| ==> o.remove(found[i].num).Done?) ==>
        forall r :: r in recs ==> KeyOf(r) !in after.records) &&
      (forall k :: k !in KeysOf(recs) ==> (k in after.records <==> k in s.records)) &&
      (forall k :: k !in KeysOf(recs) && k in s.records ==> after.records[k] == s.records[k])
  {
    var recs := SnapshotRecords(d);
    var found := FoundHandles(s, d);
    DeleteLogged(s, o, d);
    DeleteFindsStoredRecords(s, d);
    ApplyRemovesWellFormed(s.records, o, found);
    RemovingLeavesOthers(s.records, o, recs, found);
    if forall i :: 0 <= i < |found| ==> o.remove(found[i].num).Done? {
      RemovingClears(s.records, o, recs, found);
    }
  }

  /** Deleting handles held at addresses of `recs` leaves every other address as it was. */
  lemma RemovingLeavesOthers(records: map<Key, Record>, o: Oracle, recs: seq<Record>, found: seq<Handle>)
    requires forall i :: 0 <= i < |found| ==> KeyOf(found[i].rec) in KeysOf(recs)
    ensures var after := ApplyRemoves(records, o, found);
      (forall k :: k !in KeysOf(recs) ==> (k in after <==> k in records)) &&
      (forall k :: k !in KeysOf(recs) && k in records ==> after[k] == records[k])
  {
    ApplyRemovesShrinks(records, o, found);
  }

  /**
   * Deleting, with every delete resolving, a handle on each record stored at
   * an address of `recs` empties all those addresses.
   */
  lemma RemovingClears(records: map<Key, Record>, o: Oracle, recs: seq<Record>, found: seq<Handle>)
    requires WellFormed(records)
    requires forall j :: 0 <= j < |recs| && KeyOf(recs[j]) in records ==>
      exists i :: 0 <= i < |found| && found[i].rec == records[KeyOf(recs[j])]
    requires forall i :: 0 <= i < |found| ==> o.remove(found[i].num).Done?
    ensures forall r :: r in recs ==> KeyOf(r) !in ApplyRemoves(records, o, found)
  {
    RemovedAreAbsent(records, o, found);
    forall j | 0 <= j < |recs| && KeyOf(recs[j]) in records
      ensures exists i :: 0 <= i < |found| && KeyOf(found[i].rec) == KeyOf(recs[j])
    {
      var i :| 0 <= i < |found| && found[i].rec == records[KeyOf(recs[j])];
    }
  }

  /** A run of deletes only removes: it adds no address and changes no record it leaves. */
  lemma {:induction false} ApplyRemovesShrinks(records: map<Key, Record>, o: Oracle, hs: seq<Handle>)
    ensures forall k :: k in ApplyRemoves(records, o, hs) ==> k in records && ApplyRemoves(records, o, hs)[k] == records[k]
    ensures forall k :: k in records && (forall i :: 0 <= i < |hs| ==> KeyOf(hs[i].rec) != k) ==> k in ApplyRemoves(records, o, hs)
    decreases |hs|
  {
    if hs != [] {
      var init := hs[..|hs| - 1];
      ApplyRemovesShrinks(records, o, init);
      forall k | k in records && (forall i :: 0 <= i < |hs| ==> KeyOf(hs[i].rec) != k)
        ensures forall i :: 0 <= i < |init| ==> KeyOf(init[i].rec) != k
      {
        forall i | 0 <= i < |init| ensures KeyOf(init[i].rec) != k {
          assert init[i] == hs[i];
        }
      }
    }
  }

  // ---- restore ----

  /** A rejected `delete` ends `restore` at once, with that rejection and no handle built. */
  lemma RestoreStopsOnDeleteFailure(s: StoreState, o: Oracle, d: Snapshot)
    requires DeleteEffect(s, o, d).1.Failed?
    ensures RestoreEffect(s, o, d) == DeleteEffect(s, o, d)
    ensures RestoreLog(s, o, d) == DeleteLog(s, d)
  {
  }

  /** `restore` calls `delete` exactly once, and before anything else. */
  lemma RestoreDeletesFirstAndOnce(s: StoreState, o: Oracle, d: Snapshot)
    ensures |RestoreLog(s, o, d)| > 0 && RestoreLog(s, o, d)[0] == DeleteCalled
    ensures Count(RestoreLog(s, o, d), DeleteCalled) == 1
  {
    var rest := RestoreLogTail(s, o, d);
    CountOnceIn([], [DeleteCalled], rest, 0);
    assert [] + [DeleteCalled] + rest == RestoreLog(s, o, d);
  }

  /** `restore`'s log is `delete`'s own entry followed by calls that are not. */
  lemma RestoreLogTail(s: StoreState, o: Oracle, d: Snapshot) returns (rest: seq<Call>)
    ensures RestoreLog(s, o, d) == [DeleteCalled] + rest && DeleteCalled !in rest
  {
    var lookups := LookupCalls(KeysOf(SnapshotRecords(d))) + RemoveCalls(FoundHandles(s, d));
    CallsOf(KeysOf(SnapshotRecords(d)), FoundHandles(s, d));
    assert DeleteLog(s, d) == [DeleteCalled] + lookups;
    rest := lookups;
    if DeleteEffect(s, o, d).1.Done? {
      var hs := BuiltHandles(s, d);
      var tail := if FirstFailure(SaveOutcomes(o, hs)).Failed? then RemoveCalls(hs) else [];
      RestoreLogSplit(s, o, d);
      rest := lookups + (ConstructCalls(hs) + SaveCalls(hs) + tail);
      AppendAssoc(DeleteLog(s, d), ConstructCalls(hs), SaveCalls(hs));
      AppendAssoc(DeleteLog(s, d), ConstructCalls(hs) + SaveCalls(hs), tail);
      AppendAssoc([DeleteCalled], lookups, ConstructCalls(hs) + SaveCalls(hs) + tail);
    }
  }

  /** The calls after `delete`'s are never `delete`'s own, lookups, or removals of found handles. */
  lemma RestoreLogSplit(s: StoreState, o: Oracle, d: Snapshot)
    requires DeleteEffect(s, o, d).1.Done?
    ensures var hs := BuiltHandles(s, d);
      var tail := if FirstFailure(SaveOutcomes(o, hs)).Failed? then RemoveCalls(hs) else [];
      RestoreLog(s, o, d) == DeleteLog(s, d) + ConstructCalls(hs) + SaveCalls(hs) + tail &&
      (forall c :: c in DeleteLog(s, d) ==> !c.Construct? && !c.Save? && (c.Remove? ==> c.num < s.next + |FoundHandles(s, d)|)) &&
      (forall c :: c in ConstructCalls(hs) ==> c.Construct? && c.handle in hs) &&
      (forall c :: c in SaveCalls(hs) ==> c.Save?) &&
      (forall c :: c in tail ==> c.Remove?)
  {
    var hs := BuiltHandles(s, d);
    DeleteLogCalls(s, d);
    CallsOf([], hs);
  }

  /**
   * `restore` builds exactly one handle per snapshot record, from that
   * record's data and in snapshot order.
   */
  lemma RestoreBuildsOneHandlePerRecord(s: StoreState, o: Oracle, d: Snapshot)
    requires DeleteEffect(s, o, d).1.Done?
    ensures var recs := SnapshotRecords(d);
      var hs := BuiltHandles(s, d);
      forall i :: 0 <= i < |recs| ==> hs[i].rec == recs[i] && Count(RestoreLog(s, o, d), Construct(hs[i])) == 1
  {
    RestoreLogSplit(s, o, d);
    var hs := BuiltHandles(s, d);
    var tail := if FirstFailure(SaveOutcomes(o, hs)).Failed? then RemoveCalls(hs) else [];
    AppendAssoc(DeleteLog(s, d) + ConstructCalls(hs), SaveCalls(hs), tail);
    BuildsCountedOnce(DeleteLog(s, d), hs, SaveCalls(hs) + tail);
  }

  /** Between runs that construct nothing, each handle of a numbered run is constructed once. */
  lemma BuildsCountedOnce(pre: seq<Call>, hs: seq<Handle>, post: seq<Call>)
    requires forall c :: c in pre ==> !c.Construct?
    requires forall c :: c in post ==> !c.Construct?
    requires forall i, j :: 0 <= i < j < |hs| ==> hs[i].num != hs[j].num
    ensures forall i :: 0 <= i < |hs| ==> Count(pre + ConstructCalls(hs) + post, Construct(hs[i])) == 1
  {
    var builds := ConstructCalls(hs);
    forall i | 0 <= i < |hs| ensures Count(pre + builds + post, Construct(hs[i])) == 1 {
      assert builds[i] == Construct(hs[i]);
      CountOnceIn(pre, builds, post, i);
    }
  }

  /**
   * `restore` constructs no handle but those it builds for the snapshot's
   * records; so without a profile it builds no profile handle.
   */
  lemma RestoreBuildsNoOtherHandle(s: StoreState, o: Oracle, d: Snapshot)
    requires DeleteEffect(s, o, d).1.Done?
    ensures var hs := BuiltHandles(s, d);
      (forall c :: c in RestoreLog(s, o, d) && c.Construct? ==> c.handle in hs) &&
      (d.profile.None? ==> forall c :: c in RestoreLog(s, o, d) && c.Construct? ==> !c.handle.rec.ProfileRecord?)
  {
    RestoreLogSplit(s, o, d);
    SnapshotRecordsLayout(d);
    var hs := BuiltHandles(s, d);
    forall h | h in hs ensures h.rec in SnapshotRecords(d) {
      var i :| 0 <= i < |hs| && hs[i] == h;
    }
  }

  /** `restore` calls `save()` exactly once on each handle it builds, and on no other handle. */
  lemma RestoreSavesEachOnce(s: StoreState, o: Oracle, d: Snapshot)
    requires DeleteEffect(s, o, d).1.Done?
    ensures var hs := BuiltHandles(s, d);
      (forall i :: 0 <= i < |hs| ==> Count(RestoreLog(s, o, d), Save(hs[i].num)) == 1) &&
      (forall c :: c in RestoreLog(s, o, d) && c.Save? ==> exists i :: 0 <= i < |hs| && c.num == hs[i].num)
  {
    RestoreLogSplit(s, o, d);
    var hs := BuiltHandles(s, d);
    var tail := if FirstFailure(SaveOutcomes(o, hs)).Failed? then RemoveCalls(hs) else [];
    var saves := SaveCalls(hs);
    CallsOf([], hs);
    forall i | 0 <= i < |hs| ensures Count(RestoreLog(s, o, d), Save(hs[i].num)) == 1 {
      assert saves[i] == Save(hs[i].num);
      CountOnceIn(DeleteLog(s, d) + ConstructCalls(hs), saves, tail, i);
    }
  }

  /**
   * `restore`'s outcome: `delete`'s rejection, or else the first rejected
   * save among the handles built, or else success. A rejected `delete()`
   * during compensation never takes the place of the save error.
   */
  lemma RestoreOutcome(s: StoreState, o: Oracle, d: Snapshot)
    ensures var deleted := DeleteEffect(s, o, d).1;
      RestoreEffect(s, o, d).1 ==
        if deleted.Failed? then deleted else FirstFailure(SaveOutcomes(o, BuiltHandles(s, d)))
    ensures DeleteEffect(s, o, d).1.Done? ==>
      (RestoreEffect(s, o, d).1.Failed? <==>
        exists i :: 0 <= i < |BuiltHandles(s, d)| && o.save(BuiltHandles(s, d)[i].num).Failed?)
  {
    var hs := BuiltHandles(s, d);
    DeleteLogged(s, o, d);
    var built := ConstructAll(DeleteEffect(s, o, d).0, SnapshotRecords(d));
    assert built.1 == hs;
    SaveFailureIff(o, hs);
  }

  /** Some save of a run rejects exactly when the run's outcome is a rejection. */
  lemma SaveFailureIff(o: Oracle, hs: seq<Handle>)
    ensures FirstFailure(SaveOutcomes(o, hs)).Failed? <==> exists i :: 0 <= i < |hs| && o.save(hs[i].num).Failed?
  {
    var outs := SaveOutcomes(o, hs);
    if exists i :: 0 <= i < |hs| && o.save(hs[i].num).Failed? {
      var i :| 0 <= i < |hs| && o.save(hs[i].num).Failed?;
      assert outs[i].Failed?;
    }
  }

  /**
   * When a save rejects, every handle built gets exactly one `delete()` call,
   * the handle whose save rejected included.
   */
  lemma RestoreCompensatesEveryHandle(s: StoreState, o: Oracle, d: Snapshot)
    requires DeleteEffect(s, o, d).1.Done? && RestoreEffect(s, o, d).1.Failed?
    ensures var hs := BuiltHandles(s, d);
      forall i :: 0 <= i < |hs| ==> Count(RestoreLog(s, o, d), Remove(hs[i].num)) == 1
  {
    RestoreOutcome(s, o, d);
    RestoreLogSplit(s, o, d);
    var hs := BuiltHandles(s, d);
    var removes := RemoveCalls(hs);
    forall i | 0 <= i < |hs| ensures Count(RestoreLog(s, o, d), Remove(hs[i].num)) == 1 {
      assert removes[i] == Remove(hs[i].num);
      CountOnceIn(DeleteLog(s, d) + ConstructCalls(hs) + SaveCalls(hs), removes, [], i);
      assert DeleteLog(s, d) + ConstructCalls(hs) + SaveCalls(hs) + removes + [] == RestoreLog(s, o, d);
    }
  }

  /** When every save resolves, no `delete()` is called on a handle built. */
  lemma RestoreSuccessKeepsHandles(s: StoreState, o: Oracle, d: Snapshot)
    requires DeleteEffect(s, o, d).1.Done? && RestoreEffect(s, o, d).1.Done?
    ensures var hs := BuiltHandles(s, d);
      forall i :: 0 <= i < |hs| ==> Count(RestoreLog(s, o, d), Remove(hs[i].num)) == 0
  {
    RestoreOutcome(s, o, d);
    RestoreLogSplit(s, o, d);
    var hs := BuiltHandles(s, d);
    forall i | 0 <= i < |hs| ensures Count(RestoreLog(s, o, d), Remove(hs[i].num)) == 0 {
      CountAbsent(RestoreLog(s, o, d), Remove(hs[i].num));
    }
  }

  /** The records `restore` leaves, written as the runs of saves and deletes it makes. */
  lemma RestoreRecords(s: StoreState, o: Oracle, d: Snapshot)
    requires DeleteEffect(s, o, d).1.Done?
    ensures var deleted := ApplyRemoves(s.records, o, FoundHandles(s, d));
      var hs := BuiltHandles(s, d);
      var after := RestoreEffect(s, o, d);
      (after.1.Done? ==> after.0.records == ApplySaves(deleted, o, hs)) &&
      (after.1.Failed? ==> after.0.records == ApplyRemoves(ApplySaves(deleted, o, hs), o, hs))
  {
    DeleteLogged(s, o, d);
    var hs := BuiltHandles(s, d);
    var built := ConstructAll(DeleteEffect(s, o, d).0, SnapshotRecords(d));
    assert built.1 == hs;
    var saved := SaveAll(built.0, o, hs);
    assert saved.0.records == ApplySaves(ApplyRemoves(s.records, o, FoundHandles(s, d)), o, hs);
  }

  /**
   * After a successful `restore`, every snapshot record's address holds a
   * record, and it is one of the snapshot's records with that address.
   */
  lemma RestoreSuccessStoresEveryRecord(s: StoreState, o: Oracle, d: Snapshot)
    requires WellFormed(s.records)
    requires RestoreEffect(s, o, d).1.Done?
    ensures var after := RestoreEffect(s, o, d).0;
      var recs := SnapshotRecords(d);
      WellFormed(after.records) &&
      forall i :: 0 <= i < |recs| ==>
        (KeyOf(recs[i]) in after.records && after.records[KeyOf(recs[i])] in recs)
  {
    var deleted := ApplyRemoves(s.records, o, FoundHandles(s, d));
    var recs := SnapshotRecords(d);
    var hs := BuiltHandles(s, d);
    RestoreOutcome(s, o, d);
    assert forall i :: 0 <= i < |hs| ==> o.save(hs[i].num).Done?;
    RestoreRecords(s, o, d);
    ApplyRemovesWellFormed(s.records, o, FoundHandles(s, d));
    SavingAllStores(deleted, o, hs, recs);
  }

  /** Saving a handle on each record, with every save resolving, stores a record at each of their addresses. */
  lemma SavingAllStores(records: map<Key, Record>, o: Oracle, hs: seq<Handle>, recs: seq<Record>)
    requires WellFormed(records)
    requires |hs| == |recs| && forall i :: 0 <= i < |hs| ==> hs[i].rec == recs[i] && o.save(hs[i].num).Done?
    ensures var after := ApplySaves(records, o, hs);
      WellFormed(after) &&
      forall i :: 0 <= i < |recs| ==>
        (KeyOf(recs[i]) in after && after[KeyOf(recs[i])] in recs)
  {
    var after := ApplySaves(records, o, hs);
    ApplySavesWellFormed(records, o, hs);
    forall i | 0 <= i < |recs| ensures KeyOf(recs[i]) in after && after[KeyOf(recs[i])] in recs {
      SavedIsPresent(records, o, hs, i);
      var j :| 0 <= j < |hs| && after[KeyOf(hs[i].rec)] == hs[j].rec;
      assert hs[j].rec == recs[j];
    }
  }

  lemma SavedIsPresent(records: map<Key, Record>, o: Oracle, hs: seq<Handle>, i: nat)
    requires i < |hs| && o.save(hs[i].num).Done?
    ensures var after := ApplySaves(records, o, hs);
      KeyOf(hs[i].rec) in after && exists j :: 0 <= j < |hs| && after[KeyOf(hs[i].rec)] == hs[j].rec
  {
    SavedArePresent(records, o, hs);
  }

  /**
   * When a save rejects and every compensating `delete()` resolves, no
   * record remains at the address of any snapshot record.
   */
  lemma RestoreRollsBack(s: StoreState, o: Oracle, d: Snapshot)
    requires DeleteEffect(s, o, d).1.Done? && RestoreEffect(s, o, d).1.Failed?
    requires forall i :: 0 <= i < |BuiltHandles(s, d)| ==> o.remove(BuiltHandles(s, d)[i].num).Done?
    ensures forall r :: r in SnapshotRecords(d) ==> KeyOf(r) !in RestoreEffect(s, o, d).0.records
  {
    var hs := BuiltHandles(s, d);
    var saved := ApplySaves(ApplyRemoves(s.records, o, FoundHandles(s, d)), o, hs);
    RestoreRecords(s, o, d);
    assert RestoreEffect(s, o, d).0.records == ApplyRemoves(saved, o, hs);
    RollingBackClears(saved, o, hs, SnapshotRecords(d));
  }

  /** Deleting a handle on each record, with every delete resolving, empties each of their addresses. */
  lemma RollingBackClears(records: map<Key, Record>, o: Oracle, hs: seq<Handle>, recs: seq<Record>)
    requires |hs| == |recs| && forall i :: 0 <= i < |hs| ==> hs[i].rec == recs[i] && o.remove(hs[i].num).Done?
    ensures forall r :: r in recs ==> KeyOf(r) !in ApplyRemoves(records, o, hs)
  {
    RemovedAreAbsent(records, o, hs);
    forall r | r in recs ensures KeyOf(r) !in ApplyRemoves(records, o, hs) {
      var i :| 0 <= i < |recs| && recs[i] == r;
      assert hs[i].rec == r;
    }
  }
}
