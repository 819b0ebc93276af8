/**
 * The GuildData aggregate: one guild's profile, feeds, formats and
 * subscribers, checked on construction, loadable from the store, and able to
 * delete and restore its records there.
 */
module Aggregate {
  import opened Wrappers
  import opened Records
  import opened GuildSnapshot
  import opened Store
  import opened Protocol

  class GuildData {
    var id: Option<Id>
    var profile: Option<Profile>
    var feeds: seq<Feed>
    var formats: seq<Format>
    var subscribers: seq<Subscriber>

    /**
     * The plain data the aggregate holds. Callers may assign the fields
     * directly after construction, so it need not pass the checks.
     */
    function Data(): Snapshot
      reads this
    {
      Snapshot(profile, feeds, formats, subscribers)
    }

    /** The data passed the constructor's checks and `id` is the one they resolved. */
    ghost predicate Valid()
      reads this
    {
      Validate(Data()) == Ok(id)
    }

    /** `new GuildData(data)` on data that passes the checks; `New` is the throwing form. */
    constructor (d: Snapshot)
      requires Validate(d).Ok?
      ensures Valid() && Data() == d
    {
      id := Validate(d).value;
      profile := d.profile;
      feeds := d.feeds;
      formats := d.formats;
      subscribers := d.subscribers;
    }

    /** `new GuildData(data)`: the first failed check's error, or an aggregate holding `d`. */
    static method New(d: Snapshot) returns (r: Result<GuildData, ValidationError>)
      ensures r.Err? <==> Validate(d).Err?
      ensures r.Err? ==> Validate(d) == Err(r.error)
      ensures r.Ok? ==> fresh(r.value) && r.value.Valid() && r.value.Data() == d
    {
      var checked := Validate(d);
      if checked.Err? {
        r := Err(checked.error);
      } else {
        var g := new GuildData(d);
        r := Ok(g);
      }
    }

    /**
     * `isEmpty`: no profile and no feed. On a valid aggregate this is
     * exactly an undefined `id`, and then there is no record at all.
     */
    predicate IsEmpty(): (b: bool)
      reads this
      ensures Valid() ==> (b <==> id.None?)
      ensures Valid() ==> (b <==> SnapshotRecords(Data()) == [])
    {
      EmptyMeansNoRecords(Data(), id);
      GuildSnapshot.IsEmpty(Data())
    }

    /**
     * Static `get(guild)`: the guild's profile, if stored, and every stored
     * feed of the guild; no formats or subscribers. What is stored always
     * passes the checks, so loading never throws.
     */
    static method Get(store: Store, guild: Id) returns (g: GuildData)
      requires store.Valid()
      modifies store
      ensures store.Valid() && fresh(g) && g.Valid()
      ensures var at := Key(ProfileKind, guild);
        g.profile == if at in old(store.records) then Some(old(store.records)[at].profile) else None
      ensures forall f :: f in g.feeds <==> FeedRecord(f) in old(store.records).Values && f.guild == guild
      ensures forall i, j :: 0 <= i < j < |g.feeds| ==> g.feeds[i] != g.feeds[j]
      ensures g.formats == [] && g.subscribers == []
      ensures g.id == if g.profile.Some? || |g.feeds| > 0 then Some(guild) else None
      ensures store.records == old(store.records)
      ensures store.log == old(store.log) + [Lookup(Key(ProfileKind, guild)), LookupByGuild(guild)]
    {
      var h := store.Get(Key(ProfileKind, guild));
      var profile: Option<Profile> := None;
      if h.Some? {
        profile := Some(h.value.rec.profile);
      }
      var feeds := store.FeedsOfGuild(guild);
      forall i | 0 <= i < |feeds| ensures feeds[i].guild == guild {
        assert feeds[i] in feeds;
      }
      LoadedSnapshotValid(profile, feeds, guild);
      g := new GuildData(Snapshot(profile, feeds, [], []));
    }

    /**
     * `delete`: fetch every snapshot record again by its own kind and `_id`,
     * then call `delete()` on each handle found; the first rejection is the
     * outcome.
     */
    method Delete(store: Store) returns (out: Outcome)
      requires store.Valid()
      modifies store
      ensures store.Valid()
      ensures (store.State(), out) == DeleteEffect(old(store.State()), store.oracle, Data())
    {
      store.Note(DeleteCalled);
      var found := LookUpEach(store, KeysOf(SnapshotRecords(Data())));
      out := RemoveEach(store, found);
    }

    /**
     * `restore`: `delete`, then one handle per record and `save()` on each;
     * when a save rejects, `delete()` on every handle built, ignoring its
     * outcome, and the first save error is the outcome.
     */
    method Restore(store: Store) returns (out: Outcome)
      requires store.Valid()
      modifies store
      ensures store.Valid()
      ensures (store.State(), out) == RestoreEffect(old(store.State()), store.oracle, Data())
    {
      out := Delete(store);
      if out.Failed? {
        return;
      }
      var built := BuildEach(store, SnapshotRecords(Data()));
      out := SaveEach(store, built);
      if out.Failed? {
        var ignored := RemoveEach(store, built);
      }
    }
  }

  lemma EmptyMeansNoRecords(d: Snapshot, id: Option<Id>)
    ensures Validate(d) == Ok(id) ==> (GuildSnapshot.IsEmpty(d) <==> id.None?)
    ensures Validate(d) == Ok(id) ==> (GuildSnapshot.IsEmpty(d) <==> SnapshotRecords(d) == [])
  {
    if Validate(d) == Ok(id) {
      ValidatedId(d);
      EmptyValidHasNoRecords(d);
    }
  }

  // ---- The runs of store calls the aggregate makes ----

  /** Runs of no calls change nothing. */
  lemma EmptyRuns(s: StoreState, o: Oracle)
    ensures LookupAll(s, []) == (s, []) && ConstructAll(s, []) == (s, [])
    ensures SaveAll(s, o, []) == (s, Done) && RemoveAll(s, o, []) == (s, Done)
  {
    assert LookupCalls([]) == [] && ConstructCalls([]) == [] && SaveCalls([]) == [] && RemoveCalls([]) == [];
    assert SaveOutcomes(o, []) == [] && RemoveOutcomes(o, []) == [];
    assert Found(s.records, []) == [] && Number(s.next, []) == [];
    assert s.log + [] == s.log;
  }

  /** `Kind.get(id)` for each address in turn, keeping the handles found. */
  method LookUpEach(store: Store, keys: seq<Key>) returns (found: seq<Handle>)
    requires store.Valid()
    modifies store
    ensures store.Valid()
    ensures (store.State(), found) == LookupAll(old(store.State()), keys)
  {
    ghost var s := store.State();
    found := [];
    EmptyRuns(s, store.oracle);
    assert keys[..0] == [];
    for i := 0 to |keys|
      invariant store.Valid()
      invariant (store.State(), found) == LookupAll(s, keys[..i])
    {
      assert keys[..i + 1] == keys[..i] + [keys[i]];
      FoundSnoc(s.records, keys[..i], keys[i]);
      if keys[i] in s.records {
        NumberSnoc(s.next, Found(s.records, keys[..i]), s.records[keys[i]]);
      }
      CallsSnoc(keys[..i], keys[i], store.oracle, [], Handle(0, ProfileRecord(Profile(""))));
      AppendAssoc(s.log, LookupCalls(keys[..i]), [Lookup(keys[i])]);
      var h := store.Get(keys[i]);
      if h.Some? {
        found := found + [h.value];
      }
      assert store.records == LookupAll(s, keys[..i + 1]).0.records;
      assert store.next == LookupAll(s, keys[..i + 1]).0.next;
      assert store.log == LookupAll(s, keys[..i + 1]).0.log;
      assert found == LookupAll(s, keys[..i + 1]).1;
    }
    assert keys[..|keys|] == keys;
  }

  /** `new Kind(data)` for each record in turn. */
  method BuildEach(store: Store, recs: seq<Record>) returns (built: seq<Handle>)
    requires store.Valid()
    modifies store
    ensures store.Valid()
    ensures (store.State(), built) == ConstructAll(old(store.State()), recs)
  {
    ghost var s := store.State();
    built := [];
    EmptyRuns(s, store.oracle);
    assert recs[..0] == [];
    for i := 0 to |recs|
      invariant store.Valid()
      invariant (store.State(), built) == ConstructAll(s, recs[..i])
    {
      assert recs[..i + 1] == recs[..i] + [recs[i]];
      NumberSnoc(s.next, recs[..i], recs[i]);
      CallsSnoc([], Key(ProfileKind, ""), store.oracle, built, Handle(s.next + i, recs[i]));
      ghost var log := store.log;
      var h := store.Construct(recs[i]);
      assert h == Handle(s.next + i, recs[i]);
      AppendAssoc(s.log, ConstructCalls(built), [Call.Construct(h)]);
      built := built + [h];
      assert store.next == ConstructAll(s, recs[..i + 1]).0.next;
      assert store.log == ConstructAll(s, recs[..i + 1]).0.log;
      assert built == ConstructAll(s, recs[..i + 1]).1;
    }
    assert recs[..|recs|] == recs;
  }

  /** `save()` on each handle in turn; every save is made, the first rejection is the outcome. */
  method SaveEach(store: Store, hs: seq<Handle>) returns (out: Outcome)
    requires store.Valid()
    modifies store
    ensures store.Valid()
    ensures (store.State(), out) == SaveAll(old(store.State()), store.oracle, hs)
  {
    ghost var s := store.State();
    out := Done;
    EmptyRuns(s, store.oracle);
    assert hs[..0] == [];
    for i := 0 to |hs|
      invariant store.Valid()
      invariant (store.State(), out) == SaveAll(s, store.oracle, hs[..i])
    {
      assert hs[..i + 1] == hs[..i] + [hs[i]];
      ApplySnoc(s.records, store.oracle, hs[..i], hs[i]);
      FirstFailureSnoc(SaveOutcomes(store.oracle, hs[..i]), store.oracle.save(hs[i].num));
      CallsSnoc([], Key(ProfileKind, ""), store.oracle, hs[..i], hs[i]);
      AppendAssoc(s.log, SaveCalls(hs[..i]), [Call.Save(hs[i].num)]);
      var r := store.Save(hs[i]);
      if out.Done? {
        out := r;
      }
    }
    assert hs[..|hs|] == hs;
  }

  /** `delete()` on each handle in turn; every delete is made, the first rejection is the outcome. */
  method RemoveEach(store: Store, hs: seq<Handle>) returns (out: Outcome)
    requires store.Valid()
    modifies store
    ensures store.Valid()
    ensures (store.State(), out) == RemoveAll(old(store.State()), store.oracle, hs)
  {
    ghost var s := store.State();
    out := Done;
    EmptyRuns(s, store.oracle);
    assert hs[..0] == [];
    for i := 0 to |hs|
      invariant store.Valid()
      invariant (store.State(), out) == RemoveAll(s, store.oracle, hs[..i])
    {
      assert hs[..i + 1] == hs[..i] + [hs[i]];
      ApplySnoc(s.records, store.oracle, hs[..i], hs[i]);
      FirstFailureSnoc(RemoveOutcomes(store.oracle, hs[..i]), store.oracle.remove(hs[i].num));
      CallsSnoc([], Key(ProfileKind, ""), store.oracle, hs[..i], hs[i]);
      AppendAssoc(s.log, RemoveCalls(hs[..i]), [Call.Remove(hs[i].num)]);
      var r := store.Remove(hs[i]);
      if out.Done? {
        out := r;
      }
    }
    assert hs[..|hs|] == hs;
  }
}
