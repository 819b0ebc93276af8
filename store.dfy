/**
 * The document store behind the four record classes, reduced to what the
 * aggregate uses: `get(id)` and `getManyBy('guild', id)` lookups, `new
 * Kind(data)` handles, and `save()` / `delete()` on a handle. Whether a save
 * or a delete succeeds is decided by an oracle, and every call is appended to
 * a log, as the record mocks record their calls.
 */
module Store {
  import opened Wrappers
  import opened Records

  datatype StoreError = StoreError(message: string)

  /** A settled `save()` or `delete()`: resolved, or rejected with an error. */
  datatype Outcome = Done | Failed(error: StoreError)

  /** A store-addressable object built for one record; `num` tells handles apart. */
  datatype Handle = Handle(num: nat, rec: Record)

  /** One call observed on the store, or on the aggregate's own `delete`. */
  datatype Call =
    | DeleteCalled
    | Lookup(key: Key)
    | LookupByGuild(guild: Id)
    | Construct(handle: Handle)
    | Save(num: nat)
    | Remove(num: nat)

  /** How the store settles the `save()` and the `delete()` of each handle. */
  datatype Oracle = Oracle(save: nat -> Outcome, remove: nat -> Outcome)

  /** The persisted records by address, the next handle number, and the call log. */
  datatype StoreState = StoreState(records: map<Key, Record>, next: nat, log: seq<Call>)

  /** Every record is stored at its own address. */
  ghost predicate WellFormed(records: map<Key, Record>) {
    forall k :: k in records ==> KeyOf(records[k]) == k
  }

  // ---- Values built from sequences ----

  /** The handles numbered consecutively from `n`, one per record. */
  function Number(n: nat, recs: seq<Record>): (hs: seq<Handle>)
    ensures |hs| == |recs|
  {
    seq(|recs|, i requires 0 <= i < |recs| => Handle(n + i, recs[i]))
  }

  function KeysOf(recs: seq<Record>): (keys: seq<Key>)
    ensures |keys| == |recs|
  {
    seq(|recs|, i requires 0 <= i < |recs| => KeyOf(recs[i]))
  }

  /** The records stored at `keys`, in order, skipping keys with nothing stored. */
  function Found(records: map<Key, Record>, keys: seq<Key>): seq<Record>
    decreases |keys|
  {
    if keys == [] then []
    else
      var last := keys[|keys| - 1];
      Found(records, keys[..|keys| - 1]) + (if last in records then [records[last]] else [])
  }

  /** The first rejection among the outcomes, in order; `Done` when there is none. */
  function FirstFailure(outs: seq<Outcome>): (r: Outcome)
    ensures r.Failed? <==> exists i :: 0 <= i < |outs| && outs[i].Failed?
    ensures r.Failed? ==> exists i :: 0 <= i < |outs| && outs[i] == r && forall k :: 0 <= k < i ==> outs[k].Done?
    decreases |outs|
  {
    if outs == [] then Done
    else
      var init := outs[..|outs| - 1];
      var first := FirstFailure(init);
      assert forall i :: 0 <= i < |init| ==> init[i] == outs[i];
      if first.Failed? then first else outs[|outs| - 1]
  }

  function SaveOutcomes(o: Oracle, hs: seq<Handle>): (outs: seq<Outcome>)
    ensures |outs| == |hs|
  {
    seq(|hs|, i requires 0 <= i < |hs| => o.save(hs[i].num))
  }

  function RemoveOutcomes(o: Oracle, hs: seq<Handle>): (outs: seq<Outcome>)
    ensures |outs| == |hs|
  {
    seq(|hs|, i requires 0 <= i < |hs| => o.remove(hs[i].num))
  }

  /** The records after saving each handle in turn; a rejected save stores nothing. */
  function ApplySaves(records: map<Key, Record>, o: Oracle, hs: seq<Handle>): map<Key, Record>
    decreases |hs|
  {
    if hs == [] then records
    else
      var before := ApplySaves(records, o, hs[..|hs| - 1]);
      var h := hs[|hs| - 1];
      if o.save(h.num).Done? then before[KeyOf(h.rec) := h.rec] else before
  }

  /** The records after deleting each handle in turn; a rejected delete removes nothing. */
  function ApplyRemoves(records: map<Key, Record>, o: Oracle, hs: seq<Handle>): map<Key, Record>
    decreases |hs|
  {
    if hs == [] then records
    else
      var before := ApplyRemoves(records, o, hs[..|hs| - 1]);
      var h := hs[|hs| - 1];
      if o.remove(h.num).Done? then before - {KeyOf(h.rec)} else before
  }

  function LookupCalls(keys: seq<Key>): (calls: seq<Call>)
    ensures |calls| == |keys|
  {
    seq(|keys|, i requires 0 <= i < |keys| => Lookup(keys[i]))
  }

  function ConstructCalls(hs: seq<Handle>): (calls: seq<Call>)
    ensures |calls| == |hs|
  {
    seq(|hs|, i requires 0 <= i < |hs| => Construct(hs[i]))
  }

  function SaveCalls(hs: seq<Handle>): (calls: seq<Call>)
    ensures |calls| == |hs|
  {
    seq(|hs|, i requires 0 <= i < |hs| => Save(hs[i].num))
  }

  function RemoveCalls(hs: seq<Handle>): (calls: seq<Call>)
    ensures |calls| == |hs|
  {
    seq(|hs|, i requires 0 <= i < |hs| => Remove(hs[i].num))
  }

  // ---- Effects of a run of store calls ----

  /** `get` on each key in turn: one lookup per key, one fresh handle per stored record. */
  function LookupAll(s: StoreState, keys: seq<Key>): (StoreState, seq<Handle>) {
    var found := Number(s.next, Found(s.records, keys));
    (s.(next := s.next + |found|, log := s.log + LookupCalls(keys)), found)
  }

  /** `new Kind(data)` for each record in turn. */
  function ConstructAll(s: StoreState, recs: seq<Record>): (StoreState, seq<Handle>) {
    var hs := Number(s.next, recs);
    (s.(next := s.next + |recs|, log := s.log + ConstructCalls(hs)), hs)
  }

  /** `save()` on each handle in turn, reporting the first rejection. */
  function SaveAll(s: StoreState, o: Oracle, hs: seq<Handle>): (StoreState, Outcome) {
    (s.(records := ApplySaves(s.records, o, hs), log := s.log + SaveCalls(hs)), FirstFailure(SaveOutcomes(o, hs)))
  }

  /** `delete()` on each handle in turn, reporting the first rejection. */
  function RemoveAll(s: StoreState, o: Oracle, hs: seq<Handle>): (StoreState, Outcome) {
    (s.(records := ApplyRemoves(s.records, o, hs), log := s.log + RemoveCalls(hs)), FirstFailure(RemoveOutcomes(o, hs)))
  }

  // ---- Extending a run by one call ----

  lemma NumberSnoc(n: nat, recs: seq<Record>, r: Record)
    ensures Number(n, recs + [r]) == Number(n, recs) + [Handle(n + |recs|, r)]
  {
  }

  lemma FoundSnoc(records: map<Key, Record>, keys: seq<Key>, k: Key)
    ensures Found(records, keys + [k]) == Found(records, keys) + (if k in records then [records[k]] else [])
  {
    assert (keys + [k])[..|keys|] == keys;
  }

  /** When every key holds a record, one record is found per key, in order, repeated keys included. */
  lemma {:induction false} FoundEveryKey(records: map<Key, Record>, keys: seq<Key>)
    requires forall j :: 0 <= j < |keys| ==> keys[j] in records
    ensures |Found(records, keys)| == |keys|
    ensures forall j :: 0 <= j < |keys| ==> Found(records, keys)[j] == records[keys[j]]
    decreases |keys|
  {
    if keys != [] {
      var init := keys[..|keys| - 1];
      FoundEveryKey(records, init);
      assert Found(records, keys) == Found(records, init) + [records[keys[|keys| - 1]]];
    }
  }

  lemma FirstFailureSnoc(outs: seq<Outcome>, x: Outcome)
    ensures FirstFailure(outs + [x]) == if FirstFailure(outs).Failed? then FirstFailure(outs) else x
  {
    assert (outs + [x])[..|outs|] == outs;
  }

  lemma ApplySnoc(records: map<Key, Record>, o: Oracle, hs: seq<Handle>, h: Handle)
    ensures ApplySaves(records, o, hs + [h]) ==
      if o.save(h.num).Done? then ApplySaves(records, o, hs)[KeyOf(h.rec) := h.rec] else ApplySaves(records, o, hs)
    ensures ApplyRemoves(records, o, hs + [h]) ==
      if o.remove(h.num).Done? then ApplyRemoves(records, o, hs) - {KeyOf(h.rec)} else ApplyRemoves(records, o, hs)
  {
    assert (hs + [h])[..|hs|] == hs;
  }

  lemma CallsSnoc(keys: seq<Key>, k: Key, o: Oracle, hs: seq<Handle>, h: Handle)
    ensures LookupCalls(keys + [k]) == LookupCalls(keys) + [Lookup(k)]
    ensures ConstructCalls(hs + [h]) == ConstructCalls(hs) + [Construct(h)]
    ensures SaveCalls(hs + [h]) == SaveCalls(hs) + [Save(h.num)]
    ensures RemoveCalls(hs + [h]) == RemoveCalls(hs) + [Remove(h.num)]
    ensures SaveOutcomes(o, hs + [h]) == SaveOutcomes(o, hs) + [o.save(h.num)]
    ensures RemoveOutcomes(o, hs + [h]) == RemoveOutcomes(o, hs) + [o.remove(h.num)]
  {
  }

  // ---- Counting calls ----

  function Count<T(==)>(s: seq<T>, x: T): nat
    decreases |s|
  {
    if s == [] then 0 else (if s[0] == x then 1 else 0) + Count(s[1..], x)
  }

  lemma {:induction false} CountConcat<T>(a: seq<T>, b: seq<T>, x: T)
    ensures Count(a + b, x) == Count(a, x) + Count(b, x)
    decreases |a|
  {
    if a == [] {
      assert a + b == b;
    } else {
      assert (a + b)[1..] == a[1..] + b;
      CountConcat(a[1..], b, x);
    }
  }

  lemma {:induction false} CountAbsent<T>(s: seq<T>, x: T)
    requires x !in s
    ensures Count(s, x) == 0
    decreases |s|
  {
    if s != [] {
      assert s[0] != x && x !in s[1..];
      CountAbsent(s[1..], x);
    }
  }

  lemma {:induction false} CountUnique<T>(s: seq<T>, j: nat)
    requires j < |s|
    requires forall i :: 0 <= i < |s| && s[i] == s[j] ==> i == j
    ensures Count(s, s[j]) == 1
    decreases |s|
  {
    if j == 0 {
      assert forall i :: 0 <= i < |s| - 1 ==> s[1..][i] == s[i + 1];
      CountAbsent(s[1..], s[0]);
    } else {
      CountUnique(s[1..], j - 1);
    }
  }

  /** An element that occurs once in `mid` and not at all around it occurs once in the whole. */
  lemma CountOnceIn<T>(pre: seq<T>, mid: seq<T>, post: seq<T>, j: nat)
    requires j < |mid| && mid[j] !in pre && mid[j] !in post
    requires forall i :: 0 <= i < |mid| && mid[i] == mid[j] ==> i == j
    ensures Count(pre + mid + post, mid[j]) == 1
  {
    CountConcat(pre + mid, post, mid[j]);
    CountConcat(pre, mid, mid[j]);
    CountAbsent(pre, mid[j]);
    CountAbsent(post, mid[j]);
    CountUnique(mid, j);
  }

  // ---- Facts about the effects ----

  /** Each stored record that a lookup run finds is stored at one of the keys looked up. */
  lemma {:induction false} FoundAtKeys(records: map<Key, Record>, keys: seq<Key>)
    requires WellFormed(records)
    ensures |Found(records, keys)| <= |keys|
    ensures forall r :: r in Found(records, keys) <==> exists i :: 0 <= i < |keys| && keys[i] in records && records[keys[i]] == r
    decreases |keys|
  {
    if keys != [] {
      var init := keys[..|keys| - 1];
      FoundAtKeys(records, init);
      forall r ensures r in Found(records, keys) <==> exists i :: 0 <= i < |keys| && keys[i] in records && records[keys[i]] == r {
        if i :| 0 <= i < |init| && init[i] in records && records[init[i]] == r {
          assert keys[i] == init[i];
        }
      }
    }
  }

  lemma {:induction false} ApplySavesWellFormed(records: map<Key, Record>, o: Oracle, hs: seq<Handle>)
    requires WellFormed(records)
    ensures WellFormed(ApplySaves(records, o, hs))
    decreases |hs|
  {
    if hs != [] {
      ApplySavesWellFormed(records, o, hs[..|hs| - 1]);
    }
  }

  lemma {:induction false} ApplyRemovesWellFormed(records: map<Key, Record>, o: Oracle, hs: seq<Handle>)
    requires WellFormed(records)
    ensures WellFormed(ApplyRemoves(records, o, hs))
    decreases |hs|
  {
    if hs != [] {
      ApplyRemovesWellFormed(records, o, hs[..|hs| - 1]);
    }
  }

  /**
   * After a run of saves, the address of every handle whose save resolved
   * holds a record, and it is one of the run's records at that address.
   */
  lemma {:induction false} SavedArePresent(records: map<Key, Record>, o: Oracle, hs: seq<Handle>)
    ensures forall i :: 0 <= i < |hs| && o.save(hs[i].num).Done? ==> KeyOf(hs[i].rec) in ApplySaves(records, o, hs)
    ensures forall i :: 0 <= i < |hs| && o.save(hs[i].num).Done? ==>
      exists j :: 0 <= j < |hs| && ApplySaves(records, o, hs)[KeyOf(hs[i].rec)] == hs[j].rec
    decreases |hs|
  {
    if hs != [] {
      var init := hs[..|hs| - 1];
      SavedArePresent(records, o, init);
      forall i | 0 <= i < |hs| && o.save(hs[i].num).Done?
        ensures KeyOf(hs[i].rec) in ApplySaves(records, o, hs)
        ensures exists j :: 0 <= j < |hs| && ApplySaves(records, o, hs)[KeyOf(hs[i].rec)] == hs[j].rec
      {
        if i < |init| {
          assert hs[i] == init[i];
          var result := ApplySaves(records, o, hs);
          var last := hs[|hs| - 1];
          if o.save(last.num).Done? && KeyOf(last.rec) == KeyOf(hs[i].rec) {
            assert result[KeyOf(hs[i].rec)] == hs[|hs| - 1].rec;
          } else {
            var j :| 0 <= j < |init| && ApplySaves(records, o, init)[KeyOf(init[i].rec)] == init[j].rec;
            assert result[KeyOf(hs[i].rec)] == hs[j].rec;
          }
        }
      }
    }
  }

  /** After a run of deletes, nothing is stored at the address of a handle whose delete resolved. */
  lemma {:induction false} RemovedAreAbsent(records: map<Key, Record>, o: Oracle, hs: seq<Handle>)
    ensures forall i :: 0 <= i < |hs| && o.remove(hs[i].num).Done? ==> KeyOf(hs[i].rec) !in ApplyRemoves(records, o, hs)
    decreases |hs|
  {
    if hs != [] {
      var init := hs[..|hs| - 1];
      RemovedAreAbsent(records, o, init);
      forall i | 0 <= i < |init| ensures hs[i] == init[i] { }
    }
  }

  // ---- The store ----

  class Store {
    var records: map<Key, Record>
    var next: nat
    var log: seq<Call>
    const oracle: Oracle

    ghost predicate Valid()
      reads this
    {
      WellFormed(records)
    }

    function State(): StoreState
      reads this
    {
      StoreState(records, next, log)
    }

    constructor (records: map<Key, Record>, oracle: Oracle)
      requires WellFormed(records)
      ensures Valid() && this.oracle == oracle
      ensures State() == StoreState(records, 0, [])
    {
      this.records := records;
      this.next := 0;
      this.log := [];
      this.oracle := oracle;
    }

    /** Appends a call observed outside the store (the aggregate's own `delete`). */
    method Note(c: Call)
      modifies this
      ensures State() == old(State()).(log := old(log) + [c])
    {
      log := log + [c];
    }

    /** `Kind.get(id)`: a fresh handle on the record stored at `key`, if any. */
    method Get(key: Key) returns (h: Option<Handle>)
      modifies this
      ensures records == old(records) && log == old(log) + [Lookup(key)]
      ensures key in records ==> h == Some(Handle(old(next), records[key])) && next == old(next) + 1
      ensures key !in records ==> h == None && next == old(next)
    {
      log := log + [Lookup(key)];
      if key in records {
        h := Some(Handle(next, records[key]));
        next := next + 1;
      } else {
        h := None;
      }
    }

    /** `Feed.getManyBy('guild', guild)`: every stored feed of the guild, in some order, each once. */
    method FeedsOfGuild(guild: Id) returns (feeds: seq<Feed>)
      requires Valid()
      modifies this
      ensures records == old(records) && next == old(next) && log == old(log) + [LookupByGuild(guild)]
      ensures forall f :: f in feeds <==> FeedRecord(f) in records.Values && f.guild == guild
      ensures forall i, j :: 0 <= i < j < |feeds| ==> feeds[i] != feeds[j]
    {
      log := log + [LookupByGuild(guild)];
      feeds := [];
      var pending := records.Keys;
      while pending != {}
        invariant pending <= records.Keys
        invariant forall f :: f in feeds <==>
          (exists k :: k in records.Keys - pending && records[k] == FeedRecord(f)) && f.guild == guild
        invariant forall i :: 0 <= i < |feeds| ==> Key(FeedKind, feeds[i].id) !in pending
        invariant forall i, j :: 0 <= i < j < |feeds| ==> feeds[i] != feeds[j]
        decreases pending
      {
        var k :| k in pending;
        if records[k].FeedRecord? && records[k].feed.guild == guild {
          assert KeyOf(records[k]) == k;
          feeds := feeds + [records[k].feed];
        }
        pending := pending - {k};
      }
    }

    /** `new Kind(data)`: a fresh handle holding `rec`; nothing is stored yet. */
    method Construct(rec: Record) returns (h: Handle)
      modifies this
      ensures h == Handle(old(next), rec)
      ensures State() == old(State()).(next := old(next) + 1, log := old(log) + [Call.Construct(h)])
    {
      h := Handle(next, rec);
      next := next + 1;
      log := log + [Call.Construct(h)];
    }

    /** `handle.save()`: when the store resolves it, the handle's record is stored at its address. */
    method Save(h: Handle) returns (out: Outcome)
      requires Valid()
      modifies this
      ensures Valid() && out == oracle.save(h.num)
      ensures State() == old(State()).(
        records := if out.Done? then old(records)[KeyOf(h.rec) := h.rec] else old(records),
        log := old(log) + [Call.Save(h.num)])
    {
      out := oracle.save(h.num);
      log := log + [Call.Save(h.num)];
      if out.Done? {
        records := records[KeyOf(h.rec) := h.rec];
      }
    }

    /** `handle.delete()`: when the store resolves it, nothing is stored at the handle's address. */
    method Remove(h: Handle) returns (out: Outcome)
      requires Valid()
      modifies this
      ensures Valid() && out == oracle.remove(h.num)
      ensures State() == old(State()).(
        records := if out.Done? then old(records) - {KeyOf(h.rec)} else old(records),
        log := old(log) + [Call.Remove(h.num)])
    {
      out := oracle.remove(h.num);
      log := log + [Call.Remove(h.num)];
      if out.Done? {
        records := records - {KeyOf(h.rec)};
      }
    }
  }
}
