# GuildData — a verified model of discord-rss's guild aggregate

discord-rss keeps, for each Discord guild, a profile, the guild's RSS feeds,
the message formats of those feeds and the subscribers of those feeds, each in
its own document collection. `GuildData` gathers one guild's records into one
aggregate and does four jobs:

- **Construction.** It checks the data. All feeds must name one guild. With a
  profile present, the feeds must name the profile's guild. Every format and
  every subscriber must name a feed that is present. The first failed check
  throws its own message. On success the aggregate keeps the data and takes
  its `id` from the profile, or else from the feeds' guild.
- **`get` and `isEmpty`.** Static `get(guild)` loads the guild's profile and
  feeds. `isEmpty` is true when there is neither a profile nor a feed.
- **`delete`.** It looks each snapshot record up again by its own kind and
  `_id`, then calls `delete()` on every handle it found.
- **`restore`.** It calls `delete`, then builds a new handle for every record
  and saves each one. If a save rejects, it deletes every handle it built and
  rethrows the save error.

The behaviour comes from the unit test of the aggregate,
`src/tests/structs/unit_GuildData.test.js`: the class in
`src/structs/GuildData.js` is modelled by what that test asserts about it.
The model has these modules:

| file | module | contents |
|---|---|---|
| `wrappers.dfy` | `Wrappers` | `Option`, `Result` |
| `records.dfy` | `Records` | profiles, feeds, formats, subscribers; a record's address, which is its kind plus its `_id` |
| `snapshot.dfy` | `GuildSnapshot` | the aggregate's data; the constructor's checks (`Validate`) and their error messages; `isEmpty`; the invariants, stated independently of the checks, and lemmas tying the two together |
| `store.dfy` | `Store` | the document store, as a `class` with a record map, a handle counter and a call log; closed forms of runs of store calls; lemmas about counting calls |
| `protocol.dfy` | `Protocol` | `DeleteEffect` and `RestoreEffect`: what `delete` and `restore` do to the store's state, as functions; lemmas for every property the unit test asserts about them |
| `aggregate.dfy` | `Aggregate` | `class GuildData`: constructor, `New` (the throwing constructor), `IsEmpty`, static `Get`, and the `Delete` and `Restore` methods with their loops, each proved equal to its effect function |
| `guild_cases.dfy` | `GuildCases` | the unit test's concrete constructor, `get`, `isEmpty` and `delete` cases |

How the store is modelled:

- **Handles.** Every handle the store hands out gets a fresh number from a
  counter. This covers handles returned by a lookup and handles built from data.
- **Call log.** The store logs each call. Counting calls in the log stands for
  the mock call counts the test checks (`toHaveBeenCalledTimes`).
- **Outcomes.** An oracle decides whether each `save()` or `delete()` resolves,
  by handle number. It can make any subset of handles reject.
- **Sequencing.** Every `await` is a step taken in order.
- **Errors.** A rejection is a `Failed(error)` outcome. A thrown constructor
  error is a `ValidationError`, and `Message` gives its text.

## Model

| member | source | states |
|---|---|---|
| `GuildSnapshot.ValidateAcceptsConsistent` | src/tests/structs/unit_GuildData.test.js:27-117 | construction succeeds exactly when the feeds agree on one guild, match the profile, and every format and subscriber names a present feed |
| `GuildSnapshot.MismatchedGuildIdsIff` | src/tests/structs/unit_GuildData.test.js:75-88 | "Mismatched guild IDs" is thrown exactly when two feeds name different guilds, whether or not there is a profile |
| `GuildSnapshot.FeedProfileMismatch` | src/tests/structs/unit_GuildData.test.js:27-41 | with one guild among the feeds and a profile of another guild, construction fails naming a feed; every feed so named really mismatches the profile |
| `GuildSnapshot.OrphanFormat` | src/tests/structs/unit_GuildData.test.js:42-57 | a format error naming `name` is thrown exactly when the feed checks pass and the first format naming no present feed has id `name` |
| `GuildSnapshot.OrphanSubscriber` | src/tests/structs/unit_GuildData.test.js:58-74 | a subscriber error naming `name` is thrown exactly when the feed and format checks pass and the first subscriber naming no present feed has id `name` |
| `GuildSnapshot.MessageDetermines` | src/tests/structs/unit_GuildData.test.js:27-88 | distinct errors have distinct messages, so a message identifies the check and the record |
| `GuildSnapshot.ValidatedId` | src/tests/structs/unit_GuildData.test.js:89-117 | on success the `id` is the profile's `_id`, else the guild every feed names; it is undefined exactly for an empty aggregate |
| `GuildSnapshot.EmptyValidHasNoRecords` | src/tests/structs/unit_GuildData.test.js:288-306 | a valid aggregate with neither profile nor feeds has no formats and no subscribers either |
| `GuildSnapshot.LoadedSnapshotValid` | src/tests/structs/unit_GuildData.test.js:126-133 | a profile of the guild, feeds all of the guild and no formats or subscribers always validate, and `id` is the guild unless nothing was found |
| `GuildSnapshot.FirstWhere` | src/tests/structs/unit_GuildData.test.js:42-74 | the index returned is the first element meeting the predicate; none is returned only when no element meets it |
| `Aggregate.GuildData.constructor` | src/tests/structs/unit_GuildData.test.js:89-117 | on data that passes the checks, the aggregate holds exactly that data and the `id` the checks resolved |
| `Aggregate.GuildData.New` | src/tests/structs/unit_GuildData.test.js:27-117 | `new GuildData(data)` throws exactly the first failed check's error, or else yields a fresh aggregate holding `data` |
| `Aggregate.GuildData.IsEmpty` | src/tests/structs/unit_GuildData.test.js:288-306 | on a valid aggregate, `isEmpty` holds exactly when `id` is undefined, and exactly when the aggregate has no record at all |
| `Aggregate.EmptyMeansNoRecords` | src/tests/structs/unit_GuildData.test.js:288-306 | a valid aggregate is empty exactly when its `id` is undefined and exactly when it has no record |
| `Aggregate.GuildData.Get` | src/tests/structs/unit_GuildData.test.js:126-133 | static `get` always yields a valid aggregate: the guild's stored profile, every stored feed of the guild once and nothing else; it looks up the profile and then the feeds and changes no record |
| `Aggregate.GuildData.Delete` | src/tests/structs/unit_GuildData.test.js:309-403 | the new store state and the outcome are exactly `DeleteEffect` of the old state |
| `Aggregate.GuildData.Restore` | src/tests/structs/unit_GuildData.test.js:134-286 | the new store state and the outcome are exactly `RestoreEffect` of the old state |
| `Aggregate.LookUpEach` | src/tests/structs/unit_GuildData.test.js:309-403 | a lookup per address, in order, and one fresh handle per stored record, as `LookupAll` states |
| `Aggregate.BuildEach` | src/tests/structs/unit_GuildData.test.js:141-182 | one fresh handle per record, in order, as `ConstructAll` states |
| `Aggregate.SaveEach` | src/tests/structs/unit_GuildData.test.js:183-212 | one `save()` per handle, whatever earlier saves did; the outcome is the first rejection, as `SaveAll` states |
| `Aggregate.RemoveEach` | src/tests/structs/unit_GuildData.test.js:213-246 | one `delete()` per handle, whatever earlier deletes did; the outcome is the first rejection, as `RemoveAll` states |
| `Protocol.DeleteLooksUpEachEntry` | src/tests/structs/unit_GuildData.test.js:309-370 | `delete` looks up the profile, each feed, each format and each subscriber once, in that order, each by its own kind and `_id`, so a repeated id is looked up twice; every later call is a `delete()` |
| `Protocol.DeleteOfEmpty` | src/tests/structs/unit_GuildData.test.js:371-403 | with no profile and empty lists, `delete` makes no lookup and no `delete()` call and resolves |
| `Protocol.DeleteFindsEveryEntry` | src/tests/structs/unit_GuildData.test.js:309-370 | when every entry's address holds a record, `delete` finds one handle per entry, in snapshot order, on the record stored there, so two entries sharing an `_id` yield two distinct handles |
| `Protocol.DeleteFindsStoredRecords` | src/tests/structs/unit_GuildData.test.js:371-403 | each handle `delete` finds holds the record stored at one of the snapshot's addresses, and every snapshot address holding a record yields a handle on it; addresses holding nothing are skipped |
| `Protocol.DeleteRemovesEachFoundOnce` | src/tests/structs/unit_GuildData.test.js:309-403 | `delete()` is called exactly once on each handle found and on no other handle |
| `Protocol.DeleteOutcome` | src/tests/structs/unit_GuildData.test.js:309-403 | `delete` rejects exactly when some `delete()` on a found handle rejects |
| `Protocol.DeleteClears` | src/tests/structs/unit_GuildData.test.js:309-403 | after `delete`, with every `delete()` resolving, no snapshot address holds a record; records at other addresses are unchanged either way |
| `Protocol.DeleteLogged` | src/tests/structs/unit_GuildData.test.js:309-403 | `delete` appends exactly its own entry, its lookups and its removals to the log, and the records are the found handles removed |
| `Protocol.RestoreLogged` | src/tests/structs/unit_GuildData.test.js:134-286 | `restore` appends exactly `delete`'s calls, then the constructions and saves, then the compensating `delete()` calls when a save rejected |
| `Protocol.RestoreDeletesFirstAndOnce` | src/tests/structs/unit_GuildData.test.js:135-140 | `restore` calls `delete` exactly once, before any other call |
| `Protocol.RestoreLogTail` | src/tests/structs/unit_GuildData.test.js:135-140 | `restore`'s log is `delete`'s own entry followed only by other calls |
| `Protocol.RestoreStopsOnDeleteFailure` | src/tests/structs/unit_GuildData.test.js:135-140 | when `delete` rejects, `restore` rejects with that error and builds nothing |
| `Protocol.RestoreBuildsOneHandlePerRecord` | src/tests/structs/unit_GuildData.test.js:141-170 | `restore` builds exactly one handle per record, from the record's data, in snapshot order |
| `Protocol.RestoreBuildsNoOtherHandle` | src/tests/structs/unit_GuildData.test.js:171-182 | `restore` builds no other handle, so with no profile it builds no profile handle |
| `Protocol.RestoreSavesEachOnce` | src/tests/structs/unit_GuildData.test.js:183-212 | `save()` is called exactly once on each handle built and on no other handle |
| `Protocol.RestoreOutcome` | src/tests/structs/unit_GuildData.test.js:247-286 | `restore`'s outcome is `delete`'s rejection, else the first rejected save, else success; a rejected compensating `delete()` never replaces the save error |
| `Protocol.RestoreCompensatesEveryHandle` | src/tests/structs/unit_GuildData.test.js:213-246 | when a save rejects, every handle built gets exactly one `delete()`, including handles whose own save rejected |
| `Protocol.RestoreSuccessKeepsHandles` | src/tests/structs/unit_GuildData.test.js:183-212 | when every save resolves, no handle built is deleted |
| `Protocol.RestoreSuccessStoresEveryRecord` | src/tests/structs/unit_GuildData.test.js:183-212 | after a successful `restore`, every snapshot address holds one of the snapshot's records |
| `Protocol.RestoreRollsBack` | src/tests/structs/unit_GuildData.test.js:213-246 | after a rejected save, with every compensating `delete()` resolving, no snapshot address holds a record |
| `Protocol.SaveFailureIff` | src/tests/structs/unit_GuildData.test.js:247-265 | a run of saves yields a rejection exactly when some save in it rejects |
| `GuildCases.FeedOfOtherGuild` | src/tests/structs/unit_GuildData.test.js:27-41 | a profile `id1` with feed `abc` of guild `id2` is rejected, naming `abc` |
| `GuildCases.FormatOfMissingFeed` | src/tests/structs/unit_GuildData.test.js:42-57 | a format `whatever` of feed `abh` when only feed `abc` is present is rejected, naming `whatever` |
| `GuildCases.SubscriberOfMissingFeed` | src/tests/structs/unit_GuildData.test.js:58-74 | a subscriber `whatever` of feed `abh` when only feed `abc` is present is rejected, naming `whatever` |
| `GuildCases.FeedsOfTwoGuilds` | src/tests/structs/unit_GuildData.test.js:75-88 | feeds of guilds `a` and `b` are rejected with the guild-mismatch error, with no profile present |
| `GuildCases.ConsistentDataIsKept` | src/tests/structs/unit_GuildData.test.js:89-117 | the consistent example builds an aggregate with `id` `id2` that holds exactly its profile, feeds, formats and subscribers |
| `GuildCases.GetFromEmptyStore` | src/tests/structs/unit_GuildData.test.js:126-133 | `get` on an empty store yields an aggregate with no profile and no feeds that is empty |
| `GuildCases.RepeatedIdsDeletedTwice` | src/tests/structs/unit_GuildData.test.js:309-370 | the test's profile, two feeds, and two formats and two subscribers sharing one `_id` yield seven handles, the repeated ones distinct, each deleted exactly once |
| `GuildCases.EmptyShapes` | src/tests/structs/unit_GuildData.test.js:288-306 | `isEmpty` is true with neither profile nor feeds and false with a profile, with feeds, or with both |
| `Store.Store.Get` | src/tests/structs/unit_GuildData.test.js:309-403 | a lookup logs itself, changes no record, and yields a fresh handle on the stored record exactly when the address holds one |
| `Store.Store.FeedsOfGuild` | src/tests/structs/unit_GuildData.test.js:126-133 | `getManyBy('guild', guild)` yields exactly the stored feeds whose guild is `guild`, each once |
| `Store.Store.Construct` | src/tests/structs/unit_GuildData.test.js:141-182 | `new Kind(data)` yields a fresh handle holding the data, stores nothing and logs the construction |
| `Store.Store.Save` | src/tests/structs/unit_GuildData.test.js:183-212 | `save()` logs itself, reports the store's outcome, and when it resolves stores the handle's record at its address and changes nothing else |
| `Store.Store.Remove` | src/tests/structs/unit_GuildData.test.js:213-246 | `delete()` logs itself, reports the store's outcome, and when it resolves removes the handle's address and changes nothing else |
| `Store.FoundEveryKey` | src/tests/structs/unit_GuildData.test.js:309-370 | when every key holds a record, a lookup run finds one record per key, in order, repeated keys included |
| `Store.FirstFailure` | src/tests/structs/unit_GuildData.test.js:247-286 | the outcome is a rejection exactly when some outcome is one, and it is then the first one |
| `Store.FoundAtKeys` | src/tests/structs/unit_GuildData.test.js:371-403 | the records a lookup run finds are exactly those stored at the addresses looked up |
| `Store.SavedArePresent` | src/tests/structs/unit_GuildData.test.js:183-212 | after a run of saves, every address of a resolved save holds one of the run's records |
| `Store.RemovedAreAbsent` | src/tests/structs/unit_GuildData.test.js:213-246 | after a run of deletes, no address of a resolved delete holds a record |
| `Protocol.ApplyRemovesShrinks` | src/tests/structs/unit_GuildData.test.js:309-403 | a run of deletes adds no address and changes no record it leaves; addresses no handle names survive |
| `Store.CountOnceIn` | src/tests/structs/unit_GuildData.test.js:183-246 | a call that occurs once in a run and nowhere around it is counted exactly once in the whole log |

## Compensation and save order

A `restore` that stopped at the first rejected save would compensate only the
handles already saved. The test (`src/tests/structs/unit_GuildData.test.js:213-246`)
instead makes every subscriber save reject and expects one `delete()` on
every subscriber handle, including handles whose own save rejected. So
compensation deletes every handle built (`RestoreCompensatesEveryHandle`).

The same test needs every handle built before compensation runs: it deletes
the second subscriber handle although the first subscriber save rejects. It
does not say whether saves after a rejected one are still made. The model
builds every handle before any save, makes every save, and reports the first
rejection in creation order.

Lines 300 and 303 of the test assign a misspelled field `profie`. So the
test never checks `isEmpty` on data with feeds but no profile. The model still
states that case (`GuildCases.EmptyShapes`, `GuildSnapshot.IsEmpty`): feeds
alone make the aggregate non-empty.

## Left out

- `toJSON` (lines 119-125) returns a field the test sets by hand. It has no
  logic to model.
- Records are reduced to their `_id` and their `guild` or `feed` reference. The
  test's extra fields (`foo: 1`, `a: 1`) and records without an `_id` are not
  represented. The feeds of lines 75-88 have no `_id`;
  `GuildCases.FeedsOfTwoGuilds` states the case for any two feed ids.
- Data without a `formats` or `subscribers` key (lines 35-38, 51-54) is
  modelled with that list empty: a `Snapshot` always carries all four
  fields.
- A rejected `delete` inside `restore` is not exercised by the test. The
  model has `restore` reject with that error before building anything, as a
  rejection that propagates out of the awaited `delete` would
  (`Protocol.RestoreStopsOnDeleteFailure`).
- `Protocol.RestoreSavesEachOnce`: on a restore whose saves reject, its
  count of one `save()` per built handle is the model's choice. The test
  checks saves only on a restore that succeeds (lines 183-212), so a restore
  that stopped saving at the first rejection would fit it as well.
- `Protocol.DeleteOutcome`: no `delete()` inside `delete` rejects in the test
  (lines 309-403). That `delete` tries every removal and rejects with the
  first rejection, in order, is the model's choice.
- The store's persistence, query engine and mongoose models are represented
  only by a record map keyed by kind and `_id`, a handle counter and an
  outcome oracle. Store-side failures other than a rejected `save()` or
  `delete()` are not modelled.
- Promises, concurrency and scheduling: every `await` is a step in order.
- Logging of swallowed compensation errors is not modelled.
- The HTTP glue in `src/web/routes/api/old/index.js` is not part of this
  model. It covers routing, rate limiting, sessions, CSRF and error formatting.
- The store's logic for ordering `getManyBy` results is not modelled:
  `Store.Store.FeedsOfGuild` promises which feeds it returns, not their order.
