/**
 * The unit cases of the GuildData constructor, `isEmpty`, static `get` and `delete`,
 * each stated as a fact about the model.
 */
module GuildCases {
  import opened Wrappers
  import opened Records
  import opened GuildSnapshot
  import opened Store
  import opened Protocol
  import opened Aggregate

  /** A profile `id1` with a feed of guild `id2` is rejected, naming feed `abc`. */
  lemma FeedOfOtherGuild()
    ensures var d := Snapshot(Some(Profile("id1")), [Feed("abc", "id2")], [], []);
      Validate(d) == Err(FeedDoesNotMatchProfile("abc"))
  {
    var d := Snapshot(Some(Profile("id1")), [Feed("abc", "id2")], [], []);
    FeedGuildsAgree(d.feeds);
  }

  /** A format of feed `abh` when only feed `abc` is present is rejected, naming the format. */
  lemma FormatOfMissingFeed()
    ensures var d := Snapshot(None, [Feed("abc", "id2")], [Format("whatever", "abh")], []);
      Validate(d) == Err(FormatMatchesNoFeed("whatever"))
  {
    var d := Snapshot(None, [Feed("abc", "id2")], [Format("whatever", "abh")], []);
    FeedGuildsAgree(d.feeds);
    FeedIdsHasFeed(d.feeds, "abh");
  }

  /** A subscriber of feed `abh` when only feed `abc` is present is rejected, naming the subscriber. */
  lemma SubscriberOfMissingFeed()
    ensures var d := Snapshot(None, [Feed("abc", "id2")], [], [Subscriber("whatever", "abh")]);
      Validate(d) == Err(SubscriberMatchesNoFeed("whatever"))
  {
    var d := Snapshot(None, [Feed("abc", "id2")], [], [Subscriber("whatever", "abh")]);
    FeedGuildsAgree(d.feeds);
    FeedIdsHasFeed(d.feeds, "abh");
  }

  /** Feeds of guilds `a` and `b` are rejected without any profile. */
  lemma FeedsOfTwoGuilds(first: Id, second: Id)
    ensures var d := Snapshot(None, [Feed(first, "a"), Feed(second, "b")], [], []);
      Validate(d) == Err(MismatchedGuildIds)
  {
    var d := Snapshot(None, [Feed(first, "a"), Feed(second, "b")], [], []);
    MismatchedGuildIdsIff(d);
    assert d.feeds[0].guild != d.feeds[1].guild;
  }

  /** Consistent data builds an aggregate holding exactly that data, with `id` the profile's. */
  method ConsistentDataIsKept() returns (g: GuildData)
    ensures g.id == Some("id2")
    ensures g.profile == Some(Profile("id2")) && g.feeds == [Feed("abc", "id2")]
    ensures g.formats == [Format("formz", "abc")] && g.subscribers == [Subscriber("whatever", "abc")]
  {
    var d := Snapshot(Some(Profile("id2")), [Feed("abc", "id2")], [Format("formz", "abc")], [Subscriber("whatever", "abc")]);
    FeedGuildsAgree(d.feeds);
    FeedIdsHasFeed(d.feeds, "abc");
    g := new GuildData(d);
  }

  /** Static `get` on a store holding nothing yields the empty aggregate. */
  method GetFromEmptyStore(o: Oracle, guild: Id) returns (g: GuildData)
    ensures g.id == None && g.profile == None && g.feeds == [] && g.IsEmpty()
  {
    var store := new Store(map[], o);
    g := GuildData.Get(store, guild);
  }

  /**
   * `delete` on a profile, two feeds, and two formats and two subscribers
   * that share one `_id`, with every address stored: seven handles are
   * found, the two of each repeated `_id` distinct, and each gets one `delete()`.
   */
  lemma RepeatedIdsDeletedTwice(s: StoreState, p: Id, f1: Id, f2: Id, x: Id)
    requires Key(ProfileKind, p) in s.records
    requires Key(FeedKind, f1) in s.records && Key(FeedKind, f2) in s.records
    requires Key(FormatKind, x) in s.records && Key(SubscriberKind, x) in s.records
    ensures var d := Snapshot(Some(Profile(p)), [Feed(f1, p), Feed(f2, p)],
        [Format(x, f1), Format(x, f1)], [Subscriber(x, f1), Subscriber(x, f1)]);
      var found := FoundHandles(s, d);
      |found| == 7 && found[3] != found[4] && found[5] != found[6] &&
      forall i :: 0 <= i < 7 ==> Count(DeleteLog(s, d), Remove(found[i].num)) == 1
  {
    var d := Snapshot(Some(Profile(p)), [Feed(f1, p), Feed(f2, p)],
      [Format(x, f1), Format(x, f1)], [Subscriber(x, f1), Subscriber(x, f1)]);
    assert SnapshotRecords(d) == [ProfileRecord(Profile(p)), FeedRecord(Feed(f1, p)), FeedRecord(Feed(f2, p)),
      FormatRecord(Format(x, f1)), FormatRecord(Format(x, f1)),
      SubscriberRecord(Subscriber(x, f1)), SubscriberRecord(Subscriber(x, f1))];
    DeleteFindsEveryEntry(s, d);
    DeleteRemovesEachFoundOnce(s, d);
  }

  /** `isEmpty` on the three shapes: nothing, a profile alone, feeds alone. */
  lemma EmptyShapes(p: Profile, f: Feed)
    ensures GuildSnapshot.IsEmpty(Snapshot(None, [], [], []))
    ensures !GuildSnapshot.IsEmpty(Snapshot(Some(p), [], [], []))
    ensures !GuildSnapshot.IsEmpty(Snapshot(None, [f], [], []))
    ensures !GuildSnapshot.IsEmpty(Snapshot(Some(p), [f], [], []))
  {
  }
}
