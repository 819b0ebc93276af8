/**
 * The plain data a GuildData aggregate is built from, and the checks its
 * constructor makes before accepting it.
 */
module GuildSnapshot {
  import opened Wrappers
  import opened Records

  /** The profile (optional) and the ordered feeds, formats and subscribers. */
  datatype Snapshot = Snapshot(
    profile: Option<Profile>,
    feeds: seq<Feed>,
    formats: seq<Format>,
    subscribers: seq<Subscriber>)

  /** One error per violated invariant; the last three name the offending record. */
  datatype ValidationError =
    | MismatchedGuildIds
    | FeedDoesNotMatchProfile(feed: Id)
    | FormatMatchesNoFeed(format: Id)
    | SubscriberMatchesNoFeed(subscriber: Id)

  /** The message of the error the constructor throws. */
  function Message(e: ValidationError): string {
    match e
    case MismatchedGuildIds => "Mismatched guild IDs found for feeds"
    case FeedDoesNotMatchProfile(id) => "Feed " + id + " does not match profile"
    case FormatMatchesNoFeed(id) => "Format " + id + " does not match any given feeds"
    case SubscriberMatchesNoFeed(id) => "Subscriber " + id + " does not match any given feeds"
  }

  /** The index of the first element satisfying `p`, if any. */
  function FirstWhere<T>(s: seq<T>, p: T -> bool): (r: Option<nat>)
    ensures r.Some? ==> r.value < |s| && p(s[r.value]) && forall k :: 0 <= k < r.value ==> !p(s[k])
    ensures r.None? ==> forall k :: 0 <= k < |s| ==> !p(s[k])
  {
    if |s| == 0 then None
    else if p(s[0]) then Some(0)
    else match FirstWhere(s[1..], p)
      case None => None
      case Some(i) => Some(i + 1)
  }

  /** The distinct `guild` values among the feeds. */
  function FeedGuilds(feeds: seq<Feed>): set<Id> {
    set i | 0 <= i < |feeds| :: feeds[i].guild
  }

  /** The `_id` values of the feeds. */
  function FeedIds(feeds: seq<Feed>): set<Id> {
    set i | 0 <= i < |feeds| :: feeds[i].id
  }

  /**
   * The aggregate's `id`: the profile's id when there is a profile,
   * otherwise the guild of the feeds, otherwise undefined.
   */
  function ResolvedId(d: Snapshot): Option<Id> {
    if d.profile.Some? then Some(d.profile.value.id)
    else if |d.feeds| > 0 then Some(d.feeds[0].guild)
    else None
  }

  /**
   * The constructor's checks, in order: all feeds name one guild, the
   * feeds name the profile's guild, every format and then every subscriber
   * names a present feed. The first failed check decides the error; on
   * success the result is the aggregate's `id`.
   */
  function Validate(d: Snapshot): Result<Option<Id>, ValidationError> {
    if |FeedGuilds(d.feeds)| > 1 then Err(MismatchedGuildIds)
    else
      var stray :=
        if d.profile.Some? then FirstWhere(d.feeds, (f: Feed) => f.guild != d.profile.value.id)
        else None;
      if stray.Some? then Err(FeedDoesNotMatchProfile(d.feeds[stray.value].id))
      else
        var ids := FeedIds(d.feeds);
        var format := FirstWhere(d.formats, (f: Format) => f.feed !in ids);
        if format.Some? then Err(FormatMatchesNoFeed(d.formats[format.value].id))
        else
          var subscriber := FirstWhere(d.subscribers, (s: Subscriber) => s.feed !in ids);
          if subscriber.Some? then Err(SubscriberMatchesNoFeed(d.subscribers[subscriber.value].id))
          else Ok(ResolvedId(d))
  }

  /** True when there is neither a profile nor a feed (formats and subscribers do not count). */
  predicate IsEmpty(d: Snapshot) {
    d.profile.None? && |d.feeds| == 0
  }

  // ---- The invariants, stated independently of the checks ----

  ghost predicate OwnersAgree(feeds: seq<Feed>) {
    forall i, j :: 0 <= i < |feeds| && 0 <= j < |feeds| ==> feeds[i].guild == feeds[j].guild
  }

  ghost predicate FeedsMatchProfile(d: Snapshot) {
    d.profile.Some? ==> forall i :: 0 <= i < |d.feeds| ==> d.feeds[i].guild == d.profile.value.id
  }

  ghost predicate HasFeed(feeds: seq<Feed>, id: Id) {
    exists i :: 0 <= i < |feeds| && feeds[i].id == id
  }

  ghost predicate FormatsAttached(d: Snapshot) {
    forall i :: 0 <= i < |d.formats| ==> HasFeed(d.feeds, d.formats[i].feed)
  }

  ghost predicate SubscribersAttached(d: Snapshot) {
    forall i :: 0 <= i < |d.subscribers| ==> HasFeed(d.feeds, d.subscribers[i].feed)
  }

  ghost predicate Consistent(d: Snapshot) {
    OwnersAgree(d.feeds) && FeedsMatchProfile(d) && FormatsAttached(d) && SubscribersAttached(d)
  }

  // ---- Lemmas ----

  /** More than one distinct guild among the feeds exactly when two feeds disagree. */
  lemma FeedGuildsAgree(feeds: seq<Feed>)
    ensures |FeedGuilds(feeds)| > 1 <==> !OwnersAgree(feeds)
  {
    var s := FeedGuilds(feeds);
    if OwnersAgree(feeds) {
      if |feeds| == 0 {
        assert s == {};
      } else {
        assert s == {feeds[0].guild};
      }
    } else {
      var i, j :| 0 <= i < |feeds| && 0 <= j < |feeds| && feeds[i].guild != feeds[j].guild;
      assert feeds[i].guild in s;
      assert feeds[j].guild in s - {feeds[i].guild};
      assert |s - {feeds[i].guild}| == |s| - 1;
    }
  }

  lemma FeedIdsHasFeed(feeds: seq<Feed>, id: Id)
    ensures id in FeedIds(feeds) <==> HasFeed(feeds, id)
  {
    if HasFeed(feeds, id) {
      var i :| 0 <= i < |feeds| && feeds[i].id == id;
      assert feeds[i].id in FeedIds(feeds);
    }
  }

  /** Construction succeeds exactly on consistent data. */
  lemma ValidateAcceptsConsistent(d: Snapshot)
    ensures Validate(d).Ok? <==> Consistent(d)
  {
    FeedGuildsAgree(d.feeds);
    forall id { FeedIdsHasFeed(d.feeds, id); }
  }

  /** On success the `id` is the profile's id, else the guild every feed names, else undefined. */
  lemma ValidatedId(d: Snapshot)
    requires Validate(d).Ok?
    ensures d.profile.Some? ==> Validate(d).value == Some(d.profile.value.id)
    ensures d.profile.None? && |d.feeds| > 0 ==>
      Validate(d).value.Some? && forall i :: 0 <= i < |d.feeds| ==> d.feeds[i].guild == Validate(d).value.value
    ensures Validate(d).value.None? <==> IsEmpty(d)
  {
    FeedGuildsAgree(d.feeds);
  }

  /** The guild-mismatch error is raised exactly when two feeds name different guilds, profile or not. */
  lemma MismatchedGuildIdsIff(d: Snapshot)
    ensures Validate(d) == Err(MismatchedGuildIds) <==>
      exists i, j :: 0 <= i < |d.feeds| && 0 <= j < |d.feeds| && d.feeds[i].guild != d.feeds[j].guild
  {
    FeedGuildsAgree(d.feeds);
  }

  /**
   * With one guild among the feeds and a profile present, a feed naming
   * another guild makes construction fail, naming that feed; the feed named
   * is always a feed that does not match.
   */
  lemma FeedProfileMismatch(d: Snapshot)
    ensures Validate(d).Err? && Validate(d).error.FeedDoesNotMatchProfile? ==>
      OwnersAgree(d.feeds) && d.profile.Some? &&
      exists i :: 0 <= i < |d.feeds| && d.feeds[i].id == Validate(d).error.feed && d.feeds[i].guild != d.profile.value.id
    ensures OwnersAgree(d.feeds) && !FeedsMatchProfile(d) ==>
      Validate(d) == Err(FeedDoesNotMatchProfile(d.feeds[0].id))
  {
    FeedGuildsAgree(d.feeds);
  }

  /**
   * A format naming no present feed makes construction fail, naming the
   * first such format, once the feed checks have passed.
   */
  lemma OrphanFormat(d: Snapshot, name: Id)
    ensures Validate(d) == Err(FormatMatchesNoFeed(name)) <==>
      OwnersAgree(d.feeds) && FeedsMatchProfile(d) &&
      exists i :: 0 <= i < |d.formats| && d.formats[i].id == name && !HasFeed(d.feeds, d.formats[i].feed) &&
        forall k :: 0 <= k < i ==> HasFeed(d.feeds, d.formats[k].feed)
  {
    FeedGuildsAgree(d.feeds);
    forall id { FeedIdsHasFeed(d.feeds, id); }
    var ids := FeedIds(d.feeds);
    var format := FirstWhere(d.formats, (f: Format) => f.feed !in ids);
    if OwnersAgree(d.feeds) && FeedsMatchProfile(d) {
      if i :| 0 <= i < |d.formats| && d.formats[i].id == name && !HasFeed(d.feeds, d.formats[i].feed) &&
             (forall k :: 0 <= k < i ==> HasFeed(d.feeds, d.formats[k].feed)) {
        assert !HasFeed(d.feeds, d.formats[format.value].feed);
        assert format.value == i;
      }
    }
  }

  /**
   * A subscriber naming no present feed makes construction fail, naming the
   * first such subscriber, once the feed and format checks have passed.
   */
  lemma OrphanSubscriber(d: Snapshot, name: Id)
    ensures Validate(d) == Err(SubscriberMatchesNoFeed(name)) <==>
      OwnersAgree(d.feeds) && FeedsMatchProfile(d) && FormatsAttached(d) &&
      exists i :: 0 <= i < |d.subscribers| && d.subscribers[i].id == name && !HasFeed(d.feeds, d.subscribers[i].feed) &&
        forall k :: 0 <= k < i ==> HasFeed(d.feeds, d.subscribers[k].feed)
  {
    FeedGuildsAgree(d.feeds);
    forall id { FeedIdsHasFeed(d.feeds, id); }
    var ids := FeedIds(d.feeds);
    var subscriber := FirstWhere(d.subscribers, (s: Subscriber) => s.feed !in ids);
    if OwnersAgree(d.feeds) && FeedsMatchProfile(d) && FormatsAttached(d) {
      if i :| 0 <= i < |d.subscribers| && d.subscribers[i].id == name && !HasFeed(d.feeds, d.subscribers[i].feed) &&
             (forall k :: 0 <= k < i ==> HasFeed(d.feeds, d.subscribers[k].feed)) {
        assert !HasFeed(d.feeds, d.subscribers[subscriber.value].feed);
        assert subscriber.value == i;
      }
    }
  }

  /** Different errors have different messages, so a message names its record unambiguously. */
  lemma MessageDetermines(a: ValidationError, b: ValidationError)
    ensures Message(a) == Message(b) ==> a == b
  {
    if Message(a) == Message(b) {
      var m := Message(a);
      assert m[0] == Message(b)[0];
      match a
      case MismatchedGuildIds =>
        assert m[1] == 'i';
      case FeedDoesNotMatchProfile(x) =>
        assert m[1] == 'e';
        var y := b.feed;
        assert |x| == |y|;
        assert x == m[5..5 + |x|] == y;
      case FormatMatchesNoFeed(x) =>
        assert m[1] == 'o';
        var y := b.format;
        assert |x| == |y|;
        assert x == m[7..7 + |x|] == y;
      case SubscriberMatchesNoFeed(x) =>
        var y := b.subscriber;
        assert |x| == |y|;
        assert x == m[11..11 + |x|] == y;
    }
  }

  /**
   * An empty aggregate has nothing to restore: a valid aggregate without
   * profile and feeds has no formats and no subscribers either.
   */
  lemma EmptyValidHasNoRecords(d: Snapshot)
    requires Validate(d).Ok?
    ensures IsEmpty(d) <==> d.profile.None? && d.feeds == [] && d.formats == [] && d.subscribers == []
  {
    ValidateAcceptsConsistent(d);
    if IsEmpty(d) {
      assert forall id :: !HasFeed(d.feeds, id);
    }
  }

  /**
   * What static `get` loads always validates: a profile whose id is the
   * guild, feeds that all name the guild, and no formats or subscribers.
   * The resulting `id` is the guild unless nothing was found.
   */
  lemma LoadedSnapshotValid(profile: Option<Profile>, feeds: seq<Feed>, guild: Id)
    requires profile.Some? ==> profile.value.id == guild
    requires forall i :: 0 <= i < |feeds| ==> feeds[i].guild == guild
    ensures Validate(Snapshot(profile, feeds, [], [])) ==
      Ok(if profile.Some? || |feeds| > 0 then Some(guild) else None)
  {
    var d := Snapshot(profile, feeds, [], []);
    ValidateAcceptsConsistent(d);
    ValidatedId(d);
  }
}
