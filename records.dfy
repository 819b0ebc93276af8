/**
 * The four record kinds of one guild's data, reduced to their identity and
 * reference fields: a profile is identified by its guild, a feed names the
 * guild it belongs to, and formats and subscribers name the feed they hang on.
 */
module Records {
  type Id = string

  datatype Profile = Profile(id: Id)
  datatype Feed = Feed(id: Id, guild: Id)
  datatype Format = Format(id: Id, feed: Id)
  datatype Subscriber = Subscriber(id: Id, feed: Id)

  /** The four record classes, each with its own collection in the store. */
  datatype Kind = ProfileKind | FeedKind | FormatKind | SubscriberKind

  /** A record's address in the store: its kind and its `_id`. */
  datatype Key = Key(kind: Kind, id: Id)

  datatype Record =
    | ProfileRecord(profile: Profile)
    | FeedRecord(feed: Feed)
    | FormatRecord(format: Format)
    | SubscriberRecord(subscriber: Subscriber)

  function KeyOf(r: Record): Key {
    match r
    case ProfileRecord(p) => Key(ProfileKind, p.id)
    case FeedRecord(f) => Key(FeedKind, f.id)
    case FormatRecord(f) => Key(FormatKind, f.id)
    case SubscriberRecord(s) => Key(SubscriberKind, s.id)
  }
}
