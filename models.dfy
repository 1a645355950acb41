/** The records the parsers produce (google_takeout_parser/models.py). Every
    record has a `Key()`, the identity the merge stage uses to drop duplicate
    events found in overlapping exports. */
module Models {
  import opened Wrappers
  import opened Strings

  /** An instant, in whole microseconds since the Unix epoch. */
  type Instant = int

  const MicrosPerSecond: int := 1000000

  /** `int(dt.timestamp())`: the instant in whole seconds, truncated toward
      zero as Python's `int()` truncates a float. */
  function Secs(t: Instant): (r: int)
    ensures 0 <= t ==> 0 <= r && r * MicrosPerSecond <= t < r * MicrosPerSecond + MicrosPerSecond
    ensures t < 0 ==> r <= 0 && r * MicrosPerSecond - MicrosPerSecond < t <= r * MicrosPerSecond
  {
    if t >= 0 then t / MicrosPerSecond else -((-t) / MicrosPerSecond)
  }

  /** Instants that differ only below one second, away from the epoch in
      the same direction, have the same whole-second value `s`. */
  lemma SubSecondOffsets(s: int, d1: int, d2: int)
    requires 0 <= d1 < MicrosPerSecond && 0 <= d2 < MicrosPerSecond
    ensures 0 <= s ==> Secs(s * MicrosPerSecond + d1) == Secs(s * MicrosPerSecond + d2) == s
    ensures s <= 0 ==> Secs(s * MicrosPerSecond - d1) == Secs(s * MicrosPerSecond - d2) == s
  {
    if 0 <= s {
      SecsUnique(s * MicrosPerSecond + d1, s);
      SecsUnique(s * MicrosPerSecond + d2, s);
    }
    if s <= 0 {
      SecsUnique(s * MicrosPerSecond - d1, s);
      SecsUnique(s * MicrosPerSecond - d2, s);
    }
  }

  /** The window in `Secs`'s contract has one whole second in it. */
  lemma SecsUnique(t: Instant, s: int)
    requires 0 <= t ==> 0 <= s && s * MicrosPerSecond <= t < s * MicrosPerSecond + MicrosPerSecond
    requires t < 0 ==> s <= 0 && s * MicrosPerSecond - MicrosPerSecond < t <= s * MicrosPerSecond
    ensures Secs(t) == s
  {
  }

  /** An IEEE-754 double, kept as its bit pattern: the model does no
      arithmetic on coordinates. */
  datatype Float = Float(bits: bv64)

  /** `MetaData = Optional[str]`. */
  type MetaData = Option<string>

  /** `(name, url, source, sourceUrl)`. */
  type LocationInfo = (MetaData, MetaData, MetaData, MetaData)

  /** `(name, url)`. */
  type Subtitles = (string, MetaData)

  datatype Activity = Activity(
    header: string,
    title: string,
    time: Instant,
    description: Option<string>,
    titleUrl: Option<string>,
    subtitles: seq<Subtitles>,
    details: seq<string>,
    locationInfos: seq<LocationInfo>,
    products: seq<string>)
  {
    /** The products, sorted and joined by ", ". */
    function ProductsDesc(): (r: string)
      ensures |products| == 0 ==> r == ""
      ensures |products| == 1 ==> r == products[0]
      ensures exists s :: Sorted(s) && multiset(s) == multiset(products) && r == Join(", ", s)
    {
      var sorted := Sort(products);
      assert Sorted(sorted) && multiset(sorted) == multiset(products);
      assert |products| == 1 ==> multiset(sorted) == multiset{products[0]} && sorted == [sorted[0]];
      Join(", ", sorted)
    }

    function Key(): (string, string, int) {
      (header, title, Secs(time))
    }
  }

  datatype YoutubeComment = YoutubeComment(content: string, dt: Instant, urls: seq<string>) {
    function Key(): int { Secs(dt) }
  }

  datatype LikedYoutubeVideo = LikedYoutubeVideo(title: string, desc: string, link: string, dt: Instant) {
    function Key(): int { Secs(dt) }
  }

  datatype PlayStoreAppInstall = PlayStoreAppInstall(title: string, dt: Instant, deviceName: Option<string>) {
    function Key(): int { Secs(dt) }
  }

  datatype Location = Location(lng: Float, lat: Float, accuracy: Option<int>, dt: Instant) {
    function Key(): (Float, Float, Option<int>, int) { (lng, lat, accuracy, Secs(dt)) }
  }

  datatype ChromeHistory = ChromeHistory(title: string, url: string, dt: Instant) {
    function Key(): (string, int) { (url, Secs(dt)) }
  }

  /** A party of a conversation: the `href` of its `a.tel` link and the
      link's text. Equality compares both fields, as dataclass equality does. */
  datatype Contact = Contact(tel: string, name: string) {
    function Key(): string { tel }

    /** `str(contact)`: the name, or the tel when there is no name. */
    function ToString(): (r: string)
      ensures |name| > 0 ==> r == name
      ensures |name| == 0 ==> r == tel
      ensures r == "" <==> name == "" && tel == ""
    {
      if |name| == 0 then tel else name
    }
  }

  /** Two contacts with one tel and different names share a key but are not
      equal, so roster membership and the counterpart check tell them apart. */
  lemma ContactKeyVersusEquality(a: Contact, b: Contact)
    requires a.tel == b.tel && a.name != b.name
    ensures a.Key() == b.Key() && a != b
  {
  }

  /** The attachment body of a message: image sources in document order and
      an optional caption. */
  datatype MmsImage = MmsImage(sources: seq<string>, message: Option<string>) {
    /** `"|".join(sources)`. */
    function Key(): (r: string)
      ensures r == Join("|", sources)
      ensures |sources| == 0 ==> r == ""
      ensures |sources| == 1 ==> r == sources[0]
      ensures |sources| >= 1 && (forall k :: 0 <= k < |sources| ==> '|' !in sources[k]) ==>
                Split(r, '|') == sources
    {
      var r := Join("|", sources);
      if |sources| >= 1 && (forall k :: 0 <= k < |sources| ==> '|' !in sources[k]) then
        SplitJoin(sources, '|');
        r
      else
        r
    }

    /** `str(image)`: the key, followed by ": " and the caption when the
        caption is present and not empty. */
    function ToString(): (r: string)
      ensures Key() <= r
      ensures message.Some? && message.value != "" ==> r[|Key()|..] == ": " + message.value
      ensures message.None? || message.value == "" ==> r == Key()
    {
      if message.Some? && message.value != "" then Key() + ": " + message.value
      else Key()
    }
  }

  /** The body of a message: nothing, a plain text, or images with an
      optional caption (`Union[str, MmsImage]`, which may also be `None`). */
  datatype Body = NoText | Text(text: string) | Image(image: MmsImage)

  datatype Message = Message(dt: Instant, contact: Contact, message: Body) {
    function Key(): (Instant, Contact) { (dt, contact) }
  }

  /** One message of a thread, with the contacts the thread is with. */
  datatype Conversation = Conversation(contacts: seq<Contact>, message: Message) {
    function Key(): seq<Contact> { contacts }
  }

  datatype Jpeg = Jpeg(path: string) {
    function Key(): string { path }
  }

  /** `DEFAULT_MODEL_TYPE`: the closed union of the ten record kinds. */
  datatype Event =
    | ActivityEvent(activity: Activity)
    | LikedYoutubeVideoEvent(liked: LikedYoutubeVideo)
    | PlayStoreAppInstallEvent(install: PlayStoreAppInstall)
    | LocationEvent(location: Location)
    | ChromeHistoryEvent(visit: ChromeHistory)
    | YoutubeCommentEvent(comment: YoutubeComment)
    | ContactEvent(contact: Contact)
    | MessageEvent(msg: Message)
    | ConversationEvent(conversation: Conversation)
    | JpegEvent(jpeg: Jpeg)

  /** The value of a record's `key` property, with one shape per Python key type. */
  datatype Key =
    | HeaderTitleSecs(header: string, title: string, secs: int)
    | WholeSecs(secs: int)
    | CoordinatesSecs(lng: Float, lat: Float, accuracy: Option<int>, secs: int)
    | UrlSecs(url: string, secs: int)
    | Str(s: string)
    | InstantContact(dt: Instant, contact: Contact)
    | Contacts(contacts: seq<Contact>)
    | PathKey(path: string)

  function EventKey(e: Event): Key {
    match e
    case ActivityEvent(a) => var (h, t, s) := a.Key(); HeaderTitleSecs(h, t, s)
    case LikedYoutubeVideoEvent(v) => WholeSecs(v.Key())
    case PlayStoreAppInstallEvent(i) => WholeSecs(i.Key())
    case LocationEvent(l) => var (lng, lat, acc, s) := l.Key(); CoordinatesSecs(lng, lat, acc, s)
    case ChromeHistoryEvent(c) => var (u, s) := c.Key(); UrlSecs(u, s)
    case YoutubeCommentEvent(c) => WholeSecs(c.Key())
    case ContactEvent(c) => Str(c.Key())
    case MessageEvent(m) => var (dt, c) := m.Key(); InstantContact(dt, c)
    case ConversationEvent(c) => Contacts(c.Key())
    case JpegEvent(j) => PathKey(j.Key())
  }

  /** The instant an event carries, for the kinds that carry one. */
  function Time(e: Event): Option<Instant> {
    match e
    case ActivityEvent(a) => Some(a.time)
    case LikedYoutubeVideoEvent(v) => Some(v.dt)
    case PlayStoreAppInstallEvent(i) => Some(i.dt)
    case LocationEvent(l) => Some(l.dt)
    case ChromeHistoryEvent(c) => Some(c.dt)
    case YoutubeCommentEvent(c) => Some(c.dt)
    case MessageEvent(m) => Some(m.dt)
    case _ => None
  }

  /** The same event with its instant replaced. */
  function WithTime(e: Event, t: Instant): (r: Event)
    requires Time(e).Some?
    ensures Time(r) == Some(t)
  {
    match e
    case ActivityEvent(a) => ActivityEvent(a.(time := t))
    case LikedYoutubeVideoEvent(v) => LikedYoutubeVideoEvent(v.(dt := t))
    case PlayStoreAppInstallEvent(i) => PlayStoreAppInstallEvent(i.(dt := t))
    case LocationEvent(l) => LocationEvent(l.(dt := t))
    case ChromeHistoryEvent(c) => ChromeHistoryEvent(c.(dt := t))
    case YoutubeCommentEvent(c) => YoutubeCommentEvent(c.(dt := t))
    case MessageEvent(m) => MessageEvent(m.(dt := t))
  }

  /** Replacing the instant changes nothing else: putting the old instant
      back gives the event that was there. */
  lemma WithTimeOnlyTime(e: Event, t: Instant)
    requires Time(e).Some?
    ensures WithTime(WithTime(e, t), Time(e).value) == e
  {
  }

  /** Moving an event to another instant keeps its key exactly when the two
      instants fall in the same whole second, except for a message, whose key
      holds the full instant. */
  lemma KeyTimeGranularity(e: Event, t: Instant)
    requires Time(e).Some?
    ensures !e.MessageEvent? ==> (EventKey(WithTime(e, t)) == EventKey(e) <==> Secs(t) == Secs(Time(e).value))
    ensures e.MessageEvent? ==> (EventKey(WithTime(e, t)) == EventKey(e) <==> t == e.msg.dt)
  {
  }

  /** The products description does not depend on the order of the products. */
  lemma ProductsDescOrderIndependent(a: Activity, b: Activity)
    requires multiset(a.products) == multiset(b.products)
    ensures a.ProductsDesc() == b.ProductsDesc()
  {
    SortOrderIndependent(a.products, b.products);
  }
}
