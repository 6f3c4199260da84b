/** The RSS 2.0 feed schema of src/feed.rs: one decode function per entity, reading the fields
    that entity declares from an element of the parsed document. Scalars the schema marks
    `Option` decode to `None` when absent; the others are required. Repeated elements are
    collected in document order and default to the empty sequence. Fields the schema does not
    name are ignored. */
module Feed {
  import opened Wrappers
  import opened Digits
  import opened Xml
  import Rfc2822

  datatype Feed = Feed(channel: Channel)

  datatype Channel = Channel(
    title: string,
    link: string,
    description: Option<string>,
    language: Option<string>,
    items: seq<Item>)

  datatype Item = Item(
    title: Option<string>,
    link: Option<string>,
    description: Option<string>,
    author: Option<string>,
    enclosure: Option<Enclosure>,
    guid: Option<Guid>,
    pubDate: Option<PubDate>,
    content: Option<string>,
    media: seq<MediaContent>)

  datatype Guid = Guid(value: string, isPermaLink: bool)

  datatype Enclosure = Enclosure(url: string, length: u32, mimeType: string)

  datatype MediaContent = MediaContent(url: Option<string>, mimeType: Option<string>, medium: Option<ContentMedium>)

  datatype ContentMedium = Image | Audio | Video | Document | Executable

  /** A publication date: an offset date-time read and written in the RFC 2822 format. */
  datatype PubDate = PubDate(value: Rfc2822.OffsetDateTime)

  /** Why a well-formed document does not fit the schema. */
  datatype DecodeError =
    | MissingField(field: string)
    | InvalidBool(field: string, text: string)
    | InvalidNumber(field: string, text: string)
    | UnknownVariant(field: string, text: string)
    | InvalidDate(field: string, cause: Rfc2822.DateError)

  // ---------------------------------------------------------------- scalars

  /** The lower-case name each medium is written with. */
  function MediumName(m: ContentMedium): string {
    match m
    case Image => "image"
    case Audio => "audio"
    case Video => "video"
    case Document() => "document"
    case Executable => "executable"
  }

  /** Case-sensitive match against the five medium names; there is no fallback variant. */
  function ParseMedium(s: string): (r: Option<ContentMedium>)
    ensures r.Some? ==> MediumName(r.value) == s
    ensures r.None? ==> forall m: ContentMedium :: MediumName(m) != s
  {
    if s == "image" then Some(Image)
    else if s == "audio" then Some(Audio)
    else if s == "video" then Some(Video)
    else if s == "document" then Some(ContentMedium.Document)
    else if s == "executable" then Some(Executable)
    else None
  }

  /** The text of a boolean, as Rust's `bool::from_str` reads it. */
  function ParseBool(s: string): (r: Option<bool>)
    ensures r.Some? <==> s == "true" || s == "false"
    ensures r.Some? ==> (r.value <==> s == "true")
  {
    if s == "true" then Some(true) else if s == "false" then Some(false) else None
  }

  /** `PubDate::deserialize`: the text must be an RFC 2822 date-time. */
  function DeserializePubDate(text: string): (r: Result<PubDate, Rfc2822.DateError>)
    ensures r.Success? <==> Rfc2822.Parse(text).Success?
    ensures r.Failure? ==> r.error == Rfc2822.Parse(text).error
    ensures r.Success? ==> r.value == PubDate(Rfc2822.Parse(text).value)
    ensures r.Success? ==> r.value.value.year >= 1900
  {
    var d :- Rfc2822.Parse(text);
    Success(PubDate(d))
  }

  /** `PubDate::serialize`: the RFC 2822 rendering, which fails for a year before 1900. */
  function SerializePubDate(p: PubDate): (r: Result<string, Rfc2822.DateError>)
    ensures r.Success? <==> p.value.year >= 1900
  {
    Rfc2822.Format(p.value)
  }

  /** `From<PubDate> for OffsetDateTime`: unwraps the date-time without changing it. */
  function IntoOffsetDateTime(p: PubDate): (t: Rfc2822.OffsetDateTime)
    ensures PubDate(t) == p
  {
    p.value
  }

  // ---------------------------------------------------------------- fields

  /** A required scalar field. */
  function Required(e: Element, name: string): (r: Result<string, DecodeError>)
    ensures r.Success? <==> Field(e, name).Some?
    ensures r.Success? ==> r.value == Field(e, name).value
    ensures r.Failure? ==> r.error == MissingField(name)
  {
    match Field(e, name)
    case Some(v) => Success(v)
    case None => Failure(MissingField(name))
  }

  /** An optional struct-valued field: absent decodes to `None`, present must decode. */
  function Optional<T>(child: Option<Element>, decode: Element -> Result<T, DecodeError>): (r: Result<Option<T>, DecodeError>)
    ensures child.None? ==> r == Success(None)
  {
    match child
    case None => Success(None)
    case Some(c) =>
      var v :- decode(c);
      Success(Some(v))
  }

  /** A present optional struct field decodes exactly when its element does, to that value,
      and otherwise fails with that element's error. */
  lemma OptionalPresent<T>(c: Element, decode: Element -> Result<T, DecodeError>)
    ensures Optional(Some(c), decode).Success? <==> decode(c).Success?
    ensures decode(c).Success? ==> Optional(Some(c), decode).value == Some(decode(c).value)
    ensures decode(c).Failure? ==> Optional(Some(c), decode).error == decode(c).error
  {
  }

  /** A repeated field: every element decodes, in order; the first failure fails the whole. */
  function DecodeAll<T>(es: seq<Element>, decode: Element -> Result<T, DecodeError>): (r: Result<seq<T>, DecodeError>)
    ensures r.Success? <==> forall i :: 0 <= i < |es| ==> decode(es[i]).Success?
    ensures r.Success? ==> |r.value| == |es| && forall i :: 0 <= i < |es| ==> decode(es[i]) == Success(r.value[i])
  {
    if es == [] then Success([])
    else
      var head :- decode(es[0]);
      var tail :- DecodeAll(es[1..], decode);
      Success([head] + tail)
  }

  // ---------------------------------------------------------------- entities

  /** `Guid`: the element's text and its `isPermaLink` flag are both required. */
  function DecodeGuid(e: Element): (r: Result<Guid, DecodeError>)
    ensures r.Success? <==>
      e.text.Some? && Field(e, "isPermaLink").Some? && ParseBool(Field(e, "isPermaLink").value).Some?
    ensures r.Success? ==> r.value == Guid(e.text.value, Field(e, "isPermaLink").value == "true")
  {
    var value :- match e.text
      case Some(t) => Success(t)
      case None => Failure(MissingField("$text"));
    var flag :- Required(e, "isPermaLink");
    match ParseBool(flag)
    case Some(b) => Success(Guid(value, b))
    case None => Failure(InvalidBool("isPermaLink", flag))
  }

  /** `Enclosure`: `url`, `length` and `mime_type` are required, and `length` must be a `u32`. */
  function DecodeEnclosure(e: Element): (r: Result<Enclosure, DecodeError>)
    ensures r.Success? <==>
      && Field(e, "url").Some? && Field(e, "length").Some? && Field(e, "mime_type").Some?
      && ParseU32(Field(e, "length").value).Some?
    ensures r.Success? ==>
      r.value == Enclosure(Field(e, "url").value, ParseU32(Field(e, "length").value).value, Field(e, "mime_type").value)
  {
    var url :- Required(e, "url");
    var length :- Required(e, "length");
    var n :- match ParseU32(length)
      case Some(n) => Success(n)
      case None => Failure(InvalidNumber("length", length));
    var mimeType :- Required(e, "mime_type");
    Success(Enclosure(url, n, mimeType))
  }

  /** `MediaContent`: every field is optional; a `medium` that is present must be one of the five names. */
  function DecodeMedia(e: Element): (r: Result<MediaContent, DecodeError>)
    ensures r.Success? <==> Field(e, "medium").None? || ParseMedium(Field(e, "medium").value).Some?
    ensures r.Success? ==> r.value.url == Field(e, "url") && r.value.mimeType == Field(e, "mime_type")
    ensures r.Success? ==>
      r.value.medium == if Field(e, "medium").None? then None else ParseMedium(Field(e, "medium").value)
  {
    var medium :- match Field(e, "medium")
      case None => Success(None)
      case Some(s) =>
        match ParseMedium(s)
        case Some(m) => Success(Some(m))
        case None => Failure(UnknownVariant("medium", s));
    Success(MediaContent(Field(e, "url"), Field(e, "mime_type"), medium))
  }

  /** The `pubDate` field of an item: absent is `None`, present must parse. */
  function DecodePubDateField(e: Element): (r: Result<Option<PubDate>, DecodeError>)
    ensures Field(e, "pubDate").None? ==> r == Success(None)
    ensures Field(e, "pubDate").Some? ==>
      (r.Success? <==> DeserializePubDate(Field(e, "pubDate").value).Success?)
    ensures Field(e, "pubDate").Some? && r.Success? ==>
      r.value == Some(DeserializePubDate(Field(e, "pubDate").value).value)
    ensures Field(e, "pubDate").Some? && r.Failure? ==>
      r.error == InvalidDate("pubDate", DeserializePubDate(Field(e, "pubDate").value).error)
  {
    match Field(e, "pubDate")
    case None => Success(None)
    case Some(t) =>
      match DeserializePubDate(t)
      case Success(p) => Success(Some(p))
      case Failure(cause) => Failure(InvalidDate("pubDate", cause))
  }

  /** The namespaced `content` children of an item: its media contents. */
  function MediaElements(e: Element): seq<Element> {
    Select(e.children, Namespaced("content"))
  }

  /** `Item`: every scalar is optional and `media` collects the namespaced `content` children. */
  function DecodeItem(e: Element): (r: Result<Item, DecodeError>)
    ensures r.Success? <==>
      && (Child(e, "enclosure").None? || DecodeEnclosure(Child(e, "enclosure").value).Success?)
      && (Child(e, "guid").None? || DecodeGuid(Child(e, "guid").value).Success?)
      && DecodePubDateField(e).Success?
      && forall i :: 0 <= i < |MediaElements(e)| ==> DecodeMedia(MediaElements(e)[i]).Success?
  {
    var enclosure :- Optional(Child(e, "enclosure"), DecodeEnclosure);
    var guid :- Optional(Child(e, "guid"), DecodeGuid);
    var pubDate :- DecodePubDateField(e);
    var media :- DecodeAll(MediaElements(e), DecodeMedia);
    Success(Item(
      Field(e, "title"), Field(e, "link"), Field(e, "description"), Field(e, "author"),
      enclosure, guid, pubDate, Field(e, "content"), media))
  }

  /** The unqualified names an item reads its scalar and struct fields from. */
  const ITEM_FIELDS: seq<string> := ["title", "link", "description", "author", "enclosure", "guid", "pubDate", "content"]

  /** The unqualified names a channel reads its scalar fields from; its items are `item`. */
  const CHANNEL_FIELDS: seq<string> := ["title", "link", "description", "language"]

  /** The `item` children of a channel. */
  function ItemElements(e: Element): seq<Element> {
    Select(e.children, Plain("item"))
  }

  /** `Channel`: `title` and `link` are required, `description` and `language` optional, and
      `items` collects the `item` children. */
  function DecodeChannel(e: Element): (r: Result<Channel, DecodeError>)
    ensures r.Success? <==>
      && Field(e, "title").Some? && Field(e, "link").Some?
      && forall i :: 0 <= i < |ItemElements(e)| ==> DecodeItem(ItemElements(e)[i]).Success?
  {
    var title :- Required(e, "title");
    var link :- Required(e, "link");
    var items :- DecodeAll(ItemElements(e), DecodeItem);
    Success(Channel(title, link, Field(e, "description"), Field(e, "language"), items))
  }

  /** `Feed`: the document's root must hold a `channel` child. */
  function DecodeFeed(doc: Document): (r: Result<Feed, DecodeError>)
    ensures Child(doc.root, "channel").None? ==> r == Failure(MissingField("channel"))
    ensures r.Success? <==>
      Child(doc.root, "channel").Some? && DecodeChannel(Child(doc.root, "channel").value).Success?
    ensures r.Success? ==> r.value.channel == DecodeChannel(Child(doc.root, "channel").value).value
  {
    var e :- match Child(doc.root, "channel")
      case Some(c) => Success(c)
      case None => Failure(MissingField("channel"));
    var channel :- DecodeChannel(e);
    Success(Feed(channel))
  }

  // ---------------------------------------------------------------- properties

  /** `title` and `link` are required: without either the channel does not decode, and the
      error names the first one missing. */
  lemma ChannelRequiresTitleAndLink(e: Element)
    ensures Field(e, "title").None? ==> DecodeChannel(e) == Failure(MissingField("title"))
    ensures Field(e, "title").Some? && Field(e, "link").None? ==> DecodeChannel(e) == Failure(MissingField("link"))
  {
  }

  /** A decoded channel holds exactly the text given for each scalar; an absent `description`
      or `language` is `None`, never an empty string. */
  lemma ChannelScalars(e: Element)
    requires DecodeChannel(e).Success?
    ensures DecodeChannel(e).value.title == Field(e, "title").value
    ensures DecodeChannel(e).value.link == Field(e, "link").value
    ensures DecodeChannel(e).value.description == Field(e, "description")
    ensures DecodeChannel(e).value.language == Field(e, "language")
  {
  }

  /** `items` lists the `item` children in document order, one decoded item per element. */
  lemma ChannelItemsInDocumentOrder(e: Element)
    requires DecodeChannel(e).Success?
    ensures |DecodeChannel(e).value.items| == |ItemElements(e)|
    ensures forall i :: 0 <= i < |ItemElements(e)| ==>
      DecodeItem(ItemElements(e)[i]) == Success(DecodeChannel(e).value.items[i])
  {
  }

  /** With no `item` children the channel still decodes when its required fields are there,
      and its item list is empty. */
  lemma ChannelWithoutItems(e: Element)
    requires forall c :: c in e.children ==> c.name != QName(None, "item")
    ensures DecodeChannel(e).Success? <==> Field(e, "title").Some? && Field(e, "link").Some?
    ensures DecodeChannel(e).Success? ==> DecodeChannel(e).value.items == []
  {
    SelectNone(e.children, Plain("item"));
  }

  /** Decoding is all-or-nothing: one `item` that does not fit the schema fails the channel. */
  lemma BadItemFailsChannel(e: Element, i: nat)
    requires i < |ItemElements(e)| && DecodeItem(ItemElements(e)[i]).Failure?
    ensures DecodeChannel(e).Failure?
  {
  }

  /** An item with no fields at all decodes, every scalar to `None` and `media` to the empty
      sequence. */
  lemma BareItem(name: QName, text: Option<string>)
    ensures DecodeItem(Element(name, map[], text, [])) ==
      Success(Item(None, None, None, None, None, None, None, None, []))
  {
    var e := Element(name, map[], text, []);
    SelectNone(e.children, Namespaced("content"));
  }

  /** A decoded item holds exactly what its element gives for each field: the text of each
      scalar, the decoding of each struct child and of the date, and `None` for each one absent. */
  lemma ItemScalars(e: Element)
    requires DecodeItem(e).Success?
    ensures DecodeItem(e).value.title == Field(e, "title")
    ensures DecodeItem(e).value.link == Field(e, "link")
    ensures DecodeItem(e).value.description == Field(e, "description")
    ensures DecodeItem(e).value.author == Field(e, "author")
    ensures DecodeItem(e).value.content == Field(e, "content")
    ensures DecodeItem(e).value.enclosure ==
      if Child(e, "enclosure").None? then None else Some(DecodeEnclosure(Child(e, "enclosure").value).value)
    ensures DecodeItem(e).value.guid ==
      if Child(e, "guid").None? then None else Some(DecodeGuid(Child(e, "guid").value).value)
    ensures DecodeItem(e).value.pubDate ==
      if Field(e, "pubDate").None? then None else Some(DeserializePubDate(Field(e, "pubDate").value).value)
  {
    var enclosure := Optional(Child(e, "enclosure"), DecodeEnclosure);
    var guid := Optional(Child(e, "guid"), DecodeGuid);
    var pubDate := DecodePubDateField(e);
    var media := DecodeAll(MediaElements(e), DecodeMedia);
    assert DecodeItem(e).value == Item(
      Field(e, "title"), Field(e, "link"), Field(e, "description"), Field(e, "author"),
      enclosure.value, guid.value, pubDate.value, Field(e, "content"), media.value);
  }

  /** `media` lists the namespaced `content` children in document order. */
  lemma ItemMediaInDocumentOrder(e: Element)
    requires DecodeItem(e).Success?
    ensures |DecodeItem(e).value.media| == |MediaElements(e)|
    ensures forall i :: 0 <= i < |MediaElements(e)| ==>
      DecodeMedia(MediaElements(e)[i]) == Success(DecodeItem(e).value.media[i])
  {
  }

  /** A `guid` needs its `isPermaLink` flag: a missing flag is an error, never a default, and
      any text but "true" or "false" is an invalid boolean. */
  lemma GuidFlagErrors(e: Element)
    requires e.text.Some?
    ensures Field(e, "isPermaLink").None? ==> DecodeGuid(e) == Failure(MissingField("isPermaLink"))
    ensures Field(e, "isPermaLink").Some? && ParseBool(Field(e, "isPermaLink").value).None? ==>
      DecodeGuid(e) == Failure(InvalidBool("isPermaLink", Field(e, "isPermaLink").value))
  {
  }

  /** The enclosure's fields are checked in declaration order, and the first problem is the
      error: a missing `url`, a missing `length`, a `length` that is not a `u32`, a missing
      `mime_type`. */
  lemma EnclosureErrors(e: Element)
    ensures Field(e, "url").None? ==> DecodeEnclosure(e) == Failure(MissingField("url"))
    ensures Field(e, "url").Some? && Field(e, "length").None? ==>
      DecodeEnclosure(e) == Failure(MissingField("length"))
    ensures Field(e, "url").Some? && Field(e, "length").Some? && ParseU32(Field(e, "length").value).None? ==>
      DecodeEnclosure(e) == Failure(InvalidNumber("length", Field(e, "length").value))
    ensures
      && Field(e, "url").Some? && Field(e, "length").Some? && ParseU32(Field(e, "length").value).Some?
      && Field(e, "mime_type").None?
      ==> DecodeEnclosure(e) == Failure(MissingField("mime_type"))
  {
  }

  /** A `length` one past the `u32` range fails the enclosure. */
  lemma EnclosureLengthOverflow(url: string, mimeType: string)
    ensures DecodeEnclosure(Element(QName(None, "enclosure"),
      map["url" := url, "length" := Decimal(U32_LIMIT), "mime_type" := mimeType], None, [])).Failure?
  {
    ParseU32Decimal(U32_LIMIT);
  }

  /** The schema reads the MIME type from the literal name `mime_type`, so an enclosure written
      with RSS 2.0's `type` attribute alone does not decode. */
  lemma EnclosureTypeAttributeNotRead(url: string, length: u32, mimeType: string)
    ensures DecodeEnclosure(Element(QName(None, "enclosure"),
      map["url" := url, "length" := Decimal(length), "type" := mimeType], None, [])) ==
      Failure(MissingField("mime_type"))
  {
    ParseU32Decimal(length);
    SelectNone([], Plain("mime_type"));
  }

  /** Every medium name reads back as its medium, and distinct media have distinct names. */
  lemma MediumNamesRoundTrip(m: ContentMedium)
    ensures ParseMedium(MediumName(m)) == Some(m)
    ensures forall m' :: MediumName(m') == MediumName(m) ==> m' == m
  {
  }

  /** A `medium` outside the five lower-case names, such as "IMAGE", fails the media content;
      "image" gives `Image`. */
  lemma MediumIsCaseSensitive(name: QName)
    ensures DecodeMedia(Element(name, map["medium" := "IMAGE"], None, [])) ==
      Failure(UnknownVariant("medium", "IMAGE"))
    ensures DecodeMedia(Element(name, map["medium" := "image"], None, [])) ==
      Success(MediaContent(None, None, Some(Image)))
  {
    assert ParseMedium("IMAGE") == None by {
      assert "IMAGE"[0] != "image"[0];
    }
  }

  /** What `PubDate::serialize` writes, `PubDate::deserialize` reads back unchanged; and the
      date-time `From<PubDate>` hands out is the one that was parsed. */
  lemma PubDateRoundTrip(p: PubDate)
    requires p.value.year >= 1900
    ensures SerializePubDate(p).Success?
    ensures DeserializePubDate(SerializePubDate(p).value) == Success(p)
    ensures IntoOffsetDateTime(DeserializePubDate(SerializePubDate(p).value).value) == p.value
  {
    Rfc2822.ParseFormat(p.value);
  }

  /** Two elements on which every lookup of the item schema agrees. */
  predicate SameItemLookups(e1: Element, e2: Element) {
    && Field(e1, "title") == Field(e2, "title")
    && Field(e1, "link") == Field(e2, "link")
    && Field(e1, "description") == Field(e2, "description")
    && Field(e1, "author") == Field(e2, "author")
    && Child(e1, "enclosure") == Child(e2, "enclosure")
    && Child(e1, "guid") == Child(e2, "guid")
    && Field(e1, "pubDate") == Field(e2, "pubDate")
    && Field(e1, "content") == Field(e2, "content")
    && MediaElements(e1) == MediaElements(e2)
  }

  /** An item is decided by the schema's lookups alone. */
  lemma ItemFromLookups(e1: Element, e2: Element)
    requires SameItemLookups(e1, e2)
    ensures DecodeItem(e1) == DecodeItem(e2)
  {
    assert Optional(Child(e1, "enclosure"), DecodeEnclosure) == Optional(Child(e2, "enclosure"), DecodeEnclosure);
    assert Optional(Child(e1, "guid"), DecodeGuid) == Optional(Child(e2, "guid"), DecodeGuid);
    assert DecodePubDateField(e1) == DecodePubDateField(e2);
    assert DecodeAll(MediaElements(e1), DecodeMedia) == DecodeAll(MediaElements(e2), DecodeMedia);
  }

  /** A child element the item schema does not name, inserted anywhere, changes nothing. */
  lemma ItemIgnoresUnknownChild(e: Element, i: nat, x: Element)
    requires i <= |e.children|
    requires x.name.ns.None? ==> x.name.local !in ITEM_FIELDS
    requires x.name.ns.Some? ==> x.name.local != "content"
    ensures DecodeItem(WithChild(e, i, x)) == DecodeItem(e)
  {
    var e' := WithChild(e, i, x);
    LookupSkipsChild(e, i, x, "title");
    LookupSkipsChild(e, i, x, "link");
    LookupSkipsChild(e, i, x, "description");
    LookupSkipsChild(e, i, x, "author");
    LookupSkipsChild(e, i, x, "enclosure");
    LookupSkipsChild(e, i, x, "guid");
    LookupSkipsChild(e, i, x, "pubDate");
    LookupSkipsChild(e, i, x, "content");
    SelectSkips(e, i, x, Namespaced("content"));
    assert SameItemLookups(e', e);
    ItemFromLookups(e', e);
  }

  /** An attribute the item schema does not name changes nothing. */
  lemma ItemIgnoresUnknownAttribute(e: Element, k: string, v: string)
    requires k !in ITEM_FIELDS
    ensures DecodeItem(e.(attrs := e.attrs[k := v])) == DecodeItem(e)
  {
    var e' := e.(attrs := e.attrs[k := v]);
    assert SameItemLookups(e', e);
    ItemFromLookups(e', e);
  }

  /** A child element the channel schema does not name, inserted anywhere, changes nothing. */
  lemma ChannelIgnoresUnknownChild(e: Element, i: nat, x: Element)
    requires i <= |e.children|
    requires x.name.ns.None? ==> x.name.local !in CHANNEL_FIELDS + ["item"]
    ensures DecodeChannel(WithChild(e, i, x)) == DecodeChannel(e)
  {
    var e' := WithChild(e, i, x);
    LookupSkipsChild(e, i, x, "title");
    LookupSkipsChild(e, i, x, "link");
    LookupSkipsChild(e, i, x, "description");
    LookupSkipsChild(e, i, x, "language");
    SelectSkips(e, i, x, Plain("item"));
    assert ItemElements(e') == ItemElements(e);
    assert DecodeAll(ItemElements(e'), DecodeItem) == DecodeAll(ItemElements(e), DecodeItem);
  }
}
