/** A reference for the feed schema: the document shape it describes, built from a feed value.
    Every feed whose dates can be written decodes from its document back to itself, so the
    decoder loses nothing, invents nothing, and keeps items and media contents in order. */
module FeedRoundTrip {
  import opened Wrappers
  import opened Digits
  import opened Xml
  import opened Feed
  import Rfc2822

  /** The namespace media contents are qualified with in the documents built here (Media RSS). */
  const MEDIA_NS: string := "http://search.yahoo.com/mrss/"

  function TextElement(name: string, text: string): Element {
    Element(QName(None, name), map[], Some(text), [])
  }

  function Maybe(x: Option<Element>): seq<Element> {
    match x
    case None => []
    case Some(e) => [e]
  }

  function OptionalText(name: string, v: Option<string>): Option<Element> {
    match v
    case None => None
    case Some(t) => Some(TextElement(name, t))
  }

  function OptionalAttr(name: string, v: Option<string>): map<string, string> {
    match v
    case None => map[]
    case Some(t) => map[name := t]
  }

  function BoolText(b: bool): string {
    if b then "true" else "false"
  }

  function EncodeGuid(g: Guid): Element {
    Element(QName(None, "guid"), map["isPermaLink" := BoolText(g.isPermaLink)], Some(g.value), [])
  }

  function EncodeEnclosure(x: Enclosure): Element {
    Element(QName(None, "enclosure"),
      map["url" := x.url, "length" := Decimal(x.length), "mime_type" := x.mimeType], None, [])
  }

  function EncodeMedia(m: MediaContent): Element {
    var medium := match m.medium
      case None => None
      case Some(k) => Some(MediumName(k));
    Element(QName(Some(MEDIA_NS), "content"),
      OptionalAttr("url", m.url) + OptionalAttr("mime_type", m.mimeType) + OptionalAttr("medium", medium),
      None, [])
  }

  /** An item can be written when its publication date, if any, can be formatted. */
  predicate Encodable(it: Item) {
    it.pubDate.Some? ==> it.pubDate.value.value.year >= 1900
  }

  predicate FeedEncodable(f: Feed) {
    forall i :: 0 <= i < |f.channel.items| ==> Encodable(f.channel.items[i])
  }

  function EncodePubDate(p: Option<PubDate>): Option<Element>
    requires p.Some? ==> p.value.value.year >= 1900
  {
    match p
    case None => None
    case Some(d) => Some(TextElement("pubDate", SerializePubDate(d).value))
  }

  function EncodeMediaSeq(ms: seq<MediaContent>): seq<Element> {
    seq(|ms|, i requires 0 <= i < |ms| => EncodeMedia(ms[i]))
  }

  /** The unqualified children an item may have, in the order written: one optional element
      per scalar field, tagged with the field's name. */
  function ItemParts(it: Item): seq<Option<Element>>
    requires Encodable(it)
  {
    [ OptionalText("title", it.title),
      OptionalText("link", it.link),
      OptionalText("description", it.description),
      OptionalText("author", it.author),
      if it.enclosure.Some? then Some(EncodeEnclosure(it.enclosure.value)) else None,
      if it.guid.Some? then Some(EncodeGuid(it.guid.value)) else None,
      EncodePubDate(it.pubDate),
      OptionalText("content", it.content) ]
  }

  function MaybeAll(ps: seq<Option<Element>>): seq<Element> {
    if ps == [] then [] else Maybe(ps[0]) + MaybeAll(ps[1..])
  }

  function ItemChildren(it: Item): seq<Element>
    requires Encodable(it)
  {
    MaybeAll(ItemParts(it)) + EncodeMediaSeq(it.media)
  }

  function EncodeItem(it: Item): Element
    requires Encodable(it)
  {
    Element(QName(None, "item"), map[], None, ItemChildren(it))
  }

  function EncodeItemSeq(items: seq<Item>): seq<Element>
    requires forall i :: 0 <= i < |items| ==> Encodable(items[i])
  {
    seq(|items|, i requires 0 <= i < |items| && Encodable(items[i]) => EncodeItem(items[i]))
  }

  function ChannelParts(c: Channel): seq<Option<Element>> {
    [ Some(TextElement("title", c.title)),
      Some(TextElement("link", c.link)),
      OptionalText("description", c.description),
      OptionalText("language", c.language) ]
  }

  function ChannelChildren(c: Channel): seq<Element>
    requires forall i :: 0 <= i < |c.items| ==> Encodable(c.items[i])
  {
    MaybeAll(ChannelParts(c)) + EncodeItemSeq(c.items)
  }

  function EncodeFeed(f: Feed): Document
    requires FeedEncodable(f)
  {
    Xml.Document(Element(QName(None, "rss"), map["version" := "2.0"], None,
      [EncodeChannel(f.channel)]))
  }

  // ---------------------------------------------------------------- lemmas

  lemma SelectMaybe(x: Option<Element>, sel: Selector)
    ensures Select(Maybe(x), sel) == if x.Some? && Matches(sel, x.value.name) then [x.value] else []
  {
    if x.Some? {
      assert Maybe(x)[1..] == [];
    }
  }

  /** Each part is absent or an unqualified element named by its tag. */
  predicate Tagged(ps: seq<Option<Element>>, names: seq<string>) {
    && |ps| == |names|
    && forall k :: 0 <= k < |ps| && ps[k].Some? ==> ps[k].value.name == QName(None, names[k])
  }

  predicate Distinct(names: seq<string>) {
    forall j, k :: 0 <= j < k < |names| ==> names[j] != names[k]
  }

  lemma {:induction false} SelectTaggedNone(ps: seq<Option<Element>>, names: seq<string>, sel: Selector)
    requires Tagged(ps, names)
    requires forall k :: 0 <= k < |names| ==> !Matches(sel, QName(None, names[k]))
    ensures Select(MaybeAll(ps), sel) == []
  {
    if ps != [] {
      SelectAppend(Maybe(ps[0]), MaybeAll(ps[1..]), sel);
      SelectMaybe(ps[0], sel);
      SelectTaggedNone(ps[1..], names[1..], sel);
    }
  }

  /** Among distinctly tagged parts, the unqualified children named by tag `j` are part `j`'s. */
  lemma {:induction false} SelectTaggedAt(ps: seq<Option<Element>>, names: seq<string>, j: nat)
    requires Tagged(ps, names) && Distinct(names) && j < |ps|
    ensures Select(MaybeAll(ps), Plain(names[j])) == Maybe(ps[j])
  {
    var sel := Plain(names[j]);
    SelectAppend(Maybe(ps[0]), MaybeAll(ps[1..]), sel);
    SelectMaybe(ps[0], sel);
    if j == 0 {
      SelectTaggedNone(ps[1..], names[1..], sel);
    } else {
      SelectTaggedAt(ps[1..], names[1..], j - 1);
    }
  }

  lemma ItemFieldsDistinct()
    ensures Distinct(ITEM_FIELDS)
  {
  }

  lemma ItemPartsTagged(it: Item)
    requires Encodable(it)
    ensures Tagged(ItemParts(it), ITEM_FIELDS) && Distinct(ITEM_FIELDS)
  {
    var ps := ItemParts(it);
    forall k | 0 <= k < |ps| && ps[k].Some?
      ensures ps[k].value.name == QName(None, ITEM_FIELDS[k])
    {
    }
    ItemFieldsDistinct();
  }

  lemma ChannelPartsTagged(c: Channel)
    ensures Tagged(ChannelParts(c), CHANNEL_FIELDS) && Distinct(CHANNEL_FIELDS)
  {
  }

  /** Only the media contents of an encoded item are namespaced. */
  lemma MediaOfEncodedItem(it: Item)
    requires Encodable(it)
    ensures MediaElements(EncodeItem(it)) == EncodeMediaSeq(it.media)
  {
    var sel := Namespaced("content");
    var parts := ItemParts(it);
    var media := EncodeMediaSeq(it.media);
    assert EncodeItem(it).children == MaybeAll(parts) + media;
    ItemPartsTagged(it);
    SelectAppend(MaybeAll(parts), media, sel);
    SelectTaggedNone(parts, ITEM_FIELDS, sel);
    SelectAll(media, sel);
  }

  /** In an encoded item, the unqualified children named by a field are that field's part. */
  lemma PlainOfEncodedItem(it: Item, j: nat)
    requires Encodable(it) && j < |ITEM_FIELDS|
    ensures Select(EncodeItem(it).children, Plain(ITEM_FIELDS[j])) == Maybe(ItemParts(it)[j])
  {
    var sel := Plain(ITEM_FIELDS[j]);
    var parts := ItemParts(it);
    var media := EncodeMediaSeq(it.media);
    assert EncodeItem(it).children == MaybeAll(parts) + media;
    ItemPartsTagged(it);
    SelectAppend(MaybeAll(parts), media, sel);
    SelectTaggedAt(parts, ITEM_FIELDS, j);
    SelectNone(media, sel);
  }

  lemma {:induction false} DecodeAllInverse<T>(xs: seq<T>, es: seq<Element>, decode: Element -> Result<T, DecodeError>)
    requires |es| == |xs|
    requires forall i :: 0 <= i < |es| ==> decode(es[i]) == Success(xs[i])
    ensures DecodeAll(es, decode) == Success(xs)
  {
    var r := DecodeAll(es, decode);
    assert r.Success?;
    assert r.value == xs;
  }

  lemma GuidRoundTrip(g: Guid)
    ensures DecodeGuid(EncodeGuid(g)) == Success(g)
  {
  }

  lemma EnclosureRoundTrip(x: Enclosure)
    ensures DecodeEnclosure(EncodeEnclosure(x)) == Success(x)
  {
    ParseU32Decimal(x.length);
  }

  lemma MediaRoundTrip(m: MediaContent)
    ensures DecodeMedia(EncodeMedia(m)) == Success(m)
  {
    SelectNone([], Plain("url"));
    SelectNone([], Plain("mime_type"));
    SelectNone([], Plain("medium"));
    if m.medium.Some? {
      MediumNamesRoundTrip(m.medium.value);
    }
  }

  lemma FieldOfOptionalText(e: Element, name: string, v: Option<string>)
    requires name !in e.attrs
    requires Select(e.children, Plain(name)) == Maybe(OptionalText(name, v))
    ensures Field(e, name) == v
  {
  }

  lemma ChildOfMaybe(e: Element, name: string, x: Option<Element>)
    requires Select(e.children, Plain(name)) == Maybe(x)
    ensures Child(e, name) == x
  {
  }

  lemma EncodedItemText(it: Item, j: nat, v: Option<string>)
    requires Encodable(it) && j < |ITEM_FIELDS|
    requires ItemParts(it)[j] == OptionalText(ITEM_FIELDS[j], v)
    ensures Field(EncodeItem(it), ITEM_FIELDS[j]) == v
  {
    PlainOfEncodedItem(it, j);
    FieldOfOptionalText(EncodeItem(it), ITEM_FIELDS[j], v);
  }

  lemma EncodedItemScalars(it: Item)
    requires Encodable(it)
    ensures Field(EncodeItem(it), "title") == it.title
    ensures Field(EncodeItem(it), "link") == it.link
    ensures Field(EncodeItem(it), "description") == it.description
    ensures Field(EncodeItem(it), "author") == it.author
    ensures Field(EncodeItem(it), "content") == it.content
  {
    EncodedItemText(it, 0, it.title);
    EncodedItemText(it, 1, it.link);
    EncodedItemText(it, 2, it.description);
    EncodedItemText(it, 3, it.author);
    EncodedItemText(it, 7, it.content);
  }

  lemma EncodedItemEnclosure(it: Item)
    requires Encodable(it)
    ensures Optional(Child(EncodeItem(it), "enclosure"), DecodeEnclosure) == Success(it.enclosure)
  {
    PlainOfEncodedItem(it, 4);
    ChildOfMaybe(EncodeItem(it), "enclosure", ItemParts(it)[4]);
    if it.enclosure.Some? {
      EnclosureRoundTrip(it.enclosure.value);
    }
  }

  lemma EncodedItemGuid(it: Item)
    requires Encodable(it)
    ensures Optional(Child(EncodeItem(it), "guid"), DecodeGuid) == Success(it.guid)
  {
    PlainOfEncodedItem(it, 5);
    ChildOfMaybe(EncodeItem(it), "guid", ItemParts(it)[5]);
    if it.guid.Some? {
      GuidRoundTrip(it.guid.value);
    }
  }

  lemma EncodedItemPubDate(it: Item)
    requires Encodable(it)
    ensures DecodePubDateField(EncodeItem(it)) == Success(it.pubDate)
  {
    var e := EncodeItem(it);
    PlainOfEncodedItem(it, 6);
    if it.pubDate.Some? {
      PubDateRoundTrip(it.pubDate.value);
      FieldOfOptionalText(e, "pubDate", Some(SerializePubDate(it.pubDate.value).value));
    } else {
      FieldOfOptionalText(e, "pubDate", None);
    }
  }

  lemma EncodedItemMedia(it: Item)
    requires Encodable(it)
    ensures DecodeAll(MediaElements(EncodeItem(it)), DecodeMedia) == Success(it.media)
  {
    MediaOfEncodedItem(it);
    forall i | 0 <= i < |it.media| {
      MediaRoundTrip(it.media[i]);
    }
    DecodeAllInverse(it.media, EncodeMediaSeq(it.media), DecodeMedia);
  }

  lemma ItemRoundTrip(it: Item)
    requires Encodable(it)
    ensures DecodeItem(EncodeItem(it)) == Success(it)
  {
    EncodedItemScalars(it);
    EncodedItemEnclosure(it);
    EncodedItemGuid(it);
    EncodedItemPubDate(it);
    EncodedItemMedia(it);
  }

  function EncodeChannel(c: Channel): Element
    requires forall i :: 0 <= i < |c.items| ==> Encodable(c.items[i])
  {
    Element(QName(None, "channel"), map[], None, ChannelChildren(c))
  }

  lemma PlainOfEncodedChannel(c: Channel, j: nat)
    requires forall i :: 0 <= i < |c.items| ==> Encodable(c.items[i])
    requires j < |CHANNEL_FIELDS|
    ensures Select(EncodeChannel(c).children, Plain(CHANNEL_FIELDS[j])) == Maybe(ChannelParts(c)[j])
  {
    var sel := Plain(CHANNEL_FIELDS[j]);
    var parts := ChannelParts(c);
    var items := EncodeItemSeq(c.items);
    assert EncodeChannel(c).children == MaybeAll(parts) + items;
    ChannelPartsTagged(c);
    SelectAppend(MaybeAll(parts), items, sel);
    SelectTaggedAt(parts, CHANNEL_FIELDS, j);
    SelectNone(items, sel);
  }

  lemma EncodedChannelText(c: Channel, j: nat, v: Option<string>)
    requires forall i :: 0 <= i < |c.items| ==> Encodable(c.items[i])
    requires j < |CHANNEL_FIELDS| && ChannelParts(c)[j] == OptionalText(CHANNEL_FIELDS[j], v)
    ensures Field(EncodeChannel(c), CHANNEL_FIELDS[j]) == v
  {
    PlainOfEncodedChannel(c, j);
    FieldOfOptionalText(EncodeChannel(c), CHANNEL_FIELDS[j], v);
  }

  lemma EncodedChannelScalars(c: Channel)
    requires forall i :: 0 <= i < |c.items| ==> Encodable(c.items[i])
    ensures Field(EncodeChannel(c), "title") == Some(c.title)
    ensures Field(EncodeChannel(c), "link") == Some(c.link)
    ensures Field(EncodeChannel(c), "description") == c.description
    ensures Field(EncodeChannel(c), "language") == c.language
  {
    EncodedChannelText(c, 0, Some(c.title));
    EncodedChannelText(c, 1, Some(c.link));
    EncodedChannelText(c, 2, c.description);
    EncodedChannelText(c, 3, c.language);
  }

  lemma ItemSeqRoundTrip(items: seq<Item>)
    requires forall i :: 0 <= i < |items| ==> Encodable(items[i])
    ensures DecodeAll(EncodeItemSeq(items), DecodeItem) == Success(items)
  {
    forall i | 0 <= i < |items| {
      ItemRoundTrip(items[i]);
    }
    DecodeAllInverse(items, EncodeItemSeq(items), DecodeItem);
  }

  /** The `item` children of an encoded channel are exactly its encoded items. */
  lemma ItemsOfEncodedChannel(c: Channel)
    requires forall i :: 0 <= i < |c.items| ==> Encodable(c.items[i])
    ensures ItemElements(EncodeChannel(c)) == EncodeItemSeq(c.items)
  {
    var parts := ChannelParts(c);
    var items := EncodeItemSeq(c.items);
    assert EncodeChannel(c).children == MaybeAll(parts) + items;
    ChannelPartsTagged(c);
    SelectAppend(MaybeAll(parts), items, Plain("item"));
    SelectTaggedNone(parts, CHANNEL_FIELDS, Plain("item"));
    SelectAll(items, Plain("item"));
  }

  lemma EncodedChannelItems(c: Channel)
    requires forall i :: 0 <= i < |c.items| ==> Encodable(c.items[i])
    ensures DecodeAll(ItemElements(EncodeChannel(c)), DecodeItem) == Success(c.items)
  {
    ItemsOfEncodedChannel(c);
    ItemSeqRoundTrip(c.items);
  }

  lemma ChannelRoundTrip(c: Channel)
    requires forall i :: 0 <= i < |c.items| ==> Encodable(c.items[i])
    ensures DecodeChannel(EncodeChannel(c)) == Success(c)
  {
    EncodedChannelScalars(c);
    EncodedChannelItems(c);
  }

  /** Decoding the document built from a feed gives that feed back: every field the schema
      declares is read from where the document holds it, and items and media contents come
      back in their order. */
  lemma FeedRoundTrip(f: Feed)
    requires FeedEncodable(f)
    ensures DecodeFeed(EncodeFeed(f)) == Success(f)
  {
    var doc := EncodeFeed(f);
    ChannelRoundTrip(f.channel);
    assert doc.root.children[1..] == [];
  }
}
