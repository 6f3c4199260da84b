# rsst feed client, modelled in Dafny

rsst fetches an RSS 2.0 document over HTTP and decodes it into a typed feed. The feed is one
channel with its metadata and its items in document order. This project models the two parts
of rsst that carry logic:

- **The feed schema** (`src/feed.rs`). The serde attributes on `Feed`, `Channel`, `Item`,
  `Guid`, `Enclosure`, `MediaContent`, `ContentMedium` and `PubDate` are written out as one
  decode function per entity (module `Feed`). Each works over an abstract XML element tree
  (module `Xml`). A required field that is missing is a `MissingField` error. An optional one
  that is missing is `None`. Repeated elements (`item`, and the namespaced `content` read into
  `media`) are collected in document order and default to the empty sequence. `ContentMedium`
  accepts exactly its five lower-case names. `isPermaLink` has no default. `length` must be a
  `u32`. `PubDate` is read and written in the RFC 2822 date-time format (section 3.3 of
  RFC 2822), modelled in module `Rfc2822`; day and month names are read in any letter case.
  Module `FeedRoundTrip` builds the document the schema describes for every feed whose dates
  can be written (years from 1900 on), and proves that decoding it gives the feed back. That
  covers every feed the decoder produces, because a decoded date is always from 1900 on. So
  the decoder loses nothing, invents nothing and keeps order.
- **The response pipeline** (`src/client.rs`, module `Client`). `RssRequest::new` builds a
  GET request. `exec` dispatches on the reply's status: 200 to 299 read the body and run it
  through parse-then-decode; any other status, 3xx included, is `UnexpectedResponse(status)`.
  `from_string` runs the same chain. A parse failure is `XmlParse` and the decoder does not
  run. A decode failure is `XmlDecode`. Only a fully built response is ever returned.
  `exec` is a method over a reply handle whose `bodyRead` flag shows that the body is read
  exactly when the status is successful. `Display` gives each error kind its fixed prefix.

The XML parser and the HTTP transport are function parameters (`Parser`, `send`, `open`).
The model says what rsst does with their answers, not how they produce them.

How the decoder reads field names is fixed here as follows:

- A scalar field reads the attribute of that name. Failing that, it reads the text of the
  first unqualified child element of that name; a child without text reads as "".
  Attributes and child elements the schema does not name are skipped wherever they appear.
- A struct field (`enclosure`, `guid`, the `channel` of the feed) decodes the first
  unqualified child of that name.
- `$text` is the element's own text.
- `$ns:content` picks the children named `content` that carry a namespace.
- Booleans are exactly `true` or `false`. A `u32` is Rust's `u32::from_str`: an optional `+`,
  then digits, with a value below 2^32.

`Enclosure.mime_type` is not renamed, so it is read from the literal name `mime_type`. An
enclosure that carries its MIME type only in RSS 2.0's `type` attribute therefore fails to
decode, and that failure fails its whole item and feed. Lemma `EnclosureTypeAttributeNotRead`
states this.

The client does not follow redirects: a 3xx reply is `UnexpectedResponse` (src/client.rs:24-33).
The transport delivers the body as text, and `RssError` has exactly four variants.

## Model

| member | source | states |
|---|---|---|
| `Digits.ParseU32` | src/feed.rs:47 | a `length` is accepted only as an optional `+` followed by at least one decimal digit, so a lone `+` is rejected |
| `Digits.ParseU32Padded` | src/feed.rs:47 | an optional `+`, any number of leading zeros and the decimal text of n read as n exactly when n fits in a `u32` ("+007" is 7, "04294967296" is rejected) |
| `Digits.ParseU32Form` | src/feed.rs:47 | every accepted text is an optional `+`, leading zeros and the decimal text of the value it gives |
| `Digits.ParseU32Decimal` | src/feed.rs:47 | the decimal text of n reads back as n exactly when n fits in a `u32`, and is rejected otherwise |
| `Digits.ParseU32RejectsMinus` | src/feed.rs:47 | a `length` starting with `-` never decodes |
| `Rfc2822.Format` | src/feed.rs:89-98 | the RFC 2822 rendering is a 31-character text and exists exactly for years from 1900 on; earlier years are an error |
| `Rfc2822.Parse` | src/feed.rs:83-84 | an accepted text gives a valid date-time from 1900 on, equal to the fields the text writes, and a day name in the text must be that date's day of week |
| `Rfc2822.ParseWeekday` | src/feed.rs:83 | a leading day name is three letters naming a weekday in any case, followed by ", "; without one the text is left as it is |
| `Rfc2822.Check` | src/feed.rs:83-84 | a date-time as written is accepted exactly when its year is from 1900 on, it names a real calendar instant, and a given day name agrees with the date; it is then kept unchanged |
| `Rfc2822.ParseFormat` | src/feed.rs:77-98 | parse(format(d)) = d for every date-time from 1900 on |
| `Rfc2822.ParseIsCanonical` | src/feed.rs:83 | any accepted text and the text Format writes for its value parse to the same date-time |
| `Rfc2822.ParseChecksDayName` | src/feed.rs:83-84 | a date-time written with any day name is accepted exactly when the name is that date's day of week, and is otherwise `InconsistentComponents` |
| `Rfc2822.ParseWithoutDayName` | src/feed.rs:83-84 | the day name is optional: the same text without it reads as the same date-time |
| `Rfc2822.IndexOfIgnoresCase` | src/feed.rs:83 | a day or month name is looked up by its letters whatever their case |
| `Rfc2822.NamesInAnyCase` | src/feed.rs:83 | "tue" reads as Tuesday and "jUL" as July |
| `Rfc2822.WeekdayOfNextDay` | src/feed.rs:83-95 | the day after any date from 1900 on has the next day name; with `WeekdayOfFirstDay` this makes the name written and the name checked follow the calendar |
| `Rfc2822.WeekdayOfFirstDay` | src/feed.rs:83-95 | 1 January 1900, where the day count starts, is a Monday |
| `Rfc2822.WeekdayOfSample` | src/feed.rs:83-95 | 1 July 2003, the date of the example in Appendix A of RFC 2822, is a Tuesday |
| `Xml.SelectAppend` | src/feed.rs:16-17 | selecting children by name keeps document order: the matches in xs + ys are those of xs followed by those of ys |
| `Xml.SelectMembers` | src/feed.rs:32-33 | selection keeps exactly the elements whose name matches, none lost and none added |
| `Xml.SelectStartsAtFirst` | src/feed.rs:26-27 | the elements a name selects start with its first match in document order |
| `Xml.SelectSkips` | src/feed.rs:16-17 | a child of another name, inserted anywhere, leaves the selection unchanged |
| `Xml.LookupSkipsChild` | src/feed.rs:11-15 | a child of another name leaves the scalar and struct field of a name unchanged |
| `Xml.Field` | src/feed.rs:11-15 | a scalar field is present exactly when an attribute or an unqualified child of that name exists; its value is the attribute when there is one, otherwise the text of the first such child |
| `Xml.First` | src/feed.rs:26-27 | a struct field's element is found exactly when a child of that name exists, and it is the first such child in document order |
| `Feed.ParseMedium` | src/feed.rs:58-66 | a medium decodes only from the exact lower-case name of that medium; any other text matches no medium |
| `Feed.MediumNamesRoundTrip` | src/feed.rs:58-66 | each of the five names decodes to its own variant, and no two variants share a name |
| `Feed.MediumIsCaseSensitive` | src/feed.rs:58-66 | "IMAGE" fails with `UnknownVariant`, "image" decodes to `Image` |
| `Feed.ParseBool` | src/feed.rs:40-41 | `isPermaLink` decodes exactly from "true" or "false", to true exactly for "true" |
| `Feed.DeserializePubDate` | src/feed.rs:77-87 | a `pubDate` decodes exactly when its text is an RFC 2822 date-time, to that date-time, and otherwise carries the format error |
| `Feed.SerializePubDate` | src/feed.rs:89-98 | serializing succeeds exactly for years from 1900 on |
| `Feed.IntoOffsetDateTime` | src/feed.rs:71-75 | `From<PubDate>` hands out the wrapped date-time unchanged |
| `Feed.PubDateRoundTrip` | src/feed.rs:71-98 | what serialize writes, deserialize reads back to the same `PubDate` |
| `Feed.Required` | src/feed.rs:12-13 | a required scalar decodes exactly when present, to its text, and is `MissingField` otherwise |
| `Feed.Optional` | src/feed.rs:26-27 | an absent optional struct field decodes to `None` |
| `Feed.OptionalPresent` | src/feed.rs:26-27 | a present optional struct field decodes exactly when its element does, to that value, and otherwise fails with that element's error |
| `Feed.DecodeAll` | src/feed.rs:16-17 | a repeated field decodes exactly when every element does, to one value per element in the same order |
| `Feed.DecodeGuid` | src/feed.rs:36-42 | a `guid` decodes exactly when it has text and an `isPermaLink` of "true" or "false", to that text and flag |
| `Feed.GuidFlagErrors` | src/feed.rs:40-41 | a missing `isPermaLink` is `MissingField("isPermaLink")`, never a default; other text is `InvalidBool` |
| `Feed.DecodeEnclosure` | src/feed.rs:44-49 | an enclosure decodes exactly when `url`, `length` and `mime_type` are present and `length` is a `u32`, to exactly those values |
| `Feed.EnclosureErrors` | src/feed.rs:44-49 | the first missing or malformed field in declaration order is the error |
| `Feed.DecodeMedia` | src/feed.rs:51-56 | a media content decodes exactly when `medium` is absent or one of the five names; `url` and `mime_type` are the fields as given |
| `Feed.DecodePubDateField` | src/feed.rs:28-29 | an absent `pubDate` is `None`; a present one decodes exactly when its text is a date-time, to that date, and otherwise is `InvalidDate` with the format error |
| `Feed.DecodeItem` | src/feed.rs:20-34 | an item decodes exactly when its `enclosure`, `guid` and `pubDate`, when present, decode and every media content decodes; scalars never fail |
| `Feed.DecodeChannel` | src/feed.rs:10-18 | a channel decodes exactly when `title` and `link` are present and every `item` child decodes |
| `Feed.DecodeFeed` | src/feed.rs:4-8 | no `channel` child is `MissingField("channel")`; otherwise the feed decodes exactly when the channel does, holding that channel |
| `Feed.ChannelRequiresTitleAndLink` | src/feed.rs:11-13 | a channel without `title` (or else without `link`) fails with `MissingField` naming it |
| `Feed.ChannelScalars` | src/feed.rs:11-15 | a decoded channel holds the given `title` and `link`, and `description`/`language` are `None` exactly when absent |
| `Feed.ChannelItemsInDocumentOrder` | src/feed.rs:16-17 | item i of the channel is the decoding of its i-th `item` child |
| `Feed.ChannelWithoutItems` | src/feed.rs:16-17 | with no `item` children the channel decodes iff `title` and `link` are present, with empty `items` |
| `Feed.BadItemFailsChannel` | src/feed.rs:16-17 | one `item` that fails to decode fails the whole channel |
| `Feed.BareItem` | src/feed.rs:20-34 | an item with no fields decodes, every scalar to `None` and `media` to the empty sequence |
| `Feed.ItemScalars` | src/feed.rs:21-31 | each field of a decoded item is what its element gives: a scalar's text, the decoding of the `enclosure`/`guid` child or of the `pubDate` text, `None` when absent |
| `Feed.ItemMediaInDocumentOrder` | src/feed.rs:32-33 | media content i is the decoding of the i-th namespaced `content` child |
| `Feed.ItemIgnoresUnknownChild` | src/feed.rs:20-34 | a child element the item schema does not name, inserted anywhere, does not change the result |
| `Feed.ItemIgnoresUnknownAttribute` | src/feed.rs:20-34 | an attribute the item schema does not name does not change the result |
| `Feed.ChannelIgnoresUnknownChild` | src/feed.rs:10-18 | a child element the channel schema does not name, inserted anywhere, does not change the result |
| `Feed.EnclosureLengthOverflow` | src/feed.rs:47 | a `length` of 4294967296 fails the enclosure |
| `Feed.EnclosureTypeAttributeNotRead` | src/feed.rs:48 | an enclosure giving its MIME type only as `type` fails with `MissingField("mime_type")` |
| `FeedRoundTrip.GuidRoundTrip` | src/feed.rs:36-42 | a guid's document decodes back to the guid |
| `FeedRoundTrip.EnclosureRoundTrip` | src/feed.rs:44-49 | an enclosure's document decodes back to the enclosure |
| `FeedRoundTrip.MediaRoundTrip` | src/feed.rs:51-56 | a media content's document decodes back to it |
| `FeedRoundTrip.ItemRoundTrip` | src/feed.rs:20-34 | an item's document decodes back to the item, media in order |
| `FeedRoundTrip.ChannelRoundTrip` | src/feed.rs:10-18 | a channel's document decodes back to the channel, items in order |
| `FeedRoundTrip.FeedRoundTrip` | src/feed.rs:4-8 | decode(document of f) = f for every feed whose dates can be written |
| `Client.NewRequest` | src/client.rs:16-19 | the request is the transport's GET request for the URL, and its refusal is `Http` |
| `Client.IsSuccessStatus` | src/client.rs:24 | the range 200..300 is exactly the 2xx class of status codes |
| `Client.FromString` | src/client.rs:50-57 | succeeds iff parse and decode both succeed, with the feed derived from exactly that text; parse failure gives `XmlParse`, decode failure `XmlDecode` |
| `Client.Respond` | src/client.rs:24-34 | a non-2xx status gives `UnexpectedResponse(status)`; a 2xx with a failed body read gives `Http`; a 2xx with a body gives what `from_string` gives for that text |
| `Client.Exec` | src/client.rs:21-35 | a send failure is `Http`; otherwise the result is `Respond` of the reply, and the body is read iff the status is 2xx |
| `Client.Response.Text` | src/client.rs:25 | reading the body yields the transport's body result and marks the body read |
| `Client.Display` | src/client.rs:68-77 | each message starts with its variant's fixed prefix |
| `Client.StatusDispatch` | src/client.rs:24 | the result is `UnexpectedResponse` exactly for statuses outside 200..300, carrying the same code |
| `Client.UnsuccessfulIgnoresBody` | src/client.rs:32-33 | for a non-2xx status neither the body nor the parser affects the result |
| `Client.ParseFailureStopsChain` | src/client.rs:28 | when parsing fails the result is `XmlParse` with the parser's error, from `from_string` and from every 2xx reply |
| `Client.DecodeFailureReported` | src/client.rs:29 | a body that parses but does not decode gives `XmlDecode` with the decoder's error |
| `Client.ResponsesAreWhole` | src/client.rs:38-47 | a returned response comes from a 2xx reply, holds exactly the body supplied, is derived from it, and equals `from_string` of it |
| `Client.UnexpectedResponseMessage` | src/client.rs:72 | the message is "unexpected response code " then the code in decimal, and the code reads back from it |
| `Client.DisplayDistinguishesKinds` | src/client.rs:68-77 | two errors with the same message have the same variant prefix, and an `UnexpectedResponse` message identifies its error, code included |

## Left out

- HTTP transport: sending the request and reading the body are async network I/O. They are a function parameter `send` returning a reply handle, and that handle's `body`. The model does not capture that the handle is freshly allocated, connection handling, or suspension points.
- Self-referencing storage (`ouroboros`, src/client.rs:38-47): a response is a value holding its body, document and feed. Borrowing, lifetimes and the single-copy memory layout are not modelled. The invariant `DerivedFrom` stands for the borrow chain.
- XML tokenising (`Document::parse`): an abstract `Parser` from text to element tree or parse error.
- Serde's derive machinery and `from_doc`: replaced by explicit decode functions. The name-mapping rules in the overview are this model's reading of the decoding library, which is not part of this model. When a scalar element appears more than once, the first is used; a duplicate-field error is not modelled.
- Error precedence: when several fields of one element are wrong, the model reports the first in declaration order. Which one serde reports depends on the order it visits the document.
- RFC 2822 in the `time` crate: only the grammar in module `Rfc2822` is modelled. Not covered: obsolete forms (two-digit years, named zones such as GMT or EST), comments and folding whitespace, leap seconds, and offsets with seconds. The component an error names is approximate.
- Client.Display: the transport's and the parser's descriptions are carried as text. The wording for nested decode errors (`DescribeDecodeError`) is this model's own, not the decoding library's.
- Text decoding of the body: the transport hands `exec` the body as text, and a failure there is an `Http` error like any other transport failure.
- `Debug` derives, the `Error` impl (src/client.rs:79) and tests/parsing.rs (file I/O only): no behaviour to model.
