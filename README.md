# Google Voice conversation pages, modelled in Dafny

This project models the Google Voice part of `google_takeout_parser`: the
parser that turns one exported conversation page into `Conversation`
records (`parse_html/calls.py`) and the record types with the `key`
identities a merge stage uses to drop duplicates (`models.py`).

The parser itself has three pieces:

- Text clean-up (`CleanLatin1Chars`) turns the exporter's no-break and em spaces into plain spaces.
- Extraction turns a sender citation into a `Contact` (`ContactsOf`, the
  method `ParseContactDiv`). It turns a message fragment into a `Message` whose body is
  nothing, a text, or images with an optional caption (`MessageOf`, the method `ParseMessageDiv`).
- The page assembler (`ParsePage`, the method `ParseHtmlCall`) is a state machine over
  the roster (`participants`), the counterpart of a direct thread
  (`other`) and a buffer of messages that cannot be attributed yet
  (`pending`). For every extracted message it emits records, buffers the message, or
  stops the page with a fault. Records yielded before a fault stay in the output.

A page is given already taken apart into fragment records. These are an optional
participants block (its citations) and the message fragments in document
order, each with its citations, its `abbr.dt` title, its `q` text and its
`img` sources. Every failed `assert` of the parser is a `Fault`. Logger
warnings are a log of `Warning` values.

Files:

- `wrappers.dfy`: `Option` and `Result`.
- `strings.dfy`: `Join`, `Split` and code-point `Sort`, with `Split(Join(…)) == …` and order independence of `Sort`.
- `models.dfy`: the records, their keys and `__str__` fallbacks, and the ten-variant `Event` union.
- `calls.dfy`: extraction, the assembler as a specification function (`Accept`, `Feed`, `Assemble`,
  `ParsePage`) and as the imperative method `ParseHtmlCall` proved equal to it.
- `calls_properties.dfy`: what the assembler guarantees, turn by turn and page by page.

The check at calls.py:112 comes in two versions:

- `Drain.AsWritten` is the code's `participants is None`.
- `Drain.Intended` is "not a group thread".

See "## Findings".

## Model

| member | source | states |
|---|---|---|
| Calls.CleanLatin1Chars | google_takeout_parser/parse_html/calls.py:18-20 | same length; no U+00A0 or U+2003 is left; those two become spaces and every other character is unchanged |
| Calls.CleanLatin1Idempotent | google_takeout_parser/parse_html/calls.py:18-20 | cleaning twice equals cleaning once |
| Calls.ContactsOf | google_takeout_parser/parse_html/calls.py:23-31 | succeeds iff every citation has an `a.tel` link with an `href`; then one `Contact(href, text)` per citation, in order; otherwise the fault of the first malformed citation (missing link or missing href) |
| Calls.ParseContactDiv | google_takeout_parser/parse_html/calls.py:23-31 | the loop returns exactly `ContactsOf` of the citations |
| Calls.SourcesOf | google_takeout_parser/parse_html/calls.py:48-53 | succeeds iff every image has a non-empty `src`; then the sources in order; otherwise the fault of the first bad image |
| Calls.BodyOf | google_takeout_parser/parse_html/calls.py:46-61 | with images: an `MmsImage` of those sources whose caption is absent for empty text and the cleaned text otherwise; without images: the cleaned text, or no body exactly when the text is empty too |
| Calls.MessageOf | google_takeout_parser/parse_html/calls.py:34-63 | succeeds iff the senders are well formed and exactly one, the timestamp and its title are present and ISO-8601, `q` is present and every image is good; then the sender, instant and body of the fragment; a wrong sender count is reported with that count |
| Calls.ParseMessageDiv | google_takeout_parser/parse_html/calls.py:34-63 | the method returns exactly `MessageOf` of the fragment |
| Calls.Start | google_takeout_parser/parse_html/calls.py:69-76 | the walk before the first message: no participants block gives no roster; a block whose citations parse gives that roster; a malformed citation gives its fault before any record; no counterpart, buffer, records or warnings |
| Calls.Emit | google_takeout_parser/parse_html/calls.py:108-123 | with nothing buffered, one record of the message; otherwise the roster fault when the drain check fails, the counterpart fault when none is known, else the buffered messages then the message, all with the contacts, and an emptied buffer |
| Calls.Accept | google_takeout_parser/parse_html/calls.py:82-123 | one turn for an extracted message: the group checks then `Emit` with the roster; with a known counterpart the `tel:` substitution, the counterpart check, then `Emit` with it; otherwise a non-self-authored sender becomes the counterpart and `Emit` runs, or the message is buffered |
| Calls.Feed | google_takeout_parser/parse_html/calls.py:78-126 | one fragment: a faulted run stays as it is; an extraction fault ends the run; an empty message logs a warning first; then a failed turn ends the run and a successful one appends its records |
| Calls.Finish | google_takeout_parser/parse_html/calls.py:128-131 | end of page: without a fault, a non-empty buffer adds one warning; records and fault are kept |
| Calls.ParsePage | google_takeout_parser/parse_html/calls.py:66-131 | the whole page: `Start` on the participants block, `Feed` on each fragment's extraction in document order, then `Finish` |
| Calls.FaultPersists | google_takeout_parser/parse_html/calls.py:124-126 | once the first n items have caused a fault, the rest of the page changes nothing |
| Calls.YieldPending | google_takeout_parser/parse_html/calls.py:116-121 | the drain loop appends one record per buffered message, in buffer order |
| Calls.AcceptMessage | google_takeout_parser/parse_html/calls.py:82-123 | the loop body after extraction gives the fault, counterpart, buffer and records of one `Accept` turn; on a fault it changes nothing |
| Calls.ParseHtmlCall | google_takeout_parser/parse_html/calls.py:66-131 | the whole page walk returns exactly `ParsePage`: its records, its fault and its warnings |
| Calls.ParseImage | google_takeout_parser/parse_html/calls.py:137-138 | a one-record stream whose record is keyed by the file's path |
| CallsProperties.GroupTurn | google_takeout_parser/parse_html/calls.py:87-123 | group thread: accepted iff the tel is not `tel:` and the sender is on the roster or is "Me"; a `tel:` sender is a fault even when named "Me"; an accepted message is emitted at once with the roster and the state does not change |
| CallsProperties.UnresolvedTurn | google_takeout_parser/parse_html/calls.py:102-123 | direct thread, counterpart unknown: a self-authored message is buffered with nothing emitted; any other sender becomes the counterpart, and the buffer then the message are emitted in order with it, emptying the buffer |
| CallsProperties.ResolvedTurn | google_takeout_parser/parse_html/calls.py:94-123 | direct thread, counterpart known: a `tel:` sender is replaced by the counterpart; accepted iff the sender then is the counterpart or "Me"; emitted at once with the counterpart, which stays |
| CallsProperties.AcceptKeepsInv | google_takeout_parser/parse_html/calls.py:82-123 | every turn keeps the invariant, the roster and a known counterpart, and gives every emitted record the thread's contacts |
| CallsProperties.StartAttributed | google_takeout_parser/parse_html/calls.py:70-76 | the walk starts with an empty buffer and no counterpart, records or warnings |
| CallsProperties.FeedAttributed | google_takeout_parser/parse_html/calls.py:78-126 | one fragment keeps the invariant and the attribution of all records |
| CallsProperties.AssembleAttributed | google_takeout_parser/parse_html/calls.py:78-126 | over any fragments: the buffer is non-empty only in a direct thread without a known counterpart and holds only self-authored messages; every record carries the thread's contacts; the roster never changes |
| CallsProperties.PageAttribution | google_takeout_parser/parse_html/calls.py:87-123 | every record of a page carries the roster (group thread) or exactly the counterpart (direct thread); while messages are buffered nothing has been yielded |
| CallsProperties.PageRecordsShareKey | google_takeout_parser/parse_html/calls.py:87-108 | all records of one page carry the same contacts and so the same `Conversation` key |
| CallsProperties.Monotone | google_takeout_parser/parse_html/calls.py:78-126 | reading more fragments only appends records and warnings, keeps the roster and a known counterpart, and keeps a fault as the outcome |
| CallsProperties.AcceptAccounts | google_takeout_parser/parse_html/calls.py:102-123 | in one turn, emitted records then the buffer equal the old buffer then the message (senders aside) |
| CallsProperties.FeedAccounts | google_takeout_parser/parse_html/calls.py:78-126 | one fragment extends the accounted messages by itself, or faults and keeps them |
| CallsProperties.Accounting | google_takeout_parser/parse_html/calls.py:78-131 | the yielded records then the buffer are exactly the extracted messages in document order (no fault), or a prefix of those extracted before the first extraction failure (fault) |
| CallsProperties.PageAccounting | google_takeout_parser/parse_html/calls.py:66-131 | a page without a fault extracted every fragment and yields each message once, in order, except those still buffered at the end, which are only warned about; after a fault the records are a prefix and there is no end-of-page warning |
| CallsProperties.EmptyWarnings | google_takeout_parser/parse_html/calls.py:55-56 | without a fault, one warning per message with neither text nor images |
| CallsProperties.GroupPage | google_takeout_parser/parse_html/calls.py:87-123 | a group page with acceptable senders yields every message with the roster, in order |
| CallsProperties.GroupPageStops | google_takeout_parser/parse_html/calls.py:87-126 | the first unacceptable group sender raises its fault; exactly the messages before it are yielded |
| CallsProperties.Buffering | google_takeout_parser/parse_html/calls.py:102-131 | self-authored messages of a direct page are all buffered, none yielded, and dropped at the end with one warning |
| CallsProperties.DrainScenario | google_takeout_parser/parse_html/calls.py:102-123 | k self-authored messages then another sender give k+1 records in order, all with that sender as the counterpart, whenever the drain check lets them out |
| CallsProperties.AcceptDrainFaults | google_takeout_parser/parse_html/calls.py:110-114 | one turn never fails the counterpart check, and fails the roster check only as written with an empty roster |
| CallsProperties.ExtractedFaults | google_takeout_parser/parse_html/calls.py:26-53 | extraction raises only citation, timestamp, `q` and image faults |
| CallsProperties.DrainFaults | google_takeout_parser/parse_html/calls.py:110-114 | over any run: the check of line 114 never fails; the check of line 112 fails only as written and only with an empty roster |
| CallsProperties.PageDrainFaults | google_takeout_parser/parse_html/calls.py:110-114 | on every page: line 114 never fails; line 112 fails only as written and only when the participants block lists no one |
| CallsProperties.EmptyRosterDrainAsWritten | google_takeout_parser/parse_html/calls.py:70-114 | as written, a participants block listing no one, a "Me" message and a counterpart message give a fault and no records, where the same messages without the block give two records |
| CallsProperties.EmptyRosterIsDirect | google_takeout_parser/parse_html/calls.py:70-114 | with the intended check, a participants block listing no one runs exactly like a page without one |
| Models.Secs | google_takeout_parser/models.py:66-68 | the whole-second value of an instant truncates toward zero, as `int()` does |
| Models.SubSecondOffsets | google_takeout_parser/models.py:66-79 | instants within one second on the same side of the epoch have the same whole-second value |
| Models.SecsUnique | google_takeout_parser/models.py:66-68 | the truncation window contains exactly one whole second |
| Models.KeyTimeGranularity | google_takeout_parser/models.py:66-167 | moving an event in time keeps its key iff the whole second is unchanged; a message's key keeps the full instant |
| Models.Activity.ProductsDesc | google_takeout_parser/models.py:62-64 | the products in code-point sorted order (a sorted permutation of them) joined by ", "; no products give the empty string, one product gives itself |
| Models.ProductsDescOrderIndependent | google_takeout_parser/models.py:62-64 | the description does not depend on the order of the products |
| Models.ContactKeyVersusEquality | google_takeout_parser/models.py:128-135 | the key is the tel alone, while equality compares tel and name |
| Models.Contact.ToString | google_takeout_parser/models.py:137-140 | the name, or the tel when the name is empty; empty only when both are |
| Models.Activity.Key | google_takeout_parser/models.py:66-68 | `(header, title, whole seconds of time)` |
| Models.YoutubeComment.Key | google_takeout_parser/models.py:77-79 | the whole seconds of `dt` |
| Models.LikedYoutubeVideo.Key | google_takeout_parser/models.py:89-91 | the whole seconds of `dt` |
| Models.PlayStoreAppInstall.Key | google_takeout_parser/models.py:100-102 | the whole seconds of `dt` |
| Models.Location.Key | google_takeout_parser/models.py:112-114 | `(lng, lat, accuracy, whole seconds of dt)`, coordinates as bit patterns |
| Models.ChromeHistory.Key | google_takeout_parser/models.py:123-125 | `(url, whole seconds of dt)` |
| Models.Contact.Key | google_takeout_parser/models.py:133-135 | the tel alone |
| Models.Message.Key | google_takeout_parser/models.py:165-167 | `(dt, contact)`, with the full instant and the whole contact |
| Models.Conversation.Key | google_takeout_parser/models.py:178-180 | the contacts of the thread |
| Models.Jpeg.Key | google_takeout_parser/models.py:187-189 | the path |
| Models.EventKey | google_takeout_parser/models.py:194-205 | the key of each of the ten record kinds of the union, one shape per kind |
| Models.MmsImage.Key | google_takeout_parser/models.py:148-150 | the sources joined by `\|`; no sources give ""; one gives itself; sources free of `\|` are recovered by splitting the key at `\|` |
| Models.MmsImage.ToString | google_takeout_parser/models.py:152-156 | the key, followed by ": " and the caption exactly when the caption is present and non-empty |
| Models.WithTime | google_takeout_parser/models.py:66-125 | helper for `KeyTimeGranularity`: the same event carrying the new instant |
| Models.WithTimeOnlyTime | google_takeout_parser/models.py:66-125 | helper for `KeyTimeGranularity`: replacing the instant changes nothing else, so putting the old instant back restores the event |
| Strings.SplitFreePrefix | google_takeout_parser/models.py:148-150 | a separator-free prefix stays glued to the first piece |
| Strings.SplitJoin | google_takeout_parser/models.py:148-150 | joining separator-free parts with a one-character separator is undone by splitting |
| Strings.Insert | google_takeout_parser/models.py:62-64 | inserting into a sorted list keeps it sorted and adds exactly the element |
| Strings.Sort | google_takeout_parser/models.py:62-64 | `sorted`: a sorted permutation |
| Strings.SortedUnique | google_takeout_parser/models.py:62-64 | a sorted list is determined by its elements |
| Strings.SortOrderIndependent | google_takeout_parser/models.py:62-64 | sorting does not depend on the input order |

## Left out

- HTML parsing with bs4/lxml and its CSS selectors: a page is given as fragment records. A present `div.participants` element counts as truthy, as a bs4 tag always does; only its parsed list can be falsy.
- Reading the file, `print(p)` and logger output: warnings are a returned log.
- `datetime.fromisoformat`: a title is either an instant (whole microseconds since the epoch) or malformed.
- Local-time naive datetimes and float rounding in `timestamp()`: an instant is an exact integer and `Secs` truncates it toward zero.
- `Location` coordinates are kept as IEEE-754 bit patterns, with no float arithmetic or float equality (NaN, signed zero).
- `Message.__str__`: it depends on the locale's `strftime('%c')`.
- The `Protocol`/`TYPE_CHECKING` scaffolding, the cachew tuple workaround, the `return_type` attributes, and the `Res`, `common` and `log` modules. None of these is part of this model.
- The in-place assignment to `message.contact` is a value update of the message. Nothing else refers to that message object.
- The buffered messages' `contact is None` replacement at calls.py:116-118 never applies: extraction always gives a contact, so buffered messages keep their own sender, as in the code.
- `Jpeg.path` is a string, not a `Path` object.

In these places the model follows the code, not the behaviour one might expect:

- A message's key holds the full instant (microseconds), not whole seconds.
- Buffered "Me" messages are not re-attributed to the counterpart when they are drained.
- A missing `q` element is a fault, not "no text".
- Contacts are compared on tel and name (dataclass equality), not on tel alone, both for roster membership and for the counterpart check.
- In a group thread a `tel:` sender is a fault even when it is named "Me".

## Findings

| source | as written | input that shows it | evidently intended | confidence | as-written member | corrected member |
|---|---|---|---|---|---|---|
| google_takeout_parser/parse_html/calls.py:112 | the drain requires `participants is None`, but a page whose `div.participants` lists no one has `participants == []`, which runs as a direct thread (lines 71, 87) | a page with an empty participants block, a message from "Me", then a message from the counterpart: the drain faults and nothing is yielded | the comment says group threads never buffer, so the check meant "not a group thread": the page should yield both messages with the counterpart | not executed | CallsProperties.EmptyRosterDrainAsWritten | CallsProperties.EmptyRosterIsDirect |

`Calls.Drain` selects the check:

- `AsWritten` is the code as written.
- `Intended` is the corrected check.

`CallsProperties.PageDrainFaults` shows that no other page is affected.
