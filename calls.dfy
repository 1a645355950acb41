/** The Google Voice conversation-page parser
    (google_takeout_parser/parse_html/calls.py).

    A page arrives already taken apart into fragment records: an optional
    participants block (its sender citations) and the message fragments in
    document order. Each fragment carries what the parser reads from it with
    its selectors: the sender citations, the `abbr.dt` element and its title,
    the `q` element's text and the `img` elements' `src` attributes.
    A failed `assert` in the parser becomes a `Fault`. */
module Calls {
  import opened Wrappers
  import opened Models

  // ---------------------------------------------------------------------
  // Text clean-up

  const NoBreakSpace: char := '\U{A0}'
  const EmSpace: char := '\U{2003}'

  /** `s.replace(from, to)` for one character replaced by one character. */
  function ReplaceChar(s: string, from: char, to: char): (r: string)
    ensures |r| == |s|
    ensures forall i :: 0 <= i < |s| ==> r[i] == (if s[i] == from then to else s[i])
  {
    if |s| == 0 then ""
    else [if s[0] == from then to else s[0]] + ReplaceChar(s[1..], from, to)
  }

  /** `clean_latin1_chars`: both exporter space characters become plain spaces. */
  function CleanLatin1Chars(s: string): (r: string)
    ensures |r| == |s|
    ensures NoBreakSpace !in r && EmSpace !in r
    ensures forall i :: 0 <= i < |s| ==>
              r[i] == (if s[i] == NoBreakSpace || s[i] == EmSpace then ' ' else s[i])
  {
    ReplaceChar(ReplaceChar(s, NoBreakSpace, ' '), EmSpace, ' ')
  }

  /** Cleaning text that is already clean changes nothing. */
  lemma CleanLatin1Idempotent(s: string)
    ensures CleanLatin1Chars(CleanLatin1Chars(s)) == CleanLatin1Chars(s)
  {
  }

  // ---------------------------------------------------------------------
  // Page fragments

  /** The `a.tel` link inside a sender citation. */
  datatype TelLink = TelLink(href: Option<string>, text: string)

  /** A `cite.sender` element; `tel` is its first `a.tel` link, if any. */
  datatype Citation = Citation(tel: Option<TelLink>)

  /** The value of the `title` attribute of `abbr.dt`, as ISO-8601 parsing
      leaves it. */
  datatype Title = Iso(instant: Instant) | Malformed

  /** An `abbr.dt` element. */
  datatype Abbr = Abbr(title: Option<Title>)

  /** An `img` element. */
  datatype Img = Img(src: Option<string>)

  /** A `div.message` element. `q` is the text of its `q` element, if it has one. */
  datatype Fragment = Fragment(senders: seq<Citation>, dt: Option<Abbr>, q: Option<string>, images: seq<Img>)

  /** A conversation page: the citations of `div.participants`, when the page
      has that element, and the `div.message` elements in document order. */
  datatype Page = Page(participants: Option<seq<Citation>>, messages: seq<Fragment>)

  /** Why a page stopped: the assertion of the parser that failed. */
  datatype Fault =
    | NoTelLink                  // a citation without an `a.tel` link
    | NoHref                     // an `a.tel` link without `href`
    | SenderCount(count: nat)    // a message fragment without exactly one sender
    | NoTimestamp                // no `abbr.dt`
    | NoTitle                    // `abbr.dt` without `title`
    | MalformedTimestamp         // the title is not ISO-8601
    | NoQuote                    // no `q` element
    | NoImageSrc                 // an `img` without `src`
    | EmptyImageSrc              // an `img` whose `src` is empty
    | PlaceholderInGroup         // a "tel:" sender in a group thread
    | SenderNotInRoster          // a group sender neither listed nor "Me"
    | SenderNotCounterpart       // a direct sender neither the counterpart nor "Me"
    | PendingWithRoster          // buffered messages drained while `participants` is not None
    | PendingWithoutCounterpart  // buffered messages drained with no counterpart known

  // ---------------------------------------------------------------------
  // _parse_contact_div

  predicate WellFormed(c: Citation) {
    c.tel.Some? && c.tel.value.href.Some?
  }

  function CitationFault(c: Citation): Fault
    requires !WellFormed(c)
  {
    if c.tel.None? then NoTelLink else NoHref
  }

  function ContactOf(c: Citation): Contact
    requires WellFormed(c)
  {
    Contact(c.tel.value.href.value, c.tel.value.text)
  }

  /** One contact per citation, in document order; the first malformed
      citation is a fault. */
  function ContactsOf(cites: seq<Citation>): (r: Result<seq<Contact>, Fault>)
    ensures r.Ok? <==> forall i :: 0 <= i < |cites| ==> WellFormed(cites[i])
    ensures r.Ok? ==> |r.value| == |cites| &&
                      forall i :: 0 <= i < |cites| ==> r.value[i] == ContactOf(cites[i])
    ensures r.Err? ==> exists k :: 0 <= k < |cites| && !WellFormed(cites[k]) &&
                        (forall j :: 0 <= j < k ==> WellFormed(cites[j])) &&
                        r.error == CitationFault(cites[k])
  {
    if |cites| == 0 then Ok([])
    else if !WellFormed(cites[0]) then Err(CitationFault(cites[0]))
    else
      match ContactsOf(cites[1..])
      case Err(e) =>
        assert forall j :: 1 <= j < |cites| ==> cites[j] == cites[1..][j - 1];
        Err(e)
      case Ok(rest) =>
        assert forall j :: 1 <= j < |cites| ==> cites[j] == cites[1..][j - 1];
        Ok([ContactOf(cites[0])] + rest)
  }

  /** `_parse_contact_div`. */
  method ParseContactDiv(cites: seq<Citation>) returns (r: Result<seq<Contact>, Fault>)
    ensures r == ContactsOf(cites)
  {
    var contacts: seq<Contact> := [];
    for i := 0 to |cites|
      invariant forall j :: 0 <= j < i ==> WellFormed(cites[j])
      invariant |contacts| == i
      invariant forall j :: 0 <= j < i ==> contacts[j] == ContactOf(cites[j])
    {
      var tel := cites[i].tel;
      if tel.None? {
        return Err(NoTelLink);
      }
      if tel.value.href.None? {
        return Err(NoHref);
      }
      contacts := contacts + [Contact(tel.value.href.value, tel.value.text)];
    }
    assert ContactsOf(cites).Ok?;
    assert contacts == ContactsOf(cites).value;
    return Ok(contacts);
  }

  // ---------------------------------------------------------------------
  // _parse_message_div

  predicate GoodImg(img: Img) {
    img.src.Some? && img.src.value != ""
  }

  function ImgFault(img: Img): Fault
    requires !GoodImg(img)
  {
    if img.src.None? then NoImageSrc else EmptyImageSrc
  }

  /** The image sources in document order; the first missing or empty `src`
      is a fault. */
  function SourcesOf(imgs: seq<Img>): (r: Result<seq<string>, Fault>)
    ensures r.Ok? <==> forall i :: 0 <= i < |imgs| ==> GoodImg(imgs[i])
    ensures r.Ok? ==> |r.value| == |imgs| &&
                      forall i :: 0 <= i < |imgs| ==> r.value[i] == imgs[i].src.value
    ensures r.Err? ==> exists k :: 0 <= k < |imgs| && !GoodImg(imgs[k]) &&
                        (forall j :: 0 <= j < k ==> GoodImg(imgs[j])) &&
                        r.error == ImgFault(imgs[k])
  {
    if |imgs| == 0 then Ok([])
    else if !GoodImg(imgs[0]) then Err(ImgFault(imgs[0]))
    else
      match SourcesOf(imgs[1..])
      case Err(e) =>
        assert forall j :: 1 <= j < |imgs| ==> imgs[j] == imgs[1..][j - 1];
        Err(e)
      case Ok(rest) =>
        assert forall j :: 1 <= j < |imgs| ==> imgs[j] == imgs[1..][j - 1];
        Ok([imgs[0].src.value] + rest)
  }

  /** What `_parse_message_div` accepts: well-formed sender citations and
      exactly one of them, a timestamp title in ISO-8601 form, a `q` element,
      and a non-empty `src` on every image. */
  predicate MessageWellFormed(frag: Fragment) {
    && (forall i :: 0 <= i < |frag.senders| ==> WellFormed(frag.senders[i]))
    && |frag.senders| == 1
    && frag.dt.Some? && frag.dt.value.title.Some? && frag.dt.value.title.value.Iso?
    && frag.q.Some?
    && (forall i :: 0 <= i < |frag.images| ==> GoodImg(frag.images[i]))
  }

  /** The body of a message: images with the text as caption when there are
      images, else the text, else nothing. An empty `q` text counts as no text. */
  function BodyOf(sources: seq<string>, q: string): (b: Body)
    ensures |sources| > 0 ==> b.Image? && b.image.sources == sources &&
                              b.image.message == (if q == "" then None else Some(CleanLatin1Chars(q)))
    ensures |sources| == 0 && q != "" ==> b == Text(CleanLatin1Chars(q)) && b.text != ""
    ensures b.NoText? <==> |sources| == 0 && q == ""
  {
    var text: Option<string> := if q != "" then Some(CleanLatin1Chars(q)) else None;
    if |sources| > 0 then Image(MmsImage(sources, text))
    else if text.Some? then Text(text.value)
    else NoText
  }

  /** The message a fragment holds, or the first check it fails. */
  function MessageOf(frag: Fragment): (r: Result<Message, Fault>)
    ensures r.Ok? <==> MessageWellFormed(frag)
    ensures r.Ok? ==> r.value.contact == ContactOf(frag.senders[0]) &&
                      r.value.dt == frag.dt.value.title.value.instant
    ensures r.Ok? ==> SourcesOf(frag.images).Ok? &&
                      r.value.message == BodyOf(SourcesOf(frag.images).value, frag.q.value)
    ensures r.Err? && ContactsOf(frag.senders).Ok? && |frag.senders| != 1 ==>
              r.error == SenderCount(|frag.senders|)
  {
    match ContactsOf(frag.senders)
    case Err(e) => Err(e)
    case Ok(contacts) =>
      if |contacts| != 1 then Err(SenderCount(|contacts|))
      else if frag.dt.None? then Err(NoTimestamp)
      else if frag.dt.value.title.None? then Err(NoTitle)
      else if frag.dt.value.title.value.Malformed? then Err(MalformedTimestamp)
      else if frag.q.None? then Err(NoQuote)
      else
        match SourcesOf(frag.images)
        case Err(e) => Err(e)
        case Ok(sources) =>
          Ok(Message(frag.dt.value.title.value.instant, contacts[0], BodyOf(sources, frag.q.value)))
  }

  /** `_parse_message_div`. A message with neither text nor images is
      returned like any other; the caller logs the warning for it. */
  method ParseMessageDiv(frag: Fragment) returns (r: Result<Message, Fault>)
    ensures r == MessageOf(frag)
  {
    var contact := ParseContactDiv(frag.senders);
    if contact.Err? {
      return Err(contact.error);
    }
    if |contact.value| != 1 {
      return Err(SenderCount(|contact.value|));
    }
    if frag.dt.None? {
      return Err(NoTimestamp);
    }
    if frag.dt.value.title.None? {
      return Err(NoTitle);
    }
    if frag.dt.value.title.value.Malformed? {
      return Err(MalformedTimestamp);
    }
    var messageTime := frag.dt.value.title.value.instant;
    if frag.q.None? {
      return Err(NoQuote);
    }
    var q: Option<string> := if frag.q.value != "" then Some(CleanLatin1Chars(frag.q.value)) else None;
    var images: seq<string> := [];
    for i := 0 to |frag.images|
      invariant forall j :: 0 <= j < i ==> GoodImg(frag.images[j])
      invariant |images| == i
      invariant forall j :: 0 <= j < i ==> images[j] == frag.images[j].src.value
    {
      var src := frag.images[i].src;
      if src.None? {
        return Err(NoImageSrc);
      }
      if src.value == "" {
        return Err(EmptyImageSrc);
      }
      images := images + [src.value];
    }
    assert SourcesOf(frag.images).Ok?;
    assert images == SourcesOf(frag.images).value;
    var contents: Body;
    if |images| > 0 {
      contents := Image(MmsImage(images, q));
    } else if q.Some? {
      contents := Text(q.value);
    } else {
      contents := NoText;
    }
    return Ok(Message(messageTime, contact.value[0], contents));
  }

  // ---------------------------------------------------------------------
  // _parse_html_call: the page assembler

  /** The display name Google Voice gives the archive owner. */
  const Me: string := "Me"

  /** The tel of a citation that names no real number. */
  const PlaceholderTel: string := "tel:"

  /** Python truthiness of `participants`: present and not empty. A page whose
      participants block lists no one runs as a direct thread. */
  predicate Truthy(participants: Option<seq<Contact>>) {
    participants.Some? && |participants.value| > 0
  }

  /** A sender the assembler cannot take as the counterpart of a direct thread. */
  predicate SelfAuthored(m: Message) {
    m.contact.name == Me || m.contact.tel == PlaceholderTel
  }

  /** The check made before buffered messages are drained. `AsWritten` is the
      source's `participants is None`; `Intended` is "not a group thread",
      which the source's own comment states as the purpose of that check. */
  datatype Drain = AsWritten | Intended

  predicate DrainAllowed(participants: Option<seq<Contact>>, drain: Drain) {
    match drain
    case AsWritten => participants.None?
    case Intended => !Truthy(participants)
  }

  /** The assembler's page-local state: the roster (`participants`), the
      counterpart of a direct thread, and the messages not yet emitted. */
  datatype State = State(participants: Option<seq<Contact>>, other: Option<Contact>, pending: seq<Message>)

  datatype Stepped = Stepped(st: State, emitted: seq<Conversation>)

  /** One conversation record per message, all with the same contacts. */
  function Wrap(contacts: seq<Contact>, ms: seq<Message>): (r: seq<Conversation>)
    ensures |r| == |ms|
    ensures forall k :: 0 <= k < |ms| ==> r[k] == Conversation(contacts, ms[k])
  {
    seq(|ms|, k requires 0 <= k < |ms| => Conversation(contacts, ms[k]))
  }

  /** Emits the buffered messages, then `m`, all with `contacts`. Buffered
      messages keep their own contact: the source replaces only a contact
      that is None, which a parsed message never has. */
  function Emit(st: State, contacts: seq<Contact>, m: Message, drain: Drain): Result<Stepped, Fault> {
    if |st.pending| == 0 then Ok(Stepped(st, [Conversation(contacts, m)]))
    else if !DrainAllowed(st.participants, drain) then Err(PendingWithRoster)
    else if st.other.None? then Err(PendingWithoutCounterpart)
    else Ok(Stepped(st.(pending := []), Wrap(contacts, st.pending) + [Conversation(contacts, m)]))
  }

  /** One turn of the loop of `_parse_html_call`, for an extracted message. */
  function Accept(st: State, m: Message, drain: Drain): Result<Stepped, Fault> {
    if Truthy(st.participants) then
      var roster := st.participants.value;
      if m.contact.tel == PlaceholderTel then Err(PlaceholderInGroup)
      else if !(m.contact in roster || m.contact.name == Me) then Err(SenderNotInRoster)
      else Emit(st, roster, m, drain)
    else if st.other.Some? then
      var other := st.other.value;
      var m' := if m.contact.tel == PlaceholderTel then m.(contact := other) else m;
      if !(m'.contact == other || m'.contact.name == Me) then Err(SenderNotCounterpart)
      else Emit(st, [other], m', drain)
    else if !SelfAuthored(m) then
      Emit(st.(other := Some(m.contact)), [m.contact], m, drain)
    else
      Ok(Stepped(st.(pending := st.pending + [m]), []))
  }

  /** Warnings the parser logs without stopping. */
  datatype Warning = EmptyMessage | UnexpectedPending

  /** Where the page walk stands: the state, the records yielded so far, the
      fault that ended it if any, and the warnings logged. */
  datatype Run = Run(st: State, records: seq<Conversation>, fault: Option<Fault>, log: seq<Warning>)

  /** The walk before the first message: the roster is parsed first, and a
      fault in it ends the page before any record. */
  function Start(participants: Option<seq<Citation>>): Run {
    match participants
    case None => Run(State(None, None, []), [], None, [])
    case Some(cites) =>
      match ContactsOf(cites)
      case Err(f) => Run(State(None, None, []), [], Some(f), [])
      case Ok(cs) => Run(State(Some(cs), None, []), [], None, [])
  }

  /** Processes one message fragment's extraction result. Once a fault has
      occurred nothing changes any more. */
  function Feed(r: Run, item: Result<Message, Fault>, drain: Drain): Run {
    if r.fault.Some? then r
    else
      match item
      case Err(f) => r.(fault := Some(f))
      case Ok(m) =>
        var log := if m.message.NoText? then r.log + [EmptyMessage] else r.log;
        match Accept(r.st, m, drain)
        case Err(f) => r.(fault := Some(f), log := log)
        case Ok(s) => Run(s.st, r.records + s.emitted, None, log)
  }

  /** Feeds the items in order. */
  function Assemble(start: Run, items: seq<Result<Message, Fault>>, drain: Drain): Run
    decreases |items|
  {
    if |items| == 0 then start
    else Feed(Assemble(start, items[..|items| - 1], drain), items[|items| - 1], drain)
  }

  /** The extraction result of every message fragment. */
  function Extracted(frags: seq<Fragment>): (r: seq<Result<Message, Fault>>)
    ensures |r| == |frags|
    ensures forall k :: 0 <= k < |frags| ==> r[k] == MessageOf(frags[k])
  {
    seq(|frags|, k requires 0 <= k < |frags| => MessageOf(frags[k]))
  }

  /** What one page produces: the records yielded, the fault raised (if
      any, after those records), and the warnings logged. */
  datatype PageOutput = PageOutput(records: seq<Conversation>, fault: Option<Fault>, log: seq<Warning>)

  /** End of page: messages still buffered are dropped with a warning. */
  function Finish(r: Run): PageOutput {
    if r.fault.None? && |r.st.pending| > 0 then PageOutput(r.records, None, r.log + [UnexpectedPending])
    else PageOutput(r.records, r.fault, r.log)
  }

  function ParsePage(page: Page, drain: Drain): PageOutput {
    Finish(Assemble(Start(page.participants), Extracted(page.messages), drain))
  }

  /** A fault stops the walk: once the first `n` items have produced one,
      the remaining items change nothing. */
  lemma {:induction false} FaultPersists(start: Run, items: seq<Result<Message, Fault>>, n: nat, drain: Drain)
    requires n <= |items|
    requires Assemble(start, items[..n], drain).fault.Some?
    ensures Assemble(start, items, drain) == Assemble(start, items[..n], drain)
    decreases |items| - n
  {
    if n < |items| {
      assert items[..n + 1][..n] == items[..n];
      FaultPersists(start, items, n + 1, drain);
    } else {
      assert items[..n] == items;
    }
  }

  lemma AssembleLast(start: Run, items: seq<Result<Message, Fault>>, i: nat, drain: Drain)
    requires i < |items|
    ensures Assemble(start, items[..i + 1], drain) == Feed(Assemble(start, items[..i], drain), items[i], drain)
  {
    assert items[..i + 1][..i] == items[..i];
  }

  /** The drain loop of `_parse_html_call`: one record per buffered message,
      in buffer order, after the records already yielded. */
  method YieldPending(records: seq<Conversation>, contacts: seq<Contact>, pending: seq<Message>)
    returns (out: seq<Conversation>)
    ensures out == records + Wrap(contacts, pending)
  {
    out := records;
    for j := 0 to |pending|
      invariant out == records + Wrap(contacts, pending[..j])
    {
      assert pending[..j + 1] == pending[..j] + [pending[j]];
      out := out + [Conversation(contacts, pending[j])];
    }
    assert pending[..|pending|] == pending;
  }

  /** `_parse_html_call`. */
  method ParseHtmlCall(page: Page, drain: Drain) returns (out: PageOutput)
    ensures out == ParsePage(page, drain)
  {
    ghost var items := Extracted(page.messages);
    ghost var start := Start(page.participants);
    var participants: Option<seq<Contact>> := None;
    if page.participants.Some? {
      var roster := ParseContactDiv(page.participants.value);
      if roster.Err? {
        FaultPersists(start, items, 0, drain);
        return PageOutput([], Some(roster.error), []);
      }
      participants := Some(roster.value);
    }
    var other: Option<Contact> := None;
    var pending: seq<Message> := [];
    var records: seq<Conversation> := [];
    var log: seq<Warning> := [];
    assert items[..0] == [];
    for i := 0 to |page.messages|
      invariant Assemble(start, items[..i], drain) == Run(State(participants, other, pending), records, None, log)
    {
      AssembleLast(start, items, i, drain);
      var parsed := ParseMessageDiv(page.messages[i]);
      assert items[i] == parsed;
      if parsed.Err? {
        FaultPersists(start, items, i + 1, drain);
        return PageOutput(records, Some(parsed.error), log);
      }
      var message := parsed.value;
      if message.message.NoText? {
        log := log + [EmptyMessage];
      }
      var fault;
      fault, other, pending, records := AcceptMessage(participants, other, pending, records, message, drain);
      if fault.Some? {
        FaultPersists(start, items, i + 1, drain);
        return PageOutput(records, fault, log);
      }
    }
    assert items[..|page.messages|] == items;
    if |pending| != 0 {
      log := log + [UnexpectedPending];
    }
    return PageOutput(records, None, log);
  }

  /** The body of the loop of `_parse_html_call` for one extracted message:
      check the sender, then buffer the message or yield it (after the drained
      buffer). On a fault the other results are the inputs unchanged. */
  method AcceptMessage(participants: Option<seq<Contact>>, other: Option<Contact>, pending: seq<Message>,
                       records: seq<Conversation>, message: Message, drain: Drain)
    returns (fault: Option<Fault>, other': Option<Contact>, pending': seq<Message>, records': seq<Conversation>)
    ensures match Accept(State(participants, other, pending), message, drain)
            case Err(f) => fault == Some(f) && other' == other && pending' == pending && records' == records
            case Ok(s) => fault.None? && s.st == State(participants, other', pending') && records' == records + s.emitted
  {
    fault, other', pending', records' := None, other, pending, records;
    var message := message;
    var conversationParticipants: seq<Contact>;
    if participants.Some? && |participants.value| > 0 {
      if message.contact.tel == PlaceholderTel {
        return Some(PlaceholderInGroup), other, pending, records;
      }
      if !(message.contact in participants.value || message.contact.name == Me) {
        return Some(SenderNotInRoster), other, pending, records;
      }
      conversationParticipants := participants.value;
    } else {
      if other'.Some? {
        if message.contact.tel == PlaceholderTel {
          message := message.(contact := other'.value);
        }
        if !(message.contact == other'.value || message.contact.name == Me) {
          return Some(SenderNotCounterpart), other, pending, records;
        }
      } else if message.contact.name != Me && message.contact.tel != PlaceholderTel {
        other' := Some(message.contact);
      } else {
        pending' := pending' + [message];
        return;
      }
      conversationParticipants := [other'.value];
    }
    if |pending'| > 0 {
      if !DrainAllowed(participants, drain) {
        return Some(PendingWithRoster), other, pending, records;
      }
      if other'.None? {
        return Some(PendingWithoutCounterpart), other, pending, records;
      }
      records' := YieldPending(records', conversationParticipants, pending');
      pending' := [];
    }
    records' := records' + [Conversation(conversationParticipants, message)];
  }

  /** `_parse_image`: a media file becomes a one-record stream whose record is
      keyed by the file's path. */
  function ParseImage(path: string): (r: seq<Result<Jpeg, Fault>>)
    ensures |r| == 1 && r[0].Ok? && r[0].value.Key() == path
  {
    [Ok(Jpeg(path))]
  }
}
