/** What the page assembler of calls.py guarantees: the per-turn rules of the
    three modes (group, direct with the counterpart unknown, direct with the
    counterpart known), the invariant they keep, and whole-page facts about
    attribution, order, loss and faults, including the empty-roster finding. */
module CallsProperties {
  import opened Wrappers
  import opened Models
  import opened Calls

  // ---------------------------------------------------------------------
  // The invariant of the assembler's state

  /** Buffered messages exist only in a direct thread whose counterpart is
      not yet known, and each of them is self-authored; a group thread never
      learns a counterpart. */
  ghost predicate Inv(st: State) {
    && (Truthy(st.participants) ==> st.other.None?)
    && (|st.pending| > 0 ==> !Truthy(st.participants) && st.other.None?)
    && (forall k :: 0 <= k < |st.pending| ==> SelfAuthored(st.pending[k]))
  }

  /** The contacts every record of the thread carries. */
  function ThreadContacts(st: State): seq<Contact> {
    if Truthy(st.participants) then st.participants.value
    else if st.other.Some? then [st.other.value]
    else []
  }

  /** A direct-thread message with a placeholder tel, attributed to the counterpart. */
  function Substitute(m: Message, other: Contact): Message {
    if m.contact.tel == PlaceholderTel then m.(contact := other) else m
  }

  // ---------------------------------------------------------------------
  // One turn in each mode

  /** Group thread: a sender with the placeholder tel is a fault, even one
      named "Me"; otherwise the sender must be on the roster (compared on tel
      and name) or be "Me". An accepted message is emitted at once with the
      whole roster and nothing is buffered. */
  lemma GroupTurn(st: State, m: Message, drain: Drain)
    requires Inv(st) && Truthy(st.participants)
    ensures var r := Accept(st, m, drain);
      && (r.Ok? <==> m.contact.tel != PlaceholderTel && (m.contact in st.participants.value || m.contact.name == Me))
      && (m.contact.tel == PlaceholderTel ==> r == Err(PlaceholderInGroup))
      && (r.Ok? ==> r.value.st == st && r.value.emitted == [Conversation(st.participants.value, m)])
  {
  }

  /** Direct thread, counterpart unknown: a self-authored message is buffered
      and nothing is emitted; any other message becomes the counterpart, and
      the buffer, then the message, are emitted in order with that
      counterpart, emptying the buffer. */
  lemma UnresolvedTurn(st: State, m: Message, drain: Drain)
    requires Inv(st) && !Truthy(st.participants) && st.other.None?
    requires |st.pending| == 0 || DrainAllowed(st.participants, drain)
    ensures SelfAuthored(m) ==>
              Accept(st, m, drain) == Ok(Stepped(st.(pending := st.pending + [m]), []))
    ensures !SelfAuthored(m) ==>
              Accept(st, m, drain) ==
                Ok(Stepped(State(st.participants, Some(m.contact), []), Wrap([m.contact], st.pending + [m])))
  {
    if !SelfAuthored(m) {
      var st' := st.(other := Some(m.contact));
      assert Accept(st, m, drain) == Emit(st', [m.contact], m, drain);
      if |st.pending| == 0 {
        assert st' == State(st.participants, Some(m.contact), []);
        assert Wrap([m.contact], st.pending + [m]) == [Conversation([m.contact], m)];
      } else {
        assert Wrap([m.contact], st.pending) + [Conversation([m.contact], m)] == Wrap([m.contact], st.pending + [m]);
      }
    }
  }

  /** Direct thread, counterpart known: the placeholder tel is replaced by the
      counterpart; the sender must then be the counterpart (tel and name) or
      be "Me"; the message is emitted at once with the counterpart, which
      does not change. */
  lemma ResolvedTurn(st: State, m: Message, drain: Drain)
    requires Inv(st) && !Truthy(st.participants) && st.other.Some?
    ensures var r := Accept(st, m, drain);
      var m' := Substitute(m, st.other.value);
      && (r.Ok? <==> m'.contact == st.other.value || m'.contact.name == Me)
      && (r.Ok? ==> r.value.st == st && r.value.emitted == [Conversation([st.other.value], m')])
  {
  }

  /** Every accepted turn keeps the invariant and the roster, never forgets a
      known counterpart, and gives every emitted record the thread's contacts. */
  lemma AcceptKeepsInv(st: State, m: Message, drain: Drain)
    requires Inv(st)
    requires Accept(st, m, drain).Ok?
    ensures var s := Accept(st, m, drain).value;
      && Inv(s.st)
      && s.st.participants == st.participants
      && (st.other.Some? ==> s.st.other == st.other)
      && (forall k :: 0 <= k < |s.emitted| ==> s.emitted[k].contacts == ThreadContacts(s.st))
      && (|s.emitted| > 0 && !Truthy(st.participants) ==> s.st.other.Some?)
      && (|s.emitted| > 0 && st.other.None? && !Truthy(st.participants) ==> |st.pending| + 1 == |s.emitted|)
  {
  }

  // ---------------------------------------------------------------------
  // Whole page: attribution

  /** The assembler invariant, plus: every record yielded so far carries the
      thread's contacts (the roster, or the counterpart alone), and the only
      warnings logged before the end are empty-message warnings. */
  ghost predicate Attributed(r: Run) {
    && Inv(r.st)
    && (forall k :: 0 <= k < |r.log| ==> r.log[k] == EmptyMessage)
    && (!Truthy(r.st.participants) && |r.records| > 0 ==> r.st.other.Some?)
    && (forall k :: 0 <= k < |r.records| ==> r.records[k].contacts == ThreadContacts(r.st))
  }

  lemma StartAttributed(participants: Option<seq<Citation>>)
    ensures Attributed(Start(participants))
    ensures Start(participants).records == [] && Start(participants).st.pending == []
    ensures Start(participants).st.other.None?
    ensures Start(participants).log == []
  {
  }

  lemma {:induction false} FeedAttributed(r: Run, item: Result<Message, Fault>, drain: Drain)
    requires Attributed(r)
    ensures Attributed(Feed(r, item, drain))
    ensures Feed(r, item, drain).st.participants == r.st.participants
    ensures r.st.other.Some? ==> Feed(r, item, drain).st.other == r.st.other
  {
    if r.fault.None? && item.Ok? && Accept(r.st, item.value, drain).Ok? {
      AcceptKeepsInv(r.st, item.value, drain);
      var s := Accept(r.st, item.value, drain).value;
      var r' := Feed(r, item, drain);
      assert r'.records == r.records + s.emitted;
      forall k | 0 <= k < |r'.records| ensures r'.records[k].contacts == ThreadContacts(r'.st) {
        if k >= |r.records| {
          assert r'.records[k] == s.emitted[k - |r.records|];
        } else {
          assert r'.records[k] == r.records[k];
          assert r.st.other.Some? || Truthy(r.st.participants);
        }
      }
    }
  }

  /** On every page, whatever its fragments and whether or not it ends in a
      fault: the invariant holds, the roster is the one parsed at the start,
      and every yielded record carries the roster (group thread) or exactly
      the counterpart (direct thread). */
  lemma {:induction false} AssembleAttributed(start: Run, items: seq<Result<Message, Fault>>, drain: Drain)
    requires Attributed(start)
    ensures Attributed(Assemble(start, items, drain))
    ensures Assemble(start, items, drain).st.participants == start.st.participants
    decreases |items|
  {
    if |items| > 0 {
      var prev := items[..|items| - 1];
      AssembleAttributed(start, prev, drain);
      FeedAttributed(Assemble(start, prev, drain), items[|items| - 1], drain);
    }
  }

  /** What a page yields, record by record: group pages give the roster,
      direct pages give the counterpart alone. */
  lemma PageAttribution(page: Page, drain: Drain)
    ensures var r := Assemble(Start(page.participants), Extracted(page.messages), drain);
      && (forall k :: 0 <= k < |r.records| ==>
            if Truthy(r.st.participants) then r.records[k].contacts == r.st.participants.value
            else r.st.other.Some? && r.records[k].contacts == [r.st.other.value])
      && (|r.st.pending| > 0 ==> !Truthy(r.st.participants) && r.st.other.None? && |r.records| == 0)
  {
    StartAttributed(page.participants);
    AssembleAttributed(Start(page.participants), Extracted(page.messages), drain);
  }

  // ---------------------------------------------------------------------
  // Whole page: streaming and faults

  /** Reading more fragments only appends: the records already yielded, the
      warnings already logged, the roster and a known counterpart stay as
      they were, and a fault that has occurred remains the outcome. */
  lemma {:induction false} Monotone(start: Run, items: seq<Result<Message, Fault>>, n: nat, drain: Drain)
    requires Attributed(start)
    requires n <= |items|
    ensures var before := Assemble(start, items[..n], drain);
      var after := Assemble(start, items, drain);
      && before.records <= after.records
      && before.log <= after.log
      && after.st.participants == before.st.participants
      && (before.st.other.Some? ==> after.st.other == before.st.other)
      && (before.fault.Some? ==> after == before)
    decreases |items| - n
  {
    if n == |items| {
      assert items[..n] == items;
    } else {
      Monotone(start, items, n + 1, drain);
      AssembleLast(start, items, n, drain);
      AssembleAttributed(start, items[..n], drain);
      FeedAttributed(Assemble(start, items[..n], drain), items[n], drain);
    }
  }

  // ---------------------------------------------------------------------
  // Whole page: every message is accounted for, once, in document order

  /** A message without its sender: what a record keeps of it however the
      sender was attributed. */
  function Content(m: Message): (Instant, Body) {
    (m.dt, m.message)
  }

  function Contents(ms: seq<Message>): (r: seq<(Instant, Body)>)
    ensures |r| == |ms| && forall k :: 0 <= k < |ms| ==> r[k] == Content(ms[k])
  {
    seq(|ms|, k requires 0 <= k < |ms| => Content(ms[k]))
  }

  function Yielded(rs: seq<Conversation>): (r: seq<(Instant, Body)>)
    ensures |r| == |rs| && forall k :: 0 <= k < |rs| ==> r[k] == Content(rs[k].message)
  {
    seq(|rs|, k requires 0 <= k < |rs| => Content(rs[k].message))
  }

  /** The messages of the leading run of successfully extracted fragments. */
  function LeadingOk(items: seq<Result<Message, Fault>>): (r: seq<Message>)
    ensures |r| <= |items|
    ensures forall k :: 0 <= k < |r| ==> items[k] == Ok(r[k])
    ensures |r| < |items| ==> items[|r|].Err?
    decreases |items|
  {
    if |items| == 0 then []
    else
      var p := LeadingOk(items[..|items| - 1]);
      if |p| == |items| - 1 && items[|items| - 1].Ok? then p + [items[|items| - 1].value] else p
  }

  /** In an accepted turn, what is emitted followed by what stays buffered is
      what was buffered followed by the new message. */
  lemma AcceptAccounts(st: State, m: Message, drain: Drain)
    requires Inv(st)
    requires Accept(st, m, drain).Ok?
    ensures var s := Accept(st, m, drain).value;
      Yielded(s.emitted) + Contents(s.st.pending) == Contents(st.pending) + [Content(m)]
  {
  }

  lemma ContentsAppend(a: seq<Message>, b: seq<Message>)
    ensures Contents(a + b) == Contents(a) + Contents(b)
  {
  }

  lemma YieldedAppend(a: seq<Conversation>, b: seq<Conversation>)
    ensures Yielded(a + b) == Yielded(a) + Yielded(b)
  {
  }

  lemma ContentsPrefix(a: seq<Message>, b: seq<Message>)
    requires a <= b
    ensures Contents(a) <= Contents(b)
  {
    assert b == a + b[|a|..];
    ContentsAppend(a, b[|a|..]);
  }

  /** One fragment keeps the accounting: a run without a fault whose yielded
      and buffered messages are `lo` moves to `lo` plus the new message, or
      stops with a fault and keeps what it had. */
  lemma FeedAccounts(r: Run, lo: seq<Message>, x: Result<Message, Fault>, drain: Drain)
    requires Inv(r.st)
    requires r.fault.None? ==> Yielded(r.records) + Contents(r.st.pending) == Contents(lo)
    requires r.fault.Some? ==> Yielded(r.records) + Contents(r.st.pending) <= Contents(lo)
    ensures var r' := Feed(r, x, drain);
      && (r'.fault.None? ==> r.fault.None? && x.Ok? &&
                             Yielded(r'.records) + Contents(r'.st.pending) == Contents(lo + [x.value]))
      && (r'.fault.Some? ==> Yielded(r'.records) + Contents(r'.st.pending) <= Contents(lo))
  {
    var r' := Feed(r, x, drain);
    if r'.fault.None? {
      var s := Accept(r.st, x.value, drain).value;
      AcceptAccounts(r.st, x.value, drain);
      YieldedAppend(r.records, s.emitted);
      ContentsAppend(lo, [x.value]);
    }
  }

  /** No message is yielded twice or out of order, and none is invented: up to
      the end of the page (or up to the fault), the yielded records followed by
      the still buffered messages are exactly the extracted messages, in
      document order, senders aside. On a page without a fault every fragment
      was extracted; on a page with one, what was yielded and buffered is a
      prefix of the messages extracted before the first extraction failure. */
  lemma {:induction false} Accounting(start: Run, items: seq<Result<Message, Fault>>, drain: Drain)
    requires Attributed(start) && start.fault.None? && start.records == [] && start.st.pending == []
    ensures var r := Assemble(start, items, drain);
      && (r.fault.None? ==> |LeadingOk(items)| == |items| &&
                            Yielded(r.records) + Contents(r.st.pending) == Contents(LeadingOk(items)))
      && (r.fault.Some? ==> Yielded(r.records) + Contents(r.st.pending) <= Contents(LeadingOk(items)))
    decreases |items|
  {
    if |items| > 0 {
      var prev := items[..|items| - 1];
      var x := items[|items| - 1];
      var r := Assemble(start, prev, drain);
      Accounting(start, prev, drain);
      AssembleAttributed(start, prev, drain);
      FeedAccounts(r, LeadingOk(prev), x, drain);
      ContentsPrefix(LeadingOk(prev), LeadingOk(items));
    }
  }

  /** The same at page level: a page without a fault yields, senders aside,
      exactly its messages in document order except the self-authored ones
      still buffered at the end, which are never yielded; the end-of-page
      warning is logged exactly when such messages remain. */
  lemma PageAccounting(page: Page, drain: Drain)
    ensures var r := Assemble(Start(page.participants), Extracted(page.messages), drain);
      var out := ParsePage(page, drain);
      && out.records == r.records
      && (out.fault.None? ==>
            && (forall k :: 0 <= k < |page.messages| ==> MessageOf(page.messages[k]).Ok?)
            && Yielded(out.records) + Contents(r.st.pending) == Contents(LeadingOk(Extracted(page.messages)))
            && (UnexpectedPending in out.log <==> |r.st.pending| > 0))
      && (out.fault.Some? ==>
            Yielded(out.records) <= Contents(LeadingOk(Extracted(page.messages))) && UnexpectedPending !in out.log)
  {
    var start := Start(page.participants);
    var items := Extracted(page.messages);
    var r := Assemble(start, items, drain);
    StartAttributed(page.participants);
    AssembleAttributed(start, items, drain);
    if start.fault.Some? {
      assert items[..0] == [];
      FaultPersists(start, items, 0, drain);
      return;
    }
    Accounting(start, items, drain);
    assert UnexpectedPending !in r.log;
    if r.fault.None? {
      forall k | 0 <= k < |page.messages| ensures MessageOf(page.messages[k]).Ok? {
        assert items[k] == Ok(LeadingOk(items)[k]);
      }
    } else {
      assert Yielded(r.records) <= Yielded(r.records) + Contents(r.st.pending);
    }
  }

  /** All records of one page carry the same contacts, and so the same key. */
  lemma PageRecordsShareKey(page: Page, drain: Drain)
    ensures var out := ParsePage(page, drain);
      forall i, j :: 0 <= i < |out.records| && 0 <= j < |out.records| ==>
        out.records[i].Key() == out.records[j].Key()
  {
    PageAttribution(page, drain);
  }

  /** The number of messages with neither text nor images. */
  function EmptyCount(ms: seq<Message>): nat
    decreases |ms|
  {
    if |ms| == 0 then 0
    else EmptyCount(ms[..|ms| - 1]) + (if ms[|ms| - 1].message.NoText? then 1 else 0)
  }

  /** On a page without a fault, one empty-message warning is logged per
      message with neither text nor images, and nothing else before the end. */
  lemma {:induction false} EmptyWarnings(start: Run, items: seq<Result<Message, Fault>>, drain: Drain)
    requires start.fault.None? && start.log == []
    ensures var r := Assemble(start, items, drain);
      r.fault.None? ==> |LeadingOk(items)| == |items| && |r.log| == EmptyCount(LeadingOk(items))
    decreases |items|
  {
    if |items| > 0 {
      var prev := items[..|items| - 1];
      EmptyWarnings(start, prev, drain);
      var r := Assemble(start, items, drain);
      if r.fault.None? {
        var lo := LeadingOk(items);
        assert lo[..|lo| - 1] == LeadingOk(prev);
      }
    }
  }

  // ---------------------------------------------------------------------
  // Pages built from given messages

  /** Every extraction succeeded, with these messages. */
  function Oks(ms: seq<Message>): (r: seq<Result<Message, Fault>>)
    ensures |r| == |ms| && forall k :: 0 <= k < |ms| ==> r[k] == Ok(ms[k])
  {
    seq(|ms|, k requires 0 <= k < |ms| => Ok(ms[k]))
  }

  lemma OksPrefix(ms: seq<Message>, n: nat)
    requires n <= |ms|
    ensures Oks(ms)[..n] == Oks(ms[..n])
  {
  }

  /** The blank run of a page with the given roster. */
  function Fresh(participants: Option<seq<Contact>>): Run {
    Run(State(participants, None, []), [], None, [])
  }

  predicate GroupValid(roster: seq<Contact>, m: Message) {
    m.contact.tel != PlaceholderTel && (m.contact in roster || m.contact.name == Me)
  }

  /** A group page whose senders are all acceptable yields every message,
      unchanged and in order, with the whole roster. */
  lemma {:induction false} GroupPage(roster: seq<Contact>, ms: seq<Message>, drain: Drain)
    requires |roster| > 0
    requires forall k :: 0 <= k < |ms| ==> GroupValid(roster, ms[k])
    ensures var r := Assemble(Fresh(Some(roster)), Oks(ms), drain);
      r.fault.None? && r.records == Wrap(roster, ms) && r.st == Fresh(Some(roster)).st
    decreases |ms|
  {
    if |ms| > 0 {
      var prev := ms[..|ms| - 1];
      GroupPage(roster, prev, drain);
      OksPrefix(ms, |ms| - 1);
      assert Wrap(roster, prev) + [Conversation(roster, ms[|ms| - 1])] == Wrap(roster, ms);
    }
  }

  /** On a group page, the first message whose sender is not acceptable
      raises the fault: the messages before it are yielded with the roster,
      nothing after it is. */
  lemma GroupPageStops(roster: seq<Contact>, ms: seq<Message>, n: nat, drain: Drain)
    requires |roster| > 0
    requires n < |ms|
    requires forall k :: 0 <= k < n ==> GroupValid(roster, ms[k])
    requires !GroupValid(roster, ms[n])
    ensures var r := Assemble(Fresh(Some(roster)), Oks(ms), drain);
      && r.fault == Some(if ms[n].contact.tel == PlaceholderTel then PlaceholderInGroup else SenderNotInRoster)
      && r.records == Wrap(roster, ms[..n])
  {
    var start := Fresh(Some(roster));
    GroupPage(roster, ms[..n], drain);
    OksPrefix(ms, n);
    OksPrefix(ms, n + 1);
    AssembleLast(start, Oks(ms), n, drain);
    FaultPersists(start, Oks(ms), n + 1, drain);
  }

  /** A direct page of self-authored messages buffers them all and yields
      nothing; at the end of the page they are dropped with one warning. */
  lemma {:induction false} Buffering(participants: Option<seq<Contact>>, selfs: seq<Message>, drain: Drain)
    requires !Truthy(participants)
    requires forall k :: 0 <= k < |selfs| ==> SelfAuthored(selfs[k])
    ensures var r := Assemble(Fresh(participants), Oks(selfs), drain);
      && r.fault.None? && r.records == [] && r.st == State(participants, None, selfs)
      && (|selfs| > 0 ==> Finish(r) == PageOutput([], None, r.log + [UnexpectedPending]))
      && UnexpectedPending !in r.log
    decreases |selfs|
  {
    var r := Assemble(Fresh(participants), Oks(selfs), drain);
    if |selfs| > 0 {
      var prev := selfs[..|selfs| - 1];
      Buffering(participants, prev, drain);
      OksPrefix(selfs, |selfs| - 1);
      assert prev + [selfs[|selfs| - 1]] == selfs;
    }
    AssembleAttributed(Fresh(participants), Oks(selfs), drain);
  }

  /** Direct page, messages 1..k self-authored and message k+1 not: exactly
      k+1 records, in document order, all with the sender of message k+1 as
      the counterpart, and nothing left buffered. This holds whenever the
      drain check lets the buffer out: always with the intended check, and
      with the check as written when the page has no participants block. */
  lemma DrainScenario(participants: Option<seq<Contact>>, selfs: seq<Message>, o: Message, drain: Drain)
    requires !Truthy(participants) && DrainAllowed(participants, drain)
    requires forall k :: 0 <= k < |selfs| ==> SelfAuthored(selfs[k])
    requires !SelfAuthored(o)
    ensures var r := Assemble(Fresh(participants), Oks(selfs + [o]), drain);
      && r.fault.None?
      && r.records == Wrap([o.contact], selfs + [o])
      && r.st == State(participants, Some(o.contact), [])
  {
    var ms := selfs + [o];
    Buffering(participants, selfs, drain);
    OksPrefix(ms, |selfs|);
    assert ms[..|selfs|] == selfs;
    var r := Assemble(Fresh(participants), Oks(selfs), drain);
    UnresolvedTurn(r.st, o, drain);
    assert r.records + Wrap([o.contact], selfs + [o]) == Wrap([o.contact], selfs + [o]);
  }

  // ---------------------------------------------------------------------
  // The drain check at calls.py:110-114

  /** One turn never fails the counterpart check, and fails the roster check
      only as written and only when the roster lists no one. */
  lemma AcceptDrainFaults(st: State, m: Message, drain: Drain)
    requires Inv(st)
    ensures Accept(st, m, drain) != Err(PendingWithoutCounterpart)
    ensures Accept(st, m, drain) == Err(PendingWithRoster) ==> drain == AsWritten && st.participants == Some([])
  {
    if Accept(st, m, drain) == Err(PendingWithRoster) {
      assert st.participants.Some? && |st.participants.value| == 0;
    }
  }

  /** The faults extraction can raise: those of the citations, the timestamp,
      the `q` element and the images, never one of the assembler's. */
  predicate ExtractionFault(f: Fault) {
    f.NoTelLink? || f.NoHref? || f.SenderCount? || f.NoTimestamp? || f.NoTitle? ||
    f.MalformedTimestamp? || f.NoQuote? || f.NoImageSrc? || f.EmptyImageSrc?
  }

  lemma ExtractedFaults(frags: seq<Fragment>)
    ensures forall k :: 0 <= k < |frags| && Extracted(frags)[k].Err? ==> ExtractionFault(Extracted(frags)[k].error)
  {
    forall k | 0 <= k < |frags| && Extracted(frags)[k].Err? ensures ExtractionFault(Extracted(frags)[k].error) {
      var f := frags[k];
      if ContactsOf(f.senders).Err? {
        var j :| 0 <= j < |f.senders| && !WellFormed(f.senders[j]) &&
                 ContactsOf(f.senders).error == CitationFault(f.senders[j]);
      } else if SourcesOf(f.images).Err? {
        var j :| 0 <= j < |f.images| && !GoodImg(f.images[j]) && SourcesOf(f.images).error == ImgFault(f.images[j]);
      }
    }
  }

  /** A run whose drain check fails with the roster fault: with the intended
      check this never happens, and with the check as written only when the
      roster lists no one. The check that a counterpart is known never fails. */
  lemma {:induction false} DrainFaults(start: Run, items: seq<Result<Message, Fault>>, drain: Drain)
    requires Attributed(start) && (start.fault.None? || ExtractionFault(start.fault.value))
    requires forall k :: 0 <= k < |items| && items[k].Err? ==> ExtractionFault(items[k].error)
    ensures var r := Assemble(start, items, drain);
      && r.fault != Some(PendingWithoutCounterpart)
      && (r.fault == Some(PendingWithRoster) ==> drain == AsWritten && start.st.participants == Some([]))
    decreases |items|
  {
    if |items| > 0 {
      var prev := items[..|items| - 1];
      var r := Assemble(start, prev, drain);
      DrainFaults(start, prev, drain);
      AssembleAttributed(start, prev, drain);
      if r.fault.None? && items[|items| - 1].Ok? {
        AcceptDrainFaults(r.st, items[|items| - 1].value, drain);
      }
    }
  }

  /** On every page, the check of calls.py:114 never fails; the check of
      calls.py:112 fails only as written, and only on a page whose
      participants block lists no one. */
  lemma PageDrainFaults(page: Page, drain: Drain)
    ensures ParsePage(page, drain).fault != Some(PendingWithoutCounterpart)
    ensures ParsePage(page, drain).fault == Some(PendingWithRoster) ==>
              drain == AsWritten && page.participants.Some? && ContactsOf(page.participants.value) == Ok([])
  {
    StartAttributed(page.participants);
    ExtractedFaults(page.messages);
    var start := Start(page.participants);
    if start.fault.Some? {
      var cites := page.participants.value;
      var j :| 0 <= j < |cites| && !WellFormed(cites[j]) && ContactsOf(cites).error == CitationFault(cites[j]);
    }
    DrainFaults(start, Extracted(page.messages), drain);
  }

  /** The page that shows the finding, with the check as written: a
      participants block that lists no one, a self-authored message, then a
      message from the counterpart. The same messages on a page without the
      participants block yield two records; here the drain raises a fault
      and nothing is yielded. */
  lemma EmptyRosterDrainAsWritten(me: Message, o: Message)
    requires SelfAuthored(me) && !SelfAuthored(o)
    ensures ContactsOf([]) == Ok([])
    ensures var r := Assemble(Start(Some([])), Oks([me, o]), AsWritten);
      r.fault == Some(PendingWithRoster) && r.records == []
    ensures var r := Assemble(Start(None), Oks([me, o]), AsWritten);
      r.fault.None? && r.records == [Conversation([o.contact], me), Conversation([o.contact], o)]
  {
    var start := Start(Some([]));
    assert start == Fresh(Some([]));
    var items := Oks([me, o]);
    assert items[..1] == [Ok(me)] && items[..1][..0] == [];
    var r0 := Assemble(start, items[..1][..0], AsWritten);
    assert r0 == start;
    var r1 := Assemble(start, items[..1], AsWritten);
    assert r1 == Feed(r0, Ok(me), AsWritten);
    assert r1.st == State(Some([]), None, [me]) && r1.records == [] && r1.fault.None?;
    assert Assemble(start, items, AsWritten) == Feed(r1, Ok(o), AsWritten);
    assert Accept(r1.st, o, AsWritten) == Err(PendingWithRoster);
    DrainScenario(None, [me], o, AsWritten);
    assert [me] + [o] == [me, o];
  }

  /** The same run with its roster forgotten. */
  function ForgetRoster(r: Run): Run {
    r.(st := r.st.(participants := None))
  }

  /** With the intended check, a participants block that lists no one makes
      no difference: the page runs exactly as a page without that block. */
  lemma {:induction false} EmptyRosterIsDirect(items: seq<Result<Message, Fault>>)
    ensures ForgetRoster(Assemble(Fresh(Some([])), items, Intended)) == Assemble(Fresh(None), items, Intended)
    decreases |items|
  {
    if |items| > 0 {
      var prev := items[..|items| - 1];
      EmptyRosterIsDirect(prev);
      AssembleAttributed(Fresh(Some([])), prev, Intended);
      AssembleAttributed(Fresh(None), prev, Intended);
    }
  }
}
