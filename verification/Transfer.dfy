/** Zone transfers as streams of records, and the secondary that reads them: transfer.go,
    section 2.2 of RFC 5936 and section 4 of RFC 1995. */
module Transfer {
  import opened Wrappers
  import opened Collections
  import opened Strings
  import opened Values
  import opened Dns
  import opened Records
  import opened Store
  import opened Update
  import opened Batch
  import Journal

  const MAX_BYTES := 0x1_0000

  // ---------- what the server sends ----------

  /** What one write looks like in an incremental reply: the serial it started from, what it took away, the serial it
      led to, and what it put there. */
  function Difference(cfg: Config, d: Delta): seq<RR> {
    [Soa(cfg, Dec(d.serial))] + d.removed + [Soa(cfg, d.serial)] + d.added
  }

  function Differences(cfg: Config, deltas: seq<Delta>): seq<RR> {
    if deltas == [] then [] else Difference(cfg, deltas[0]) + Differences(cfg, deltas[1..])
  }

  function DifferenceMessages(cfg: Config, deltas: seq<Delta>): seq<seq<RR>> {
    if deltas == [] then []
    else DifferenceMessages(cfg, deltas[..|deltas| - 1]) +
         Batches(cfg.size, MAX_BYTES, Difference(cfg, deltas[|deltas| - 1]))
  }

  function PageRRs(cfg: Config, page: seq<Entry>): seq<RR> {
    if page == [] then []
    else PageRRs(cfg, page[..|page| - 1]) + Rendering(cfg, page[|page| - 1].key, page[|page| - 1].item)
  }

  /** The messages of a reply, by their answer sections. */
  datatype Reply = Refusal | Answers(msgs: seq<seq<RR>>)

  /** streamZone over TCP: a replay of deltas, or with none a full transfer of the listed items. */
  function Stream(cfg: Config, serial: uint32, page: seq<Entry>, deltas: Option<seq<Delta>>): Reply {
    if deltas.None? && !cfg.enumerable then Refusal
    else
      var body := if deltas.Some? then DifferenceMessages(cfg, deltas.value)
                  else Batches(cfg.size, MAX_BYTES, PageRRs(cfg, page));
      Answers([[Soa(cfg, serial)]] + body + [[Soa(cfg, serial)]])
  }

  datatype TransferRequest = TransferRequest(qname: Str, authority: seq<RR>, tcp: bool)

  /** handleIXFR. */
  function IxfrReply(cfg: Config, st: Primary, page: seq<Entry>, req: TransferRequest): Reply {
    if |req.authority| != 1 || !req.authority[0].SOA? || !EqualFold(req.qname, cfg.zone) then Refusal
    else if req.authority[0].serial >= st.serial || !req.tcp then Answers([[Soa(cfg, st.serial)]])
    else
      var deltas := if st.journal.None? then None else Journal.Since(st.journal.value, req.authority[0].serial);
      Stream(cfg, st.serial, page, deltas)
  }

  /** handleAXFR. */
  function AxfrReply(cfg: Config, st: Primary, page: seq<Entry>, req: TransferRequest): Reply {
    if !EqualFold(req.qname, cfg.zone) || !req.tcp then Refusal else Stream(cfg, st.serial, page, None)
  }

  // ---------- what a secondary makes of it ----------

  datatype DiffSequence = DiffSequence(from: uint32, removed: seq<RR>, to: uint32, added: seq<RR>)

  datatype Content = UpToDate | Incremental(diffs: seq<DiffSequence>) | Full(rrs: seq<RR>)

  /** A reply read off the front of a stream: its serial, its content, and whatever follows it. */
  datatype Parsed = Parsed(serial: uint32, content: Content, rest: seq<RR>)

  /** The records before the next SOA, and what starts there. */
  function UpToSoa(s: seq<RR>): seq<RR> {
    if s == [] || s[0].SOA? then [] else [s[0]] + UpToSoa(s[1..])
  }

  function FromSoa(s: seq<RR>): (r: seq<RR>)
    ensures |r| <= |s|
    ensures r != [] ==> r[0].SOA?
  {
    if s == [] || s[0].SOA? then s else FromSoa(s[1..])
  }

  /** Difference sequences from serial `at` until `goal` has been reached and its closing SOA read. */
  function ParseDiffs(at: uint32, goal: uint32, s: seq<RR>): Option<(seq<DiffSequence>, seq<RR>)>
    decreases |s|
  {
    if s == [] || !s[0].SOA? || s[0].serial != at then None
    else if at == goal then Some(([], s[1..]))
    else
      var s1 := FromSoa(s[1..]);
      if s1 == [] then None
      else
        var diff := DiffSequence(at, UpToSoa(s[1..]), s1[0].serial, UpToSoa(s1[1..]));
        Cons(diff, ParseDiffs(s1[0].serial, goal, FromSoa(s1[1..])))
  }

  function Cons(diff: DiffSequence, rest: Option<(seq<DiffSequence>, seq<RR>)>): Option<(seq<DiffSequence>, seq<RR>)> {
    if rest.None? then None else Some(([diff] + rest.value.0, rest.value.1))
  }

  /** Reading a TCP IXFR reply with one's own serial at hand, without being told where it ends. */
  function ParseReply(own: uint32, s: seq<RR>): Option<Parsed> {
    if s == [] || !s[0].SOA? then None
    else
      var goal := s[0].serial;
      if goal <= own then Some(Parsed(goal, UpToDate, s[1..]))
      else if |s| >= 2 && s[1].SOA? && s[1].serial != goal then
        var diffs := ParseDiffs(own, goal, s[1..]);
        if diffs.None? then None else Some(Parsed(goal, Incremental(diffs.value.0), diffs.value.1))
      else
        var end := FromSoa(s[1..]);
        if end != [] && end[0].serial == goal then Some(Parsed(goal, Full(UpToSoa(s[1..])), end[1..])) else None
  }

  function Elements(rrs: seq<RR>): set<RR> {
    set i | 0 <= i < |rrs| :: rrs[i]
  }

  /** One delta applied to a zone: deletions first. */
  function ApplyDelta(zone: set<RR>, removed: seq<RR>, added: seq<RR>): set<RR> {
    (zone - Elements(removed)) + Elements(added)
  }

  function ApplyDiffs(zone: set<RR>, diffs: seq<DiffSequence>): set<RR> {
    if diffs == [] then zone
    else ApplyDelta(ApplyDiffs(zone, diffs[..|diffs| - 1]), diffs[|diffs| - 1].removed, diffs[|diffs| - 1].added)
  }

  datatype Replica = Replica(serial: uint32, zone: set<RR>)

  function Receive(own: Replica, s: seq<RR>): Option<Replica> {
    var p := ParseReply(own.serial, s);
    if p.None? then None
    else
      Some(match p.value.content
           case UpToDate => own
           case Incremental(diffs) => Replica(p.value.serial, ApplyDiffs(own.zone, diffs))
           case Full(rrs) => Replica(p.value.serial, Elements(rrs)))
  }

  // ---------- framing ----------

  predicate NoSoa(rrs: seq<RR>) {
    forall i :: 0 <= i < |rrs| ==> !rrs[i].SOA?
  }

  predicate PlainDelta(d: Delta) {
    NoSoa(d.removed) && NoSoa(d.added)
  }

  function DiffOf(d: Delta): DiffSequence {
    DiffSequence(Dec(d.serial), d.removed, d.serial, d.added)
  }

  function DiffsOf(deltas: seq<Delta>): seq<DiffSequence> {
    if deltas == [] then [] else [DiffOf(deltas[0])] + DiffsOf(deltas[1..])
  }

  lemma {:induction false} SplitAtSoa(a: seq<RR>, s: seq<RR>)
    requires NoSoa(a) && s != [] && s[0].SOA?
    ensures UpToSoa(a + s) == a && FromSoa(a + s) == s
  {
    if a == [] {
      assert a + s == s;
    } else {
      SplitAtSoa(a[1..], s);
      assert (a + s)[1..] == a[1..] + s;
    }
  }

  lemma Tail(x: RR, s: seq<RR>)
    ensures ([x] + s)[1..] == s
  {
  }

  lemma StreamThen(soa: RR, body: seq<RR>, tail: seq<RR>)
    ensures [soa] + body + [soa] + tail == [soa] + (body + [soa] + tail)
  {
  }

  function DifferenceThen(cfg: Config, d: Delta, next: seq<RR>): seq<RR> {
    [Soa(cfg, Dec(d.serial))] + (d.removed + ([Soa(cfg, d.serial)] + (d.added + next)))
  }

  /** Difference sequences, the closing SOA, and whatever follows. */
  function ReplayThen(cfg: Config, goal: uint32, deltas: seq<Delta>, tail: seq<RR>): (s: seq<RR>)
    ensures s != [] && s[0].SOA?
  {
    if deltas == [] then [Soa(cfg, goal)] + tail
    else DifferenceThen(cfg, deltas[0], ReplayThen(cfg, goal, deltas[1..], tail))
  }

  lemma {:induction false} ReplayThenIs(cfg: Config, goal: uint32, deltas: seq<Delta>, tail: seq<RR>)
    ensures ReplayThen(cfg, goal, deltas, tail) == Differences(cfg, deltas) + [Soa(cfg, goal)] + tail
  {
    if deltas != [] {
      var next := ReplayThen(cfg, goal, deltas[1..], tail);
      ReplayThenIs(cfg, goal, deltas[1..], tail);
      assert DifferenceThen(cfg, deltas[0], next) == Difference(cfg, deltas[0]) + next;
    }
  }

  lemma ParseOneDiff(cfg: Config, at: uint32, goal: uint32, d: Delta, next: seq<RR>)
    requires at < goal && d.serial == at + 1 && PlainDelta(d) && next != [] && next[0].SOA?
    ensures ParseDiffs(at, goal, DifferenceThen(cfg, d, next)) == Cons(DiffOf(d), ParseDiffs(at + 1, goal, next))
  {
    var addedThen := d.added + next;
    var newThen := [Soa(cfg, d.serial)] + addedThen;
    Tail(Soa(cfg, at), d.removed + newThen);
    SplitAtSoa(d.removed, newThen);
    Tail(Soa(cfg, d.serial), addedThen);
    SplitAtSoa(d.added, next);
  }

  lemma ConsecutiveTail(at: nat, deltas: seq<Delta>)
    requires Journal.Consecutive(at, deltas) && deltas != []
    ensures Journal.Consecutive(at + 1, deltas[1..]) && deltas[0].serial == at + 1
  {
  }

  /** Parsing the difference sequences of consecutive deltas gives them back, and stops exactly at their end. */
  lemma {:induction false} DiffsRoundTrip(cfg: Config, at: uint32, goal: uint32, deltas: seq<Delta>, tail: seq<RR>)
    requires at + |deltas| == goal && Journal.Consecutive(at, deltas)
    requires forall i :: 0 <= i < |deltas| ==> PlainDelta(deltas[i])
    ensures ParseDiffs(at, goal, ReplayThen(cfg, goal, deltas, tail)) == Some((DiffsOf(deltas), tail))
    decreases |deltas|
  {
    if deltas == [] {
      Tail(Soa(cfg, at), tail);
    } else {
      ConsecutiveTail(at, deltas);
      DiffsRoundTrip(cfg, at + 1, goal, deltas[1..], tail);
      ParseOneDiff(cfg, at, goal, deltas[0], ReplayThen(cfg, goal, deltas[1..], tail));
    }
  }

  // ---------- whole replies ----------

  lemma {:induction false} DifferencesSnoc(cfg: Config, deltas: seq<Delta>, d: Delta)
    ensures Differences(cfg, deltas + [d]) == Differences(cfg, deltas) + Difference(cfg, d)
  {
    if deltas == [] {
      assert [d][1..] == [];
    } else {
      DifferencesSnoc(cfg, deltas[1..], d);
      assert (deltas + [d])[1..] == deltas[1..] + [d];
    }
  }

  lemma {:induction false} DifferenceMessagesHold(cfg: Config, deltas: seq<Delta>)
    ensures Concat(DifferenceMessages(cfg, deltas)) == Differences(cfg, deltas)
    ensures GoodParts(cfg.size, MAX_BYTES, DifferenceMessages(cfg, deltas))
  {
    if deltas != [] {
      var init, d := deltas[..|deltas| - 1], deltas[|deltas| - 1];
      DifferenceMessagesHold(cfg, init);
      BatchesSplit(cfg.size, MAX_BYTES, Difference(cfg, d));
      ConcatAppend(DifferenceMessages(cfg, init), Batches(cfg.size, MAX_BYTES, Difference(cfg, d)));
      DifferencesSnoc(cfg, init, d);
      assert init + [d] == deltas;
    }
  }

  /** The stream of records a transfer consists of, whatever its messages. */
  function StreamRRs(cfg: Config, serial: uint32, page: seq<Entry>, deltas: Option<seq<Delta>>): seq<RR> {
    [Soa(cfg, serial)] +
    (if deltas.Some? then Differences(cfg, deltas.value) else PageRRs(cfg, page)) +
    [Soa(cfg, serial)]
  }

  /** The messages of a transfer hold exactly its stream, none is empty and all are within both limits. */
  lemma StreamHolds(cfg: Config, serial: uint32, page: seq<Entry>, deltas: Option<seq<Delta>>)
    requires Stream(cfg, serial, page, deltas).Answers?
    ensures var msgs := Stream(cfg, serial, page, deltas).msgs;
            && Concat(msgs) == StreamRRs(cfg, serial, page, deltas)
            && GoodParts(cfg.size, MAX_BYTES, msgs)
  {
    var soa := [Soa(cfg, serial)];
    var body := if deltas.Some? then DifferenceMessages(cfg, deltas.value)
                else Batches(cfg.size, MAX_BYTES, PageRRs(cfg, page));
    if deltas.Some? {
      DifferenceMessagesHold(cfg, deltas.value);
    } else {
      BatchesSplit(cfg.size, MAX_BYTES, PageRRs(cfg, page));
    }
    assert [soa] + body + [soa] == [soa] + (body + [soa]);
    ConcatAppend([soa], body + [soa]);
    ConcatSnoc(body, soa);
    assert Concat([soa]) == soa;
  }

  lemma ParseReplay(own: uint32, goal: uint32, s: seq<RR>, diffs: seq<DiffSequence>, rest: seq<RR>, open: RR)
    requires own < goal && open.SOA? && open.serial == goal && s != [] && s[0].SOA? && s[0].serial == own
    requires ParseDiffs(own, goal, s) == Some((diffs, rest))
    ensures ParseReply(own, [open] + s) == Some(Parsed(goal, Incremental(diffs), rest))
  {
    Tail(open, s);
  }

  /** Framing round trip: however an incremental stream is cut into messages, and whatever follows it,
      the receiver recovers exactly the deltas and stops exactly at the end. */
  lemma FramingRoundTrip(cfg: Config, own: uint32, goal: uint32, deltas: seq<Delta>, msgs: seq<seq<RR>>, tail: seq<RR>)
    requires own < goal && own + |deltas| == goal && Journal.Consecutive(own, deltas)
    requires forall i :: 0 <= i < |deltas| ==> PlainDelta(deltas[i])
    requires Concat(msgs) == [Soa(cfg, goal)] + Differences(cfg, deltas) + [Soa(cfg, goal)]
    ensures ParseReply(own, Concat(msgs) + tail) == Some(Parsed(goal, Incremental(DiffsOf(deltas)), tail))
  {
    var s := ReplayThen(cfg, goal, deltas, tail);
    ReplayThenIs(cfg, goal, deltas, tail);
    StreamThen(Soa(cfg, goal), Differences(cfg, deltas), tail);
    ConsecutiveTail(own, deltas);
    assert s[0] == Soa(cfg, own);
    DiffsRoundTrip(cfg, own, goal, deltas, tail);
    ParseReplay(own, goal, s, DiffsOf(deltas), tail, Soa(cfg, goal));
  }

  /** A full stream is recognised as one, with or without items, and stops exactly at its end. */
  lemma FullRoundTrip(cfg: Config, own: uint32, goal: uint32, rrs: seq<RR>, msgs: seq<seq<RR>>, tail: seq<RR>)
    requires own < goal && NoSoa(rrs)
    requires Concat(msgs) == [Soa(cfg, goal)] + rrs + [Soa(cfg, goal)]
    ensures ParseReply(own, Concat(msgs) + tail) == Some(Parsed(goal, Full(rrs), tail))
  {
    var close := [Soa(cfg, goal)] + tail;
    StreamThen(Soa(cfg, goal), rrs, tail);
    Associative(rrs, [Soa(cfg, goal)], tail);
    Tail(Soa(cfg, goal), rrs + close);
    SplitAtSoa(rrs, close);
    Tail(Soa(cfg, goal), tail);
    assert (rrs + close)[0] == if rrs == [] then Soa(cfg, goal) else rrs[0];
  }

  lemma {:induction false} PageRRsNoSoa(cfg: Config, page: seq<Entry>)
    ensures NoSoa(PageRRs(cfg, page))
    ensures forall r :: r in PageRRs(cfg, page) <==>
                        exists i :: 0 <= i < |page| && r in Rendering(cfg, page[i].key, page[i].item)
  {
    if page != [] {
      var init, last := page[..|page| - 1], page[|page| - 1];
      PageRRsNoSoa(cfg, init);
      forall r
        ensures r in PageRRs(cfg, page) <==>
                exists i :: 0 <= i < |page| && r in Rendering(cfg, page[i].key, page[i].item)
      {
        if r in PageRRs(cfg, init) {
          var i :| 0 <= i < |init| && r in Rendering(cfg, init[i].key, init[i].item);
          assert page[i] == init[i];
        }
        if i :| 0 <= i < |page| && r in Rendering(cfg, page[i].key, page[i].item) {
          assert i < |init| ==> init[i] == page[i];
        }
      }
    }
  }

  /** A full transfer carries exactly the zone. */
  lemma PageIsZone(cfg: Config, items: map<Str, Item>, page: seq<Entry>)
    requires IsListing(items, page)
    ensures Elements(PageRRs(cfg, page)) == ZoneRRs(cfg, items)
  {
    PageRRsNoSoa(cfg, page);
    forall r
      ensures r in Elements(PageRRs(cfg, page)) <==> r in ZoneRRs(cfg, items)
    {
      assert r in Elements(PageRRs(cfg, page)) <==> r in PageRRs(cfg, page);
      if r in ZoneRRs(cfg, items) {
        var k :| k in items && r in Rendering(cfg, k, items[k]);
        assert k in Keys(page);
        var i :| 0 <= i < |page| && Keys(page)[i] == k;
        assert page[i].key == k;
      }
    }
  }

  /** Reading an AXFR reply: the records from one SOA up to its repetition, and what follows. */
  function ReceiveAxfr(s: seq<RR>): Option<(Replica, seq<RR>)> {
    if s == [] || !s[0].SOA? then None
    else
      var end := FromSoa(s[1..]);
      if end == [] || end[0] != s[0] then None
      else Some((Replica(s[0].serial, Elements(UpToSoa(s[1..]))), end[1..]))
  }

  lemma AxfrStreamReads(cfg: Config, serial: uint32, rrs: seq<RR>, tail: seq<RR>)
    requires NoSoa(rrs)
    ensures ReceiveAxfr([Soa(cfg, serial)] + rrs + [Soa(cfg, serial)] + tail)
            == Some((Replica(serial, Elements(rrs)), tail))
  {
    var soa := Soa(cfg, serial);
    StreamThen(soa, rrs, tail);
    Associative(rrs, [soa], tail);
    Tail(soa, rrs + ([soa] + tail));
    SplitAtSoa(rrs, [soa] + tail);
    Tail(soa, tail);
  }

  /** Whatever follows the reply on the connection, it reads as this serial and zone, and ends where it ends. */
  ghost predicate ReadsAs(reply: Reply, goal: Replica) {
    reply.Answers? && forall tail :: ReceiveAxfr(Concat(reply.msgs) + tail) == Some((goal, tail))
  }

  /** A full transfer is given over TCP for this zone from an enumerable store, and to nobody else; it reads as
      exactly the zone at the current serial, in messages within both limits. */
  lemma AxfrIsZone(cfg: Config, st: Primary, page: seq<Entry>, req: TransferRequest)
    requires IsListing(st.items, page)
    ensures var reply := AxfrReply(cfg, st, page, req);
            && (reply.Answers? <==> EqualFold(req.qname, cfg.zone) && req.tcp && cfg.enumerable)
            && (reply.Answers? ==>
                  && GoodParts(cfg.size, MAX_BYTES, reply.msgs)
                  && ReadsAs(reply, Replica(st.serial, ZoneRRs(cfg, st.items))))
  {
    var reply := AxfrReply(cfg, st, page, req);
    if reply.Answers? {
      StreamHolds(cfg, st.serial, page, None);
      PageRRsNoSoa(cfg, page);
      PageIsZone(cfg, st.items, page);
      forall tail
        ensures ReceiveAxfr(Concat(reply.msgs) + tail) == Some((Replica(st.serial, ZoneRRs(cfg, st.items)), tail))
      {
        AxfrStreamReads(cfg, st.serial, PageRRs(cfg, page), tail);
      }
    }
  }

  // ---------- every request, over UDP or TCP, at any serial ----------

  /** A request for this zone with exactly one SOA in its authority section. */
  predicate WellFormed(cfg: Config, req: TransferRequest) {
    |req.authority| == 1 && req.authority[0].SOA? && EqualFold(req.qname, cfg.zone)
  }

  /** A client at or past the current serial, and every client over UDP, is sent one SOA at the current serial, in one
      message: the zone is up to date, or the client is to come back over TCP. */
  predicate AnswersLoneSoa(cfg: Config, serial: uint32, req: TransferRequest, reply: Reply) {
    WellFormed(cfg, req) && (!req.tcp || req.authority[0].serial >= serial) ==>
      reply == Answers([[SOA(cfg.zone, cfg.ttl, serial, cfg.ttl)]])
  }

  /** Refused are exactly the malformed requests, and those that would need a listing the store cannot give. */
  predicate RefusesRightly(cfg: Config, st: Primary, req: TransferRequest, reply: Reply) {
    reply.Refusal? <==>
      !WellFormed(cfg, req) ||
      (req.tcp && req.authority[0].serial < st.serial && !cfg.enumerable &&
       (st.journal.None? || Journal.Since(st.journal.value, req.authority[0].serial).None?))
  }

  /** Whoever reads the reply, at whatever serial of its own: it takes itself for up to date exactly when it is at or
      past this serial. */
  ghost predicate NeverFalselyCurrent(reply: Reply, serial: uint32) {
    reply.Answers? ==>
      forall own: uint32, tail: seq<RR> :: ReadsUpToDate(own, Concat(reply.msgs) + tail) <==> own >= serial
  }

  predicate ReadsUpToDate(own: uint32, s: seq<RR>) {
    ParseReply(own, s).Some? && ParseReply(own, s).value.content.UpToDate?
  }

  lemma OpeningSoaDecides(own: uint32, serial: uint32, s: seq<RR>)
    requires s != [] && s[0].SOA? && s[0].serial == serial
    ensures ReadsUpToDate(own, s) <==> own >= serial
  {
  }

  lemma RepliesOpenRight(cfg: Config, st: Primary, page: seq<Entry>, req: TransferRequest)
    requires IxfrReply(cfg, st, page, req).Answers?
    ensures var all := Concat(IxfrReply(cfg, st, page, req).msgs);
            all != [] && all[0] == Soa(cfg, st.serial)
  {
  }

  /** What every IXFR request is answered with, as far as it does not depend on the journal's content. */
  lemma IxfrAnswers(cfg: Config, st: Primary, page: seq<Entry>, req: TransferRequest)
    ensures var reply := IxfrReply(cfg, st, page, req);
            && AnswersLoneSoa(cfg, st.serial, req, reply)
            && RefusesRightly(cfg, st, req, reply)
            && NeverFalselyCurrent(reply, st.serial)
  {
    var reply := IxfrReply(cfg, st, page, req);
    if reply.Answers? {
      RepliesOpenRight(cfg, st, page, req);
      forall own: uint32, tail: seq<RR>
        ensures ReadsUpToDate(own, Concat(reply.msgs) + tail) <==> own >= st.serial
      {
        OpeningSoaDecides(own, st.serial, Concat(reply.msgs) + tail);
      }
    }
  }
}
