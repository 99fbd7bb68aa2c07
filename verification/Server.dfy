/** The Handler of server.go and its operations, each proved against its specification function. */
module Server {
  import opened Wrappers
  import opened Collections
  import opened Strings
  import opened Values
  import opened Dns
  import opened Names
  import opened Txt
  import opened Records
  import opened Store
  import opened Update
  import opened Transfer
  import opened Batch
  import opened Query
  import opened Replication
  import Journal

  class Handler {
    const cfg: Config
    const store: SampleStore
    const changelog: Journal.MemChangeLog?
    var serial: uint32

    /** History, for the proof: the serial at start, the zone at each serial since, and every delta. */
    ghost const base: nat
    ghost var zones: seq<set<RR>>
    ghost var hist: seq<Delta>

    /** Every write so far has been journalled exactly. */
    ghost predicate Synced()
      reads this, store, changelog
    {
      Coherent(cfg, State(), base, zones, hist)
    }

    ghost predicate Valid()
      reads this, changelog
    {
      changelog != null ==> changelog.Valid()
    }

    /** The handler's state as a value. */
    ghost function State(): Primary
      reads this, store, changelog
    {
      Primary(store.items, serial, if changelog == null then None else Some(changelog.Contents()))
    }

    constructor (cfg: Config, store: SampleStore, changelog: Journal.MemChangeLog?, serial: uint32)
      requires changelog != null ==> changelog.Valid()
      ensures Valid() && this.cfg == cfg && this.store == store && this.changelog == changelog && this.serial == serial
      ensures FreshStart(State()) ==> Synced()
    {
      this.cfg, this.store, this.changelog, this.serial := cfg, store, changelog, serial;
      base, zones, hist := serial, [ZoneRRs(cfg, store.items)], [];
      new;
      Journal.FreshWindow(serial);
    }

    method CommitWrite(removed: seq<RR>, added: seq<RR>) returns (s: uint32)
      requires Valid()
      modifies `serial, changelog
      ensures Valid() && State() == Commit(old(State()), removed, added) && s == serial
    {
      serial := Inc(serial);
      s := serial;
      if changelog != null {
        changelog.Record(s, removed, added);
      }
    }

    method EvalPrerequisites(io: Faults, prereqs: seq<SectionRR>) returns (rcode: Rcode)
      ensures rcode == FirstFailure(Codes(cfg, io, store.items, prereqs))
    {
      ghost var codes := Codes(cfg, io, store.items, prereqs);
      for i := 0 to |prereqs|
        invariant FirstFailure(codes) == FirstFailure(codes[i..])
      {
        var code := EvalPrerequisite(prereqs[i], io.read(i));
        assert code == codes[i..][0] && codes[i..][1..] == codes[i + 1..];
        if code != NOERROR {
          return code;
        }
      }
      rcode := NOERROR;
    }

    /** The body of the prerequisite loop. */
    method EvalPrerequisite(rr: SectionRR, readFails: bool) returns (rcode: Rcode)
      ensures rcode == CheckOne(cfg, readFails, store.items, rr)
    {
      var key := ParseKey(cfg.zone, ToLower(rr.name));
      if key.None? {
        return NOTZONE;
      }
      if rr.ttl != 0 {
        return FORMERR;
      }
      var got := store.Get(key.value, readFails);
      if got.Err? {
        return SERVFAIL;
      }
      var item := got.value;
      if rr.rclass == CLASS_ANY && rr.rtype == TYPE_ANY {
        return if item == NilItem then NXDOMAIN else NOERROR;
      } else if rr.rclass == CLASS_NONE && rr.rtype == TYPE_ANY {
        return if item != NilItem then YXDOMAIN else NOERROR;
      } else if rr.rclass == CLASS_ANY && rr.rtype == TYPE_TXT {
        return if item == NilItem then NXRRSET else NOERROR;
      } else if rr.rclass == CLASS_NONE && rr.rtype == TYPE_TXT {
        return if item != NilItem then YXRRSET else NOERROR;
      } else if rr.rclass == CLASS_INET && rr.rtype == TYPE_TXT {
        if rr.txt.None? || item == NilItem {
          return NXRRSET;
        }
        var want := DecodeTxtStrings(rr.txt.value);
        if want.None? {
          return FORMERR;
        }
        var blob := cfg.marshal(item);
        if blob.None? {
          return SERVFAIL;
        }
        return if blob.value != want.value then NXRRSET else NOERROR;
      }
      rcode := FORMERR;
    }

    /** The first pass over the update section: validate every record and collect. */
    method CollectChanges(rrs: seq<SectionRR>)
      returns (rejection: Option<Rcode>, deletes: seq<Str>, order: seq<Str>, blobs: map<Str, seq<Str>>)
      ensures var changes := ChangesOf(cfg, rrs);
              && rejection == FirstRejection(changes)
              && (rejection.None? ==> Collected(changes, deletes, order, blobs))
    {
      rejection, deletes, order, blobs := None, [], [], map[];
      ghost var changes := ChangesOf(cfg, rrs);
      for i := 0 to |rrs|
        invariant FirstRejection(changes) == FirstRejection(changes[i..])
        invariant Collected(changes[..i], deletes, order, blobs)
      {
        assert changes[i] == ChangeOf(cfg, rrs[i]);
        NextChange(changes, i);
        var rr := rrs[i];
        var name := ToLower(rr.name);
        if IsDeletion(rr) {
          var key := ParseKey(cfg.zone, name);
          if key.None? {
            return Some(NOTZONE), deletes, order, blobs;
          }
          CollectedDeletion(changes[..i], key.value, deletes, order, blobs);
          deletes := deletes + [key.value];
        } else if rr.rclass == CLASS_INET && rr.rtype == TYPE_TXT {
          if rr.txt.None? {
            return Some(REFUSED), deletes, order, blobs;
          }
          if !HasSuffix(name, "." + cfg.zone) {
            return Some(NOTZONE), deletes, order, blobs;
          }
          CollectedInsertion(changes[..i], name, rr.txt.value, deletes, order, blobs);
          if name !in blobs {
            order := order + [name];
            blobs := blobs[name := []];
          }
          blobs := blobs[name := blobs[name] + rr.txt.value];
        } else {
          return Some(REFUSED), deletes, order, blobs;
        }
      }
      assert changes[..|rrs|] == changes;
    }

    /** Decode what was collected for each owner, in order of first appearance. */
    method CollectWrites(ghost changes: seq<Change>, order: seq<Str>, blobs: map<Str, seq<Str>>)
      returns (r: Result<seq<Write>, Rcode>)
      requires forall i :: 0 <= i < |order| ==> order[i] in blobs && blobs[order[i]] == StringsAt(changes, order[i])
      ensures r == Writes(cfg, changes, order)
    {
      var inserts: seq<Write> := [];
      ghost var attempts := Attempts(cfg, changes, order);
      for i := 0 to |order|
        invariant Gather(attempts[..i]) == Ok(inserts)
      {
        var name := order[i];
        assert attempts[i] == WriteOf(cfg, changes, name);
        assert attempts[..i + 1][..i] == attempts[..i];
        if attempts[i].Err? {
          GatherStops(attempts, i + 1);
        }
        var key := ParseKey(cfg.zone, name);
        if key.None? {
          return Err(REFUSED);
        }
        var payload := DecodeTxtStrings(blobs[name]);
        if payload.None? {
          return Err(FORMERR);
        }
        var item := cfg.unmarshal(payload.value);
        if item.None? {
          return Err(FORMERR);
        }
        inserts := inserts + [Write(key.value, item.value)];
      }
      assert attempts[..|order|] == attempts;
      r := Ok(inserts);
    }

    /** The first half of processUpdate: everything up to the first store call, without changing anything. */
    method PlanUpdate(io: Faults, req: Request) returns (plan: Plan)
      ensures plan == PlanOf(cfg, io, store.items, req)
      ensures plan.Mutate? && plan.inserts != [] ==> plan.inserts[0].pk == plan.key
    {
      if !cfg.writable {
        return Refuse(REFUSED);
      }
      if !NamesZone(cfg, req.zone) {
        return Refuse(FORMERR);
      }
      var checked := EvalPrerequisites(io, req.prereqs);
      if checked != NOERROR {
        return Refuse(checked);
      }
      var rejection, deletes, order, blobs := CollectChanges(req.updates);
      if rejection.Some? {
        return Refuse(rejection.value);
      }
      ghost var changes := ChangesOf(cfg, req.updates);
      var decoded := CollectWrites(changes, order, blobs);
      if decoded.Err? {
        return Refuse(decoded.error);
      }
      var inserts := decoded.value;
      var affected := Affected(deletes, inserts);
      AffectedEmpty(deletes, inserts);
      if |affected| > 1 {
        return Refuse(REFUSED);
      }
      if |affected| == 0 {
        return Nothing;
      }
      plan := Mutate(if inserts != [] then inserts[0].pk else deletes[0], inserts);
    }

    method ProcessUpdate(io: Faults, req: Request) returns (rcode: Rcode)
      requires Valid()
      modifies this, store, changelog
      ensures Valid() && Outcome(rcode, State()) == Process(cfg, io, old(State()), req)
      ensures old(Synced()) && FaithfulStep(cfg, old(State()), Arrival(io, req)) && old(serial) < MAX_UINT32 ==>
                Synced() && old(zones) <= zones
      ensures old(Clean(store.items)) && Benign(cfg, req) ==>
                Clean(store.items) && FaithfulStep(cfg, old(State()), Arrival(io, req))
    {
      ghost var before := State();
      var plan := PlanUpdate(io, req);
      match plan
      case Refuse(code) =>
        rcode := code;
      case Nothing =>
        rcode := NOERROR;
      case Mutate(key, inserts) =>
        rcode := CarryOut(io.read(|req.prereqs|), io.write, key, inserts);
      ghost var z, h := StepHistory(cfg, before, Arrival(io, req), State(), base, zones, hist);
      zones, hist := z, h;
    }

    /** The second half of processUpdate: snapshot, one store call, journal. */
    method CarryOut(readFails: bool, writeFails: bool, key: Str, inserts: seq<Write>) returns (rcode: Rcode)
      requires Valid()
      requires inserts != [] ==> inserts[0].pk == key
      modifies `serial, store, changelog
      ensures Valid()
      ensures readFails || writeFails ==> rcode == SERVFAIL && State() == old(State())
      ensures !readFails && !writeFails ==> rcode == NOERROR && State() == Perform(cfg, old(State()), key, inserts)
    {
      var snapshot := store.Get(key, readFails);
      if snapshot.Err? {
        return SERVFAIL;
      }
      if inserts != [] {
        var put := store.Put(inserts[0].pk, inserts[0].item, writeFails);
        if put.Err? {
          return SERVFAIL;
        }
      } else {
        var deleted := store.Remove(key, writeFails);
        if deleted.Err? {
          return SERVFAIL;
        }
      }
      var removed: seq<RR> := [];
      if snapshot.value != NilItem {
        var rrs := RenderItem(cfg, key, snapshot.value);
        if rrs.Some? {
          removed := rrs.value;
        }
      }
      var added := RenderInserts(inserts);
      var _ := CommitWrite(removed, added);
      rcode := NOERROR;
    }

    /** The loop that renders what was inserted. */
    method RenderInserts(inserts: seq<Write>) returns (added: seq<RR>)
      ensures added == AddedRRs(cfg, inserts)
    {
      added := [];
      for i := 0 to |inserts|
        invariant added == AddedRRs(cfg, inserts[..i])
      {
        assert inserts[..i + 1][..i] == inserts[..i];
        var rrs := RenderItem(cfg, inserts[i].pk, inserts[i].item);
        if rrs.Some? {
          added := added + rrs.value;
        }
      }
      assert inserts[..|inserts|] == inserts;
    }

    // ---------- transfers ----------

    /** The page callback of streamZone: buffer the page's records, flushing a message whenever the next one will
        not fit. */
    method BufferPage(page: seq<Entry>, msgs: seq<seq<RR>>, buf: seq<RR>, bufLen: int, ghost fed: seq<RR>)
      returns (msgs': seq<seq<RR>>, buf': seq<RR>, bufLen': int)
      requires Buffered(cfg.size, MAX_BYTES, fed, msgs, buf, bufLen)
      ensures Buffered(cfg.size, MAX_BYTES, fed + PageRRs(cfg, page), msgs', buf', bufLen')
    {
      msgs', buf', bufLen' := msgs, buf, bufLen;
      assert fed + [] == fed;
      for e := 0 to |page|
        invariant Buffered(cfg.size, MAX_BYTES, fed + PageRRs(cfg, page[..e]), msgs', buf', bufLen')
      {
        PageStep(cfg, fed, page, e);
        var rrs := RenderItem(cfg, page[e].key, page[e].item);
        if rrs.None? {
          continue;
        }
        var rr := rrs.value[0];
        var l := cfg.size(rr);
        BufferedStep(cfg.size, MAX_BYTES, fed + PageRRs(cfg, page[..e]), msgs', buf', bufLen', rr);
        if |buf'| > 0 && (|buf'| + 1 > MAX_RRS_PER_MSG || bufLen' + l > MAX_BYTES) {
          msgs' := msgs' + [buf'];
          buf' := [];
          bufLen' := OVERHEAD_PER_MSG;
        }
        buf' := buf' + [rr];
        bufLen' := bufLen' + l;
      }
      assert page[..|page|] == page;
    }

    /** The full transfer's items over any division of the store into pages, the buffer carried across pages. */
    method StreamItems(pages: seq<seq<Entry>>) returns (msgs: seq<seq<RR>>)
      ensures msgs == Batches(cfg.size, MAX_BYTES, PageRRs(cfg, Concat(pages)))
    {
      msgs := [];
      var buf: seq<RR> := [];
      var bufLen := OVERHEAD_PER_MSG;
      ghost var fed: seq<RR> := [];
      for p := 0 to |pages|
        invariant fed == PageRRs(cfg, Concat(pages[..p]))
        invariant Buffered(cfg.size, MAX_BYTES, fed, msgs, buf, bufLen)
      {
        PagesSnoc(cfg, pages, p);
        msgs, buf, bufLen := BufferPage(pages[p], msgs, buf, bufLen, fed);
        fed := fed + PageRRs(cfg, pages[p]);
      }
      assert pages[..|pages|] == pages;
      if |buf| > 0 {
        msgs := msgs + [buf];
      }
    }

    method StreamZone(deltas: Option<seq<Delta>>) returns (reply: Reply)
      ensures reply == Stream(cfg, serial, Listing(store.items), deltas)
    {
      if deltas.None? && !cfg.enumerable {
        return Refusal;
      }
      var msgs := [[Soa(cfg, serial)]];
      if deltas.Some? {
        for i := 0 to |deltas.value|
          invariant msgs == [[Soa(cfg, serial)]] + DifferenceMessages(cfg, deltas.value[..i])
        {
          assert deltas.value[..i + 1][..i] == deltas.value[..i];
          var batches := BatchRRs(cfg.size, MAX_BYTES, Difference(cfg, deltas.value[i]));
          msgs := msgs + batches;
        }
        assert deltas.value[..|deltas.value|] == deltas.value;
      } else {
        var entries := store.List();
        var items := StreamItems([entries]);
        assert Concat([entries]) == entries;
        msgs := msgs + items;
      }
      reply := Answers(msgs + [[Soa(cfg, serial)]]);
    }

    method HandleIxfr(req: TransferRequest) returns (reply: Reply)
      requires Valid()
      ensures reply == IxfrReply(cfg, State(), Listing(store.items), req)
      ensures AnswersLoneSoa(cfg, serial, req, reply) && RefusesRightly(cfg, State(), req, reply)
      ensures NeverFalselyCurrent(reply, serial)
      ensures Synced() && cfg.enumerable ==> forall own, tail | Owns(own, req) :: BringsUpToDate(reply, own, tail)
    {
      reply := AnswerIxfr(req);
      IxfrAnswers(cfg, State(), Listing(store.items), req);
      if Synced() && cfg.enumerable {
        forall own, tail | Owns(own, req)
          ensures BringsUpToDate(reply, own, tail)
        {
          ReplyIsCurrent(cfg, State(), base, zones, hist, Listing(store.items), req, own, tail);
        }
      }
    }

    /** A secondary asking from a serial up to ours that holds that serial's zone, if there was one since start. */
    ghost predicate Owns(own: Replica, req: TransferRequest)
      reads this
    {
      Asks(cfg, req, own.serial) && own.serial <= serial &&
      (base <= own.serial ==> own.serial - base < |zones| && own.zone == zones[own.serial - base])
    }

    /** Reading the reply, whatever follows it, leaves the secondary with our serial and our zone. */
    ghost predicate BringsUpToDate(reply: Reply, own: Replica, tail: seq<RR>)
      reads this, store
    {
      reply.Answers? && Receive(own, Concat(reply.msgs) + tail) == Some(Replica(serial, ZoneRRs(cfg, store.items)))
    }

    /** handleIXFR itself. */
    method AnswerIxfr(req: TransferRequest) returns (reply: Reply)
      requires Valid()
      ensures reply == IxfrReply(cfg, State(), Listing(store.items), req)
      ensures AnswersLoneSoa(cfg, serial, req, reply)
    {
      if |req.authority| != 1 || !req.authority[0].SOA? || !EqualFold(req.qname, cfg.zone) {
        return Refusal;
      }
      var client := req.authority[0].serial;
      if client >= serial || !req.tcp {
        return Answers([[Soa(cfg, serial)]]);
      }
      var deltas: Option<seq<Delta>> := None;
      if changelog != null {
        var found, _ := changelog.Deltas(client);
        deltas := found;
      }
      reply := StreamZone(deltas);
    }

    method HandleAxfr(req: TransferRequest) returns (reply: Reply)
      ensures reply == AxfrReply(cfg, State(), Listing(store.items), req)
      ensures reply.Answers? <==> EqualFold(req.qname, cfg.zone) && req.tcp && cfg.enumerable
      ensures reply.Answers? ==> GoodParts(cfg.size, MAX_BYTES, reply.msgs)
      ensures reply.Answers? ==> ReadsAs(reply, Replica(serial, ZoneRRs(cfg, store.items)))
    {
      AxfrIsZone(cfg, State(), Listing(store.items), req);
      if !EqualFold(req.qname, cfg.zone) || !req.tcp {
        return Refusal;
      }
      reply := StreamZone(None);
    }

    // ---------- queries ----------

    method GsiLookup(qtype: nat, index: Str, value: Str) returns (resp: Response)
      ensures resp == IndexAnswer(cfg, serial, qtype,
                  if cfg.enumerable && index in store.gsIs
                  then Some(Matching(Listing(store.items), store.gsIs[index], value)) else None)
    {
      if !cfg.enumerable {
        return Response(SERVFAIL, [], []);
      }
      var found := store.QueryIndex(index, value);
      if found.Err? {
        return Response(SERVFAIL, [], []);
      }
      var entries := found.value;
      if entries == [] {
        return Response(NXDOMAIN, [], [Soa(cfg, serial)]);
      }
      if !WantsText(qtype) {
        return Response(NOERROR, [], [Soa(cfg, serial)]);
      }
      var answer: seq<RR> := [];
      for i := 0 to |entries|
        invariant answer == PageRRs(cfg, entries[..i])
      {
        assert entries[..i + 1][..i] == entries[..i];
        var rrs := RenderItem(cfg, entries[i].key, entries[i].item);
        if rrs.Some? {
          answer := answer + rrs.value;
        }
      }
      assert entries[..|entries|] == entries;
      resp := Response(NOERROR, answer, []);
    }

    /** The answer at the metrics name: a record per chunk. */
    method MetricsAnswer(name: Str, metrics: Str) returns (answer: seq<RR>)
      ensures answer == MetricsRRs(cfg, name, metrics)
    {
      answer := [];
      var chunks := ChunkBytes(metrics, MAX_TXT_CHUNK);
      for i := 0 to |chunks|
        invariant answer == MetricsRRs(cfg, name, metrics)[..i]
      {
        answer := answer + [TXT(name, cfg.ttl, [chunks[i]])];
      }
    }

    method BuildResponse(ask: Ask) returns (resp: Response)
      ensures resp == Respond(cfg, State(), Listing(store.items), store.gsIs, ask)
    {
      match RouteOf(cfg, ToLower(ask.name), ask.qtype)
      case Apex => resp := ApexAnswer(cfg, serial, ask.qtype);
      case Status => resp := Response(NOERROR, [TXT(ask.name, cfg.ttl, [cfg.status])], []);
      case Health => resp := Response(NOERROR, [TXT(ask.name, cfg.ttl, ["UP"])], []);
      case Metrics =>
        var answer := MetricsAnswer(ask.name, ask.metrics);
        resp := Response(NOERROR, answer, []);
      case NameServer => resp := Response(NOERROR, [AddressRR(cfg, ask.name)], []);
      case NoKey => resp := Response(NXDOMAIN, [], [Soa(cfg, serial)]);
      case ByIndex(index, value) =>
        resp := GsiLookup(ask.qtype, index, value);
      case ByKey(key) =>
        var got := store.Get(key, ask.readFails);
        if got.Err? {
          return Response(SERVFAIL, [], []);
        }
        if got.value == NilItem {
          return Response(NXDOMAIN, [], [Soa(cfg, serial)]);
        }
        if !WantsText(ask.qtype) {
          return Response(NOERROR, [], [Soa(cfg, serial)]);
        }
        var rrs := RenderItem(cfg, key, got.value);
        resp := if rrs.None? then Response(SERVFAIL, [], []) else Response(NOERROR, rrs.value, []);
    }
  }

  // ---------- the history beside an UPDATE ----------

  /** Faithful steps extend the history; benign steps of clean stores are faithful. */
  lemma StepHistory(cfg: Config, st: Primary, a: Arrival, st': Primary,
                    base: nat, zones: seq<set<RR>>, hist: seq<Delta>)
    returns (zones': seq<set<RR>>, hist': seq<Delta>)
    requires st' == Process(cfg, a.io, st, a.req).state
    ensures Coherent(cfg, st, base, zones, hist) && FaithfulStep(cfg, st, a) && st.serial < MAX_UINT32 ==>
              Coherent(cfg, st', base, zones', hist') && zones <= zones'
    ensures Clean(st.items) && Benign(cfg, a.req) ==> Clean(st'.items) && FaithfulStep(cfg, st, a)
  {
    zones', hist' := zones, hist;
    FaithfulStepExactly(cfg, st, a);
    if Clean(st.items) && Benign(cfg, a.req) {
      BenignStep(cfg, st, a);
    }
    if Coherent(cfg, st, base, zones, hist) && FaithfulStep(cfg, st, a) && st.serial < MAX_UINT32 {
      zones', hist' := StepCoherent(cfg, st, a, base, zones, hist);
    }
  }

  // ---------- what the collecting loops keep ----------

  /** The keys deleted, the owners inserted at in order of first appearance, and their strings in arrival order. */
  ghost predicate Collected(changes: seq<Change>, deletes: seq<Str>, order: seq<Str>, blobs: map<Str, seq<Str>>) {
    && deletes == Deletions(changes)
    && order == Distinct(InsertOwners(changes))
    && (forall o :: o in blobs <==> o in order)
    && (forall o :: o in blobs ==> blobs[o] == StringsAt(changes, o))
  }

  lemma NextChange(changes: seq<Change>, i: nat)
    requires i < |changes|
    ensures changes[..i + 1] == changes[..i] + [changes[i]]
    ensures FirstRejection(changes[i..]) ==
            if changes[i].Rejected? then Some(changes[i].rcode) else FirstRejection(changes[i + 1..])
  {
    assert changes[i..][1..] == changes[i + 1..];
  }

  lemma {:induction false} StringsAtStranger(changes: seq<Change>, owner: Str)
    requires owner !in InsertOwners(changes)
    ensures StringsAt(changes, owner) == []
  {
    if changes != [] {
      StringsAtStranger(changes[..|changes| - 1], owner);
    }
  }

  lemma CollectedDeletion(changes: seq<Change>, key: Str, deletes: seq<Str>, order: seq<Str>, blobs: map<Str, seq<Str>>)
    requires Collected(changes, deletes, order, blobs)
    ensures Collected(changes + [Deletion(key)], deletes + [key], order, blobs)
  {
    assert (changes + [Deletion(key)])[..|changes|] == changes;
  }

  lemma CollectedInsertion(changes: seq<Change>, name: Str, strings: seq<Str>, deletes: seq<Str>, order: seq<Str>,
                           blobs: map<Str, seq<Str>>)
    requires Collected(changes, deletes, order, blobs)
    ensures var order' := if name in blobs then order else order + [name];
            var had := if name in blobs then blobs[name] else [];
            Collected(changes + [Insertion(name, strings)], deletes, order', blobs[name := had + strings])
  {
    InsertedOwner(changes, name, strings);
    StringsAtSnoc(changes, name, strings);
    OwnerStrings(changes, order, name);
  }

  lemma InsertedOwner(changes: seq<Change>, name: Str, strings: seq<Str>)
    ensures var order, changes' := Distinct(InsertOwners(changes)), changes + [Insertion(name, strings)];
            && Deletions(changes') == Deletions(changes)
            && Distinct(InsertOwners(changes')) == if name in order then order else order + [name]
  {
    assert (changes + [Insertion(name, strings)])[..|changes|] == changes;
    DistinctSnoc(InsertOwners(changes), name);
  }

  lemma OwnerStrings(changes: seq<Change>, order: seq<Str>, name: Str)
    requires order == Distinct(InsertOwners(changes))
    ensures name !in order ==> StringsAt(changes, name) == []
  {
    DistinctElements(InsertOwners(changes));
    if name !in order {
      StringsAtStranger(changes, name);
    }
  }

  lemma StringsAtSnoc(changes: seq<Change>, name: Str, strings: seq<Str>)
    ensures forall o :: StringsAt(changes + [Insertion(name, strings)], o) ==
                        if o == name then StringsAt(changes, o) + strings else StringsAt(changes, o)
  {
    assert (changes + [Insertion(name, strings)])[..|changes|] == changes;
  }

  lemma {:induction false} GatherStops<T>(attempts: seq<Result<T, Rcode>>, n: nat)
    requires n <= |attempts| && Gather(attempts[..n]).Err?
    ensures Gather(attempts) == Gather(attempts[..n])
    decreases |attempts| - n
  {
    if n < |attempts| {
      assert attempts[..n + 1][..n] == attempts[..n];
      GatherStops(attempts, n + 1);
    } else {
      assert attempts[..n] == attempts;
    }
  }

  lemma AffectedEmpty(deletes: seq<Str>, inserts: seq<Write>)
    ensures |Affected(deletes, inserts)| == 0 <==> deletes == [] && inserts == []
  {
    if deletes != [] {
      assert deletes[0] in Affected(deletes, inserts);
    } else if inserts != [] {
      assert inserts[0].pk in Affected(deletes, inserts);
    }
  }

  lemma PagesSnoc(cfg: Config, pages: seq<seq<Entry>>, p: nat)
    requires p < |pages|
    ensures PageRRs(cfg, Concat(pages[..p + 1])) == PageRRs(cfg, Concat(pages[..p])) + PageRRs(cfg, pages[p])
  {
    assert pages[..p + 1] == pages[..p] + [pages[p]];
    ConcatSnoc(pages[..p], pages[p]);
    PageRRsAppend(cfg, Concat(pages[..p]), pages[p]);
  }

  /** What has been fed once one more entry of a page is: its record, if it has one. */
  lemma PageStep(cfg: Config, fed: seq<RR>, page: seq<Entry>, e: nat)
    requires e < |page|
    ensures var rrs := ItemRRs(cfg, page[e].key, page[e].item);
            fed + PageRRs(cfg, page[..e + 1]) ==
            if rrs.None? then fed + PageRRs(cfg, page[..e]) else fed + PageRRs(cfg, page[..e]) + [rrs.value[0]]
  {
    assert page[..e + 1][..e] == page[..e];
    PageRRsLast(cfg, page[..e + 1], page[..e], page[e]);
    Associative(fed, PageRRs(cfg, page[..e]), Rendering(cfg, page[e].key, page[e].item));
  }

  lemma PageRRsLast(cfg: Config, page: seq<Entry>, init: seq<Entry>, e: Entry)
    requires page != [] && page[..|page| - 1] == init && page[|page| - 1] == e
    ensures PageRRs(cfg, page) == PageRRs(cfg, init) + Rendering(cfg, e.key, e.item)
  {
  }

  lemma {:induction false} PageRRsAppend(cfg: Config, a: seq<Entry>, b: seq<Entry>)
    ensures PageRRs(cfg, a + b) == PageRRs(cfg, a) + PageRRs(cfg, b)
  {
    if b == [] {
      assert a + b == a;
    } else {
      var init, e := b[..|b| - 1], b[|b| - 1];
      PageRRsAppend(cfg, a, init);
      SnocAppend(a, b);
      PageRRsLast(cfg, a + b, a + init, e);
      PageRRsLast(cfg, b, init, e);
      Associative(PageRRs(cfg, a), PageRRs(cfg, init), Rendering(cfg, e.key, e.item));
    }
  }
}
