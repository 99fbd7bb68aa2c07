/** Point queries and their agreement with transfers and prerequisites: buildResponse and gsiLookup of server.go. */
module Query {
  import opened Wrappers
  import opened Collections
  import opened Strings
  import opened Values
  import opened Dns
  import opened Names
  import opened Txt
  import opened Records
  import opened Store
  import opened Update
  import opened Transfer
  import Base32

  const STATUS_NAME := "_contractdb"

  datatype Response = Response(rcode: Rcode, answer: seq<RR>, authority: seq<RR>)

  /** How a lower-cased name is answered. */
  datatype Route =
    | Apex
    | Status
    | Health
    | Metrics
    | NameServer
    | NoKey
    | ByIndex(index: Str, value: Str)
    | ByKey(key: Str)

  /** A question, whether its store read fails, and the JSON of the counters when it is asked. */
  datatype Ask = Ask(name: Str, qtype: nat, readFails: bool, metrics: Str)

  /** A TXT question whose store read succeeds. */
  predicate AsksText(ask: Ask, name: Str) {
    ask.name == name && ask.qtype == TYPE_TXT && !ask.readFails
  }

  predicate WantsText(qtype: nat) {
    qtype == TYPE_TXT || qtype == TYPE_ANY
  }

  predicate IsIndex(cfg: Config, name: Str) {
    name in cfg.gsis && cfg.gsis[name] != []
  }

  /** The names the server answers for itself. */
  function OwnRoute(cfg: Config, qname: Str, qtype: nat): Option<Route> {
    if qname == STATUS_NAME + "." + cfg.zone && WantsText(qtype) then Some(Status)
    else if qname == STATUS_NAME + ".health." + cfg.zone && WantsText(qtype) then Some(Health)
    else if qname == STATUS_NAME + ".metrics." + cfg.zone && WantsText(qtype) then Some(Metrics)
    else if qname == "ns1." + cfg.zone && (qtype == TYPE_A || qtype == TYPE_ANY) then Some(NameServer)
    else None
  }

  function IndexValue(cfg: Config, qname: Str, parts: seq<Str>): Str
    requires |parts| >= 2
  {
    if |parts| == 2 && "k-" <= parts[0] && ParseKey(cfg.zone, qname).Some? then ParseKey(cfg.zone, qname).value
    else Join(parts[..|parts| - 1])
  }

  /** The labels of a name, without the zone's when it ends in the zone. */
  function PartsBelow(cfg: Config, qname: Str): (parts: seq<Str>)
    ensures |parts| >= 1
  {
    Split(if HasSuffix(qname, "." + cfg.zone) then qname[..|qname| - |cfg.zone| - 1] else qname)
  }

  function RouteOf(cfg: Config, qname: Str, qtype: nat): Route {
    if qname == cfg.zone then Apex
    else if OwnRoute(cfg, qname, qtype).Some? then OwnRoute(cfg, qname, qtype).value
    else
      var key := ParseKey(cfg.zone, qname);
      if key.None? || key.value == [] then NoKey
      else
        var parts := PartsBelow(cfg, qname);
        if |parts| >= 2 && IsIndex(cfg, parts[|parts| - 1])
        then ByIndex(parts[|parts| - 1], IndexValue(cfg, qname, parts))
        else ByKey(key.value)
  }

  function NsRecord(cfg: Config): RR {
    Other(cfg.zone, cfg.ttl, TYPE_NS, "ns1." + cfg.zone)
  }

  function ApexAnswer(cfg: Config, serial: uint32, qtype: nat): Response {
    if qtype == TYPE_SOA then Response(NOERROR, [Soa(cfg, serial)], [])
    else if qtype == TYPE_NS then Response(NOERROR, [NsRecord(cfg)], [])
    else if qtype == TYPE_ANY then Response(NOERROR, [Soa(cfg, serial), NsRecord(cfg)], [])
    else Response(NOERROR, [], [Soa(cfg, serial)])
  }

  /** An index query, given the entries the store matched; None is a failed or unsupported lookup. */
  function IndexAnswer(cfg: Config, serial: uint32, qtype: nat, entries: Option<seq<Entry>>): Response {
    if entries.None? then Response(SERVFAIL, [], [])
    else if entries.value == [] then Response(NXDOMAIN, [], [Soa(cfg, serial)])
    else if !WantsText(qtype) then Response(NOERROR, [], [Soa(cfg, serial)])
    else Response(NOERROR, PageRRs(cfg, entries.value), [])
  }

  function KeyAnswer(cfg: Config, serial: uint32, qtype: nat, readFails: bool, key: Str, item: Item): Response {
    if readFails then Response(SERVFAIL, [], [])
    else if item == NilItem then Response(NXDOMAIN, [], [Soa(cfg, serial)])
    else if !WantsText(qtype) then Response(NOERROR, [], [Soa(cfg, serial)])
    else
      var rrs := ItemRRs(cfg, key, item);
      if rrs.None? then Response(SERVFAIL, [], []) else Response(NOERROR, rrs.value, [])
  }

  /** One TXT record per character string of the counters' JSON. */
  function MetricsRRs(cfg: Config, name: Str, metrics: Str): seq<RR> {
    var chunks := Chunks(metrics, MAX_TXT_CHUNK);
    seq(|chunks|, i requires 0 <= i < |chunks| => TXT(name, cfg.ttl, [chunks[i]]))
  }

  function AddressRR(cfg: Config, name: Str): RR {
    Other(name, cfg.ttl, if cfg.isV4 then TYPE_A else TYPE_AAAA, cfg.address)
  }

  /** buildResponse over a store with the given listing and secondary indexes. */
  function Respond(cfg: Config, st: Primary, page: seq<Entry>, gsIs: map<Str, Str>, ask: Ask): Response {
    match RouteOf(cfg, ToLower(ask.name), ask.qtype)
    case Apex => ApexAnswer(cfg, st.serial, ask.qtype)
    case Status => Response(NOERROR, [TXT(ask.name, cfg.ttl, [cfg.status])], [])
    case Health => Response(NOERROR, [TXT(ask.name, cfg.ttl, ["UP"])], [])
    case Metrics => Response(NOERROR, MetricsRRs(cfg, ask.name, ask.metrics), [])
    case NameServer => Response(NOERROR, [AddressRR(cfg, ask.name)], [])
    case NoKey => Response(NXDOMAIN, [], [Soa(cfg, st.serial)])
    case ByIndex(index, value) =>
      IndexAnswer(cfg, st.serial, ask.qtype,
                  if cfg.enumerable && index in gsIs then Some(Matching(page, gsIs[index], value)) else None)
    case ByKey(key) => KeyAnswer(cfg, st.serial, ask.qtype, ask.readFails, key, Lookup(st.items, key))
  }

  // ---------- names and routes ----------

  /** A dotted safe key whose last label names a configured index. */
  predicate Indexed(cfg: Config, key: Str) {
    Safe(key) && |Split(key)| >= 2 && IsIndex(cfg, Split(key)[|Split(key)| - 1])
  }

  lemma NeverOwnName(cfg: Config, key: Str)
    requires key != []
    ensures ItemName(cfg.zone, key) != cfg.zone && OwnRoute(cfg, ItemName(cfg.zone, key), TYPE_TXT).None?
  {
    var name := ItemName(cfg.zone, key);
    if Safe(key) {
      FirstPart(key);
      assert SafePart(Split(key)[0]);
      assert name[0] == Split(key)[0][0];
    } else {
      assert name[0] == 'k';
    }
    assert name[0] != '_';
  }

  lemma NameParts(cfg: Config, key: Str)
    requires key != []
    ensures PartsBelow(cfg, ItemName(cfg.zone, key)) == if Safe(key) then Split(key) else [BaseForm(key)]
  {
    if Safe(key) {
      PartsOfName(cfg, key);
    } else {
      PartsOfName(cfg, BaseForm(key));
      BaseFormIsOnePart(key);
    }
  }

  lemma PartsOfName(cfg: Config, head: Str)
    ensures PartsBelow(cfg, head + "." + cfg.zone) == Split(head)
  {
    BelowZone(head, cfg.zone);
  }

  lemma BaseFormIsOnePart(key: Str)
    ensures Split(BaseForm(key)) == [BaseForm(key)]
  {
    Base32.EncodedShape(key);
    SplitFirst(BaseForm(key), []);
  }

  lemma IndexOfName(cfg: Config, key: Str)
    requires key != []
    ensures var parts := PartsBelow(cfg, ItemName(cfg.zone, key));
            |parts| >= 2 && IsIndex(cfg, parts[|parts| - 1]) <==> Indexed(cfg, key)
  {
    NameParts(cfg, key);
  }

  /** The route of a key's owner name, by what parsing makes of it. */
  lemma RouteAtName(cfg: Config, key: Str)
    requires key != []
    ensures var parsed := ParseKey(cfg.zone, ItemName(cfg.zone, key));
            var route := RouteOf(cfg, ItemName(cfg.zone, key), TYPE_TXT);
            if parsed.None? || parsed.value == [] then route == NoKey
            else if Indexed(cfg, key) then route.ByIndex?
            else route == ByKey(parsed.value)
  {
    NeverOwnName(cfg, key);
    IndexOfName(cfg, key);
  }

  /** A TXT query for a key's owner name looks up that very key exactly for non-empty, unreserved, unindexed keys. */
  lemma RoutedExactly(cfg: Config, key: Str)
    requires ZoneIsLower(cfg)
    ensures RouteOf(cfg, ItemName(cfg.zone, key), TYPE_TXT) == ByKey(key) <==>
            key != [] && !Reserved(key) && !Indexed(cfg, key)
  {
    RoundTripExactly(cfg.zone, key);
    if key != [] {
      RouteAtName(cfg, key);
    }
  }

  // ---------- transfers and queries tell the same ----------

  /** The entries that can be rendered, in listing order. */
  function Rendered(cfg: Config, page: seq<Entry>): (r: seq<Entry>)
    ensures |r| == |PageRRs(cfg, page)|
  {
    if page == [] then []
    else
      var init, last := Rendered(cfg, page[..|page| - 1]), page[|page| - 1];
      if ItemRRs(cfg, last.key, last.item).Some? then init + [last] else init
  }

  lemma {:induction false} RenderedAt(cfg: Config, page: seq<Entry>, i: nat)
    requires i < |PageRRs(cfg, page)|
    ensures var e := Rendered(cfg, page)[i]; ItemRRs(cfg, e.key, e.item) == Some([PageRRs(cfg, page)[i]])
  {
    if i < |PageRRs(cfg, page[..|page| - 1])| {
      RenderedAt(cfg, page[..|page| - 1], i);
    }
  }

  lemma {:induction false} RenderedAre(cfg: Config, page: seq<Entry>)
    ensures forall e :: e in Rendered(cfg, page) <==> e in page && ItemRRs(cfg, e.key, e.item).Some?
  {
    if page != [] {
      var init, last := page[..|page| - 1], page[|page| - 1];
      assert page == init + [last];
      RenderedAre(cfg, init);
    }
  }

  lemma {:induction false} RenderedAscend(cfg: Config, page: seq<Entry>)
    requires Ascending(Keys(page))
    ensures Ascending(Keys(Rendered(cfg, page)))
  {
    if page != [] {
      var init, last := page[..|page| - 1], page[|page| - 1];
      LastIsGreatest(page);
      RenderedAscend(cfg, init);
      RenderedAre(cfg, init);
      if ItemRRs(cfg, last.key, last.item).Some? {
        AscendingSnoc(Rendered(cfg, init), last);
      }
    }
  }

  /** Whether a TXT query for the owner name of this stored key shows what the transfer shows. A reserved key's name is
      read as base32, so the answer is its twin's, if there is one. */
  predicate Answered(cfg: Config, items: map<Str, Item>, key: Str) {
    if key == [] then false
    else if Reserved(key) then
      && Twin(key).Some? && Lookup(items, Twin(key).value) != NilItem
      && TwinJson(cfg, items, key) == JsonAt(cfg, items, key)
    else Lookup(items, key) != NilItem
  }

  /** A full transfer holds one record per stored item that can be rendered, in ascending key order, and each is
      the answer to a TXT query, in any letter case, for its owner name, for unindexed keys exactly when they are
      non-empty and not null, or reserved with a twin that is not null and shows the same JSON. */
  lemma TransferAnswersQueries(cfg: Config, st: Primary, page: seq<Entry>, gsIs: map<Str, Str>, i: nat, ask: Ask)
    requires ZoneIsLower(cfg) && IsListing(st.items, page) && i < |PageRRs(cfg, page)|
    requires !Indexed(cfg, Rendered(cfg, page)[i].key)
    requires AsksText(ask, ask.name) && EqualFold(ask.name, PageRRs(cfg, page)[i].name)
    ensures Ascending(Keys(Rendered(cfg, page)))
    ensures forall e :: e in Rendered(cfg, page) <==>
                        e.key in st.items && e.item == st.items[e.key] && ItemRRs(cfg, e.key, e.item).Some?
    ensures Respond(cfg, st, page, gsIs, ask) == Response(NOERROR, [PageRRs(cfg, page)[i]], [])
            <==> Answered(cfg, st.items, Rendered(cfg, page)[i].key)
  {
    RenderedAre(cfg, page);
    RenderedAscend(cfg, page);
    forall k | k in st.items
      ensures Entry(k, st.items[k]) in page
    {
      ListedAt(st.items, page, k);
    }
    RecordAnswers(cfg, st, page, gsIs, i, ask);
  }

  lemma RecordAnswers(cfg: Config, st: Primary, page: seq<Entry>, gsIs: map<Str, Str>, i: nat, ask: Ask)
    requires ZoneIsLower(cfg) && IsListing(st.items, page) && i < |PageRRs(cfg, page)|
    requires !Indexed(cfg, Rendered(cfg, page)[i].key)
    requires AsksText(ask, ask.name) && EqualFold(ask.name, PageRRs(cfg, page)[i].name)
    ensures Respond(cfg, st, page, gsIs, ask) == Response(NOERROR, [PageRRs(cfg, page)[i]], [])
            <==> Answered(cfg, st.items, Rendered(cfg, page)[i].key)
  {
    var e := Rendered(cfg, page)[i];
    RenderedAre(cfg, page);
    assert e in page;
    RenderedAt(cfg, page, i);
    NamesAreLowerCase(cfg.zone, e.key);
    assert ToLower(ask.name) == ItemName(cfg.zone, e.key);
    AnsweredExactly(cfg, st, page, gsIs, e.key, ask);
  }

  lemma AnsweredExactly(cfg: Config, st: Primary, page: seq<Entry>, gsIs: map<Str, Str>, key: Str, ask: Ask)
    requires ZoneIsLower(cfg) && JsonAt(cfg, st.items, key).Some? && !Indexed(cfg, key)
    requires AsksText(ask, ask.name) && ToLower(ask.name) == ItemName(cfg.zone, key)
    ensures Respond(cfg, st, page, gsIs, ask)
            == Response(NOERROR, [RecordAt(cfg, key, JsonAt(cfg, st.items, key).value)], [])
            <==> Answered(cfg, st.items, key)
  {
    if key != [] {
      RouteAtName(cfg, key);
      ParsedName(cfg.zone, key);
      var parsed := ParseKey(cfg.zone, ItemName(cfg.zone, key));
      if parsed.Some? && parsed.value != [] {
        KeyAnswers(cfg, st, page, gsIs, parsed.value, key, ask);
      }
    }
  }

  /** A printed key comes back as itself, or when it is reserved as its twin, or else as a key printed elsewhere. */
  lemma ParsedName(zone: Str, key: Str)
    requires ToLower(zone) == zone && key != []
    ensures var parsed := ParseKey(zone, ItemName(zone, key));
            if !Reserved(key) then parsed == Some(key)
            else forall k :: parsed == Some(k) && ItemName(zone, k) == ItemName(zone, key) <==> Twin(key) == Some(k)
    ensures Reserved(key) && Twin(key).Some? ==> Twin(key).value != []
  {
    RoundTripExactly(zone, key);
    if Reserved(key) {
      forall k
        ensures ParseKey(zone, ItemName(zone, key)) == Some(k) && ItemName(zone, k) == ItemName(zone, key) <==>
                Twin(key) == Some(k)
        ensures Twin(key) == Some(k) ==> k != []
      {
        TwinExactly(zone, key, k);
        RoundTripExactly(zone, k);
      }
    }
  }

  lemma KeyAnswers(cfg: Config, st: Primary, page: seq<Entry>, gsIs: map<Str, Str>, k: Str, key: Str, ask: Ask)
    requires RouteOf(cfg, ToLower(ask.name), TYPE_TXT) == ByKey(k) && AsksText(ask, ask.name)
    requires JsonAt(cfg, st.items, key).Some?
    ensures Respond(cfg, st, page, gsIs, ask)
            == Response(NOERROR, [RecordAt(cfg, key, JsonAt(cfg, st.items, key).value)], [])
            <==> Lookup(st.items, k) != NilItem && ItemName(cfg.zone, k) == ItemName(cfg.zone, key) &&
                 JsonAt(cfg, st.items, k) == JsonAt(cfg, st.items, key)
  {
    var blob := JsonAt(cfg, st.items, key).value;
    if Lookup(st.items, k) != NilItem && JsonAt(cfg, st.items, k).Some? {
      SameRecord(cfg, k, JsonAt(cfg, st.items, k).value, key, blob);
    }
  }

  // ---------- queries and prerequisites tell the same ----------

  /** The prerequisite that the record at a key holds these character strings. */
  function HoldsStrings(cfg: Config, key: Str, chunks: seq<Str>): SectionRR {
    SectionRR(ItemName(cfg.zone, key), CLASS_INET, TYPE_TXT, 0, Some(EscapeAll(chunks)))
  }

  /** The prerequisite that the item at a key has this very JSON, in character strings of up to 255 bytes. */
  function HoldsValue(cfg: Config, key: Str, v: Str): SectionRR {
    HoldsStrings(cfg, key, Chunks(v, MAX_TXT_CHUNK))
  }

  lemma StringsDecide(cfg: Config, items: map<Str, Item>, key: Str, chunks: seq<Str>, blob: Str)
    requires ZoneIsLower(cfg) && key != [] && !Reserved(key)
    requires Lookup(items, key) != NilItem && cfg.marshal(Lookup(items, key)) == Some(blob)
    ensures CheckOne(cfg, false, items, HoldsStrings(cfg, key, chunks)) ==
            if Concat(chunks) == blob then NOERROR else NXRRSET
  {
    NamesAreLowerCase(cfg.zone, key);
    RoundTripExactly(cfg.zone, key);
    TxtRoundTrip(chunks);
  }

  /** A value prerequisite passes exactly when the value it names is the item's JSON, byte for byte. */
  lemma ValueDecides(cfg: Config, items: map<Str, Item>, key: Str, v: Str, blob: Str)
    requires ZoneIsLower(cfg) && key != [] && !Reserved(key)
    requires Lookup(items, key) != NilItem && cfg.marshal(Lookup(items, key)) == Some(blob)
    ensures CheckOne(cfg, false, items, HoldsValue(cfg, key, v)) == if v == blob then NOERROR else NXRRSET
  {
    ChunksAreTheChunking(v, MAX_TXT_CHUNK, Chunks(v, MAX_TXT_CHUNK));
    StringsDecide(cfg, items, key, Chunks(v, MAX_TXT_CHUNK), blob);
  }

  /** Compare and swap: a request with a value prerequisite succeeds only on an item whose JSON is exactly that value;
      on any other it changes nothing. */
  lemma CompareAndSwap(cfg: Config, io: Faults, st: Primary, req: Request, i: nat, key: Str, v: Str)
    requires ZoneIsLower(cfg) && key != [] && !Reserved(key)
    requires i < |req.prereqs| && req.prereqs[i] == HoldsValue(cfg, key, v)
    ensures var item := Lookup(st.items, key);
            !(item != NilItem && cfg.marshal(item) == Some(v)) ==>
              Process(cfg, io, st, req).rcode != NOERROR && Process(cfg, io, st, req).state == st
  {
    AcceptedExactly(cfg, io, st, req);
    AllOrNothing(cfg, io, st, req);
    if Process(cfg, io, st, req).rcode == NOERROR {
      assert Met(cfg, io.read(i), st.items, req.prereqs[i]);
      MetValue(cfg, io.read(i), st.items, key, v);
    }
  }

  lemma MetValue(cfg: Config, readFails: bool, items: map<Str, Item>, key: Str, v: Str)
    requires ZoneIsLower(cfg) && key != [] && !Reserved(key) && Met(cfg, readFails, items, HoldsValue(cfg, key, v))
    ensures Lookup(items, key) != NilItem && cfg.marshal(Lookup(items, key)) == Some(v)
  {
    NamesAreLowerCase(cfg.zone, key);
    RoundTripExactly(cfg.zone, key);
    TxtRoundTrip(Chunks(v, MAX_TXT_CHUNK));
    ChunksAreTheChunking(v, MAX_TXT_CHUNK, Chunks(v, MAX_TXT_CHUNK));
  }

  /** The prerequisite a client forms from a TXT answer it has read over the wire. */
  function ReadPrerequisite(cfg: Config, key: Str, blob: Str): SectionRR {
    HoldsStrings(cfg, key, WireAll(Chunks(blob, MAX_TXT_CHUNK)))
  }

  /** A value read over the wire satisfies its own value-dependent prerequisite exactly when its JSON has no
      backslash. */
  lemma ReadThenRequire(cfg: Config, items: map<Str, Item>, key: Str, blob: Str)
    requires ZoneIsLower(cfg) && key != [] && !Reserved(key)
    requires Lookup(items, key) != NilItem && cfg.marshal(Lookup(items, key)) == Some(blob)
    ensures CheckOne(cfg, false, items, ReadPrerequisite(cfg, key, blob)) ==
            if '\\' !in blob then NOERROR else NXRRSET
  {
    var wire := WireAll(Chunks(blob, MAX_TXT_CHUNK));
    ReadBackExactly(blob);
    TxtRoundTrip(wire);
    StringsDecide(cfg, items, key, wire, blob);
  }

  /** An index query shows exactly the zone of the items with that attribute value. */
  lemma IndexShows(cfg: Config, serial: uint32, items: map<Str, Item>, page: seq<Entry>, attr: Str, value: Str)
    requires IsListing(items, page)
    ensures var resp := IndexAnswer(cfg, serial, TYPE_TXT, Some(Matching(page, attr, value)));
            && Elements(resp.answer) == ZoneRRs(cfg, Where(items, attr, value))
            && (resp.rcode == NXDOMAIN <==> Where(items, attr, value) == map[])
  {
    MatchingLists(items, page, attr, value);
    PageIsZone(cfg, Where(items, attr, value), Matching(page, attr, value));
    ListingEmpty(Where(items, attr, value), Matching(page, attr, value));
  }

  /** A query, and the prerequisites that a name exists and that it does not, never disagree. */
  lemma ExistenceAgrees(cfg: Config, st: Primary, page: seq<Entry>, gsIs: map<Str, Str>, ask: Ask, rtype: nat)
    requires RouteOf(cfg, ToLower(ask.name), TYPE_TXT).ByKey? && (rtype == TYPE_ANY || rtype == TYPE_TXT)
    requires AsksText(ask, ask.name)
    ensures var missing := Respond(cfg, st, page, gsIs, ask).rcode == NXDOMAIN;
            && CheckOne(cfg, false, st.items, SectionRR(ask.name, CLASS_ANY, rtype, 0, None))
               == (if !missing then NOERROR else if rtype == TYPE_ANY then NXDOMAIN else NXRRSET)
            && CheckOne(cfg, false, st.items, SectionRR(ask.name, CLASS_NONE, rtype, 0, None))
               == (if missing then NOERROR else if rtype == TYPE_ANY then YXDOMAIN else YXRRSET)
  {
    RespondAt(cfg, st, page, gsIs, ask);
  }

  // ---------- queries see writes ----------

  lemma OwnersAreLower(cfg: Config, rrs: seq<SectionRR>, owner: Str)
    requires owner in InsertOwners(ChangesOf(cfg, rrs))
    ensures ToLower(owner) == owner
  {
    var changes := ChangesOf(cfg, rrs);
    InsertOwnersAre(changes);
    var i :| 0 <= i < |changes| && changes[i].Insertion? && changes[i].owner == owner;
    assert changes[i] == ChangeOf(cfg, rrs[i]);
    assert ToLower(ToLower(rrs[i].name)) == ToLower(rrs[i].name);
  }

  /** The answer that shows `item`: its JSON in character strings, or the failure to have any. */
  predicate Shows(cfg: Config, serial: uint32, key: Str, item: Item, resp: Response) {
    if item == NilItem then resp == Response(NXDOMAIN, [], [Soa(cfg, serial)])
    else if cfg.marshal(item).None? then resp == Response(SERVFAIL, [], [])
    else
      && resp.rcode == NOERROR && resp.authority == [] && |resp.answer| == 1
      && resp.answer[0].TXT? && resp.answer[0].name == ItemName(cfg.zone, key)
      && resp.answer[0].ttl == cfg.ttl
      && IsChunking(resp.answer[0].strings, cfg.marshal(item).value, MAX_TXT_CHUNK)
  }

  /** After a successful UPDATE that inserts, a query for the inserted name, in any letter case, shows the item its
      payload decodes to; with several spellings of the key, the first one inserted at. */
  lemma ReadYourWrite(cfg: Config, io: Faults, st: Primary, req: Request, page: seq<Entry>,
                      gsIs: map<Str, Str>, ask: Ask)
    returns (key: Str, item: Item)
    requires Process(cfg, io, st, req).rcode == NOERROR
    requires var changes := ChangesOf(cfg, req.updates);
             InsertOwners(changes) != [] && EqualFold(ask.name, InsertOwners(changes)[0])
    requires RouteOf(cfg, ToLower(ask.name), TYPE_TXT).ByKey? && AsksText(ask, ask.name)
    ensures var payload := DecodeStrings(StringsAt(ChangesOf(cfg, req.updates), ToLower(ask.name)));
            payload.Some? && cfg.unmarshal(payload.value) == Some(item)
    ensures var st' := Process(cfg, io, st, req).state;
            Shows(cfg, st'.serial, key, item, Respond(cfg, st', page, gsIs, ask))
  {
    var st' := Process(cfg, io, st, req).state;
    OwnersAreLower(cfg, req.updates, InsertOwners(ChangesOf(cfg, req.updates))[0]);
    key, item := Stored(cfg, io, st, req, st');
    RespondAt(cfg, st', page, gsIs, ask);
    KeyAnswerShows(cfg, st'.serial, key, item);
  }

  lemma Stored(cfg: Config, io: Faults, st: Primary, req: Request, st': Primary) returns (key: Str, item: Item)
    requires Process(cfg, io, st, req) == Outcome(NOERROR, st')
    requires InsertOwners(ChangesOf(cfg, req.updates)) != []
    ensures var changes := ChangesOf(cfg, req.updates);
            WriteOf(cfg, changes, InsertOwners(changes)[0]) == Ok(Write(key, item))
    ensures Lookup(st'.items, key) == item
  {
    var target, inserts := SuccessInverts(cfg, io, st, req);
    FirstWrite(cfg, ChangesOf(cfg, req.updates), inserts);
    key, item := target, inserts[0].item;
  }

  lemma RespondAt(cfg: Config, st: Primary, page: seq<Entry>, gsIs: map<Str, Str>, ask: Ask)
    requires RouteOf(cfg, ToLower(ask.name), TYPE_TXT).ByKey? && AsksText(ask, ask.name)
    ensures var key := ParseKey(cfg.zone, ToLower(ask.name));
            && key.Some?
            && Respond(cfg, st, page, gsIs, ask)
               == KeyAnswer(cfg, st.serial, TYPE_TXT, false, key.value, Lookup(st.items, key.value))
  {
  }

  lemma KeyAnswerShows(cfg: Config, serial: uint32, key: Str, item: Item)
    ensures Shows(cfg, serial, key, item, KeyAnswer(cfg, serial, TYPE_TXT, false, key, item))
  {
    if cfg.marshal(item).Some? {
      ChunksAreTheChunking(cfg.marshal(item).value, MAX_TXT_CHUNK, Chunks(cfg.marshal(item).value, MAX_TXT_CHUNK));
    }
  }

  /** After a successful UPDATE that only deletes, every name it deleted is gone. */
  lemma ReadYourDelete(cfg: Config, io: Faults, st: Primary, req: Request, page: seq<Entry>,
                       gsIs: map<Str, Str>, i: nat, ask: Ask)
    requires Process(cfg, io, st, req).rcode == NOERROR && !Inserts(req) && i < |req.updates|
    requires AsksText(ask, req.updates[i].name) && RouteOf(cfg, ToLower(ask.name), TYPE_TXT).ByKey?
    ensures Respond(cfg, Process(cfg, io, st, req).state, page, gsIs, ask).rcode == NXDOMAIN
  {
    var st' := Process(cfg, io, st, req).state;
    Deleted(cfg, io, st, req, st', i);
    RespondAt(cfg, st', page, gsIs, ask);
  }

  lemma Deleted(cfg: Config, io: Faults, st: Primary, req: Request, st': Primary, i: nat)
    requires Process(cfg, io, st, req) == Outcome(NOERROR, st') && !Inserts(req) && i < |req.updates|
    ensures var key := ParseKey(cfg.zone, ToLower(req.updates[i].name));
            key.Some? && Lookup(st'.items, key.value) == NilItem
  {
    var _, _ := SuccessInverts(cfg, io, st, req);
  }

  // ---------- every kind of answer ----------

  /** A name that leads to a key: missing, it does not exist for any type; present, it has records of type TXT and no
      other, and ANY asks for those. */
  lemma KeyAnswered(cfg: Config, st: Primary, page: seq<Entry>, gsIs: map<Str, Str>, ask: Ask, key: Str)
    requires RouteOf(cfg, ToLower(ask.name), ask.qtype) == ByKey(key)
    ensures var resp, item := Respond(cfg, st, page, gsIs, ask), Lookup(st.items, key);
            var soa := SOA(cfg.zone, cfg.ttl, st.serial, cfg.ttl);
            if ask.readFails then resp == Response(SERVFAIL, [], [])
            else if ask.qtype in [TYPE_TXT, TYPE_ANY] then Shows(cfg, st.serial, key, item, resp)
            else resp == Response(if item == NilItem then NXDOMAIN else NOERROR, [], [soa])
  {
    KeyAnswerShows(cfg, st.serial, key, Lookup(st.items, key));
  }

  /** The apex answers with its SOA, its NS record or both, and to any other type with an empty answer. */
  lemma ApexAnswered(cfg: Config, st: Primary, page: seq<Entry>, gsIs: map<Str, Str>, ask: Ask)
    requires ToLower(ask.name) == cfg.zone
    ensures var soa := SOA(cfg.zone, cfg.ttl, st.serial, cfg.ttl);
            var ns := Other(cfg.zone, cfg.ttl, TYPE_NS, "ns1." + cfg.zone);
            Respond(cfg, st, page, gsIs, ask) ==
            if ask.qtype == TYPE_SOA then Response(NOERROR, [soa], [])
            else if ask.qtype == TYPE_NS then Response(NOERROR, [ns], [])
            else if ask.qtype == TYPE_ANY then Response(NOERROR, [soa, ns], [])
            else Response(NOERROR, [], [soa])
  {
  }

  /** The server's own names: its status and health in one character string each, its counters in one record per
      character string, and its address by family. */
  lemma OwnNamesAnswered(cfg: Config, st: Primary, page: seq<Entry>, gsIs: map<Str, Str>, ask: Ask)
    requires ToLower(ask.name) != cfg.zone
    ensures var qname, resp := ToLower(ask.name), Respond(cfg, st, page, gsIs, ask);
            var text := ask.qtype in [TYPE_TXT, TYPE_ANY];
            && (qname == "_contractdb" + "." + cfg.zone && text ==>
                  resp == Response(NOERROR, [TXT(ask.name, cfg.ttl, [cfg.status])], []))
            && (qname == "_contractdb" + ".health." + cfg.zone && text ==>
                  resp == Response(NOERROR, [TXT(ask.name, cfg.ttl, ["UP"])], []))
            && (qname == "_contractdb" + ".metrics." + cfg.zone && text ==>
                  resp == Response(NOERROR, MetricsRRs(cfg, ask.name, ask.metrics), []))
            && (qname == "ns1." + cfg.zone && ask.qtype in [TYPE_A, TYPE_ANY] ==>
                  resp == Response(NOERROR, [Other(ask.name, cfg.ttl, if cfg.isV4 then 1 else 28, cfg.address)], []))
  {
    var status, health, metrics := "_contractdb" + "." + cfg.zone, "_contractdb" + ".health." + cfg.zone,
                                   "_contractdb" + ".metrics." + cfg.zone;
    assert |status| < |health| < |metrics|;
    assert status[0] == health[0] == metrics[0] == '_' && ("ns1." + cfg.zone)[0] == 'n';
  }

  /** The records at the metrics name rejoin to the counters' JSON. */
  lemma MetricsRejoin(cfg: Config, name: Str, metrics: Str) returns (parts: seq<Str>)
    ensures IsChunking(parts, metrics, MAX_TXT_CHUNK) && |MetricsRRs(cfg, name, metrics)| == |parts|
    ensures forall i :: 0 <= i < |parts| ==> MetricsRRs(cfg, name, metrics)[i] == TXT(name, cfg.ttl, [parts[i]])
  {
    parts := Chunks(metrics, MAX_TXT_CHUNK);
    ChunksAreTheChunking(metrics, MAX_TXT_CHUNK, parts);
  }

  /** An index query by type, for whatever the index finds. */
  lemma IndexAnswered(cfg: Config, st: Primary, page: seq<Entry>, gsIs: map<Str, Str>, ask: Ask, index: Str, value: Str)
    requires RouteOf(cfg, ToLower(ask.name), ask.qtype) == ByIndex(index, value) && IsListing(st.items, page)
    ensures var resp := Respond(cfg, st, page, gsIs, ask);
            var soa := SOA(cfg.zone, cfg.ttl, st.serial, cfg.ttl);
            if !cfg.enumerable || index !in gsIs then resp == Response(SERVFAIL, [], [])
            else if Where(st.items, gsIs[index], value) == map[] then resp == Response(NXDOMAIN, [], [soa])
            else if ask.qtype !in [TYPE_TXT, TYPE_ANY] then resp == Response(NOERROR, [], [soa])
            else
              && resp.rcode == NOERROR && resp.authority == []
              && Elements(resp.answer) == ZoneRRs(cfg, Where(st.items, gsIs[index], value))
  {
    if cfg.enumerable && index in gsIs {
      IndexShows(cfg, st.serial, st.items, page, gsIs[index], value);
    }
  }

  // ---------- which value an index query looks up ----------

  lemma {:induction false} SplitJoined(value: Str, index: Str)
    requires '.' !in index
    ensures Split(value + "." + index) == Split(value) + [index]
  {
    var whole := value + "." + index;
    SplitFirst(index, []);
    if value == [] {
      assert whole[1..] == index;
    } else {
      SplitJoined(value[1..], index);
      assert whole[1..] == value[1..] + "." + index;
    }
  }

  lemma IndexedParts(cfg: Config, value: Str, index: Str)
    requires '.' !in index
    ensures PartsBelow(cfg, value + "." + index + "." + cfg.zone) == Split(value) + [index]
  {
    PartsOfName(cfg, value + "." + index);
    SplitJoined(value, index);
  }

  /** A name above whose zone stands the label of a configured index looks up everything before that label, dots and
      all; above another label it leads to a key. The text before must not start with "k-", nor the name be the
      server's own. */
  lemma IndexedValue(cfg: Config, value: Str, index: Str, qtype: nat)
    requires ZoneIsLower(cfg) && '.' !in index && !("k-" <= value)
    requires OwnRoute(cfg, value + "." + index + "." + cfg.zone, qtype).None?
    ensures RouteOf(cfg, value + "." + index + "." + cfg.zone, qtype) ==
            if index in cfg.gsis && cfg.gsis[index] != [] then ByIndex(index, value) else ByKey(value + "." + index)
  {
    var rest := value + "." + index;
    NotBase(value, index);
    ParsedExactly(cfg.zone, rest + "." + cfg.zone);
    IndexedParts(cfg, value, index);
    FirstPart(value);
    JoinSplit(value);
    LastPart(Split(value), index);
    RouteOfParts(cfg, rest + "." + cfg.zone, rest, Split(value) + [index], qtype);
  }

  lemma NotBase(value: Str, index: Str)
    requires !("k-" <= value)
    ensures !("k-" <= value + "." + index)
  {
    var rest := value + "." + index;
    assert rest[0] == if value == [] then '.' else value[0];
    assert |value| == 1 ==> rest[1] == '.';
  }

  lemma LastPart(before: seq<Str>, index: Str)
    requires before != []
    ensures var parts := before + [index];
            parts[0] == before[0] && parts[..|parts| - 1] == before && parts[|parts| - 1] == index
  {
  }

  lemma RouteOfParts(cfg: Config, name: Str, rest: Str, parts: seq<Str>, qtype: nat)
    requires |name| > |cfg.zone| && OwnRoute(cfg, name, qtype).None? && rest != [] && |parts| >= 2
    requires ParseKey(cfg.zone, name) == Some(rest) && PartsBelow(cfg, name) == parts && !("k-" <= parts[0])
    ensures var index := parts[|parts| - 1];
            RouteOf(cfg, name, qtype) ==
            if index in cfg.gsis && cfg.gsis[index] != [] then ByIndex(index, Join(parts[..|parts| - 1]))
            else ByKey(rest)
  {
  }

  /** A single base32 label below an index, in any spelling, looks up what it spells. */
  lemma IndexedBase(cfg: Config, value: Str, text: Str, index: Str, qtype: nat)
    requires ZoneIsLower(cfg) && '.' !in index && IsIndex(cfg, index) && value != []
    requires ToUpper(text) == Base32.Encode(value) || ToUpper(text) == Unpadded(Base32.Encode(value))
    ensures RouteOf(cfg, "k-" + text + "." + index + "." + cfg.zone, qtype) == ByIndex(index, value)
  {
    SpellingDecodes(value, text);
    DecodedBelowIndex(cfg, value, text, index, qtype);
  }

  lemma DecodedBelowIndex(cfg: Config, value: Str, text: Str, index: Str, qtype: nat)
    requires ZoneIsLower(cfg) && '.' !in index && IsIndex(cfg, index) && value != []
    requires '.' !in text && Base32.Decode(PadTo8(ToUpper(text))) == Some(value)
    ensures RouteOf(cfg, "k-" + text + "." + index + "." + cfg.zone, qtype) == ByIndex(index, value)
  {
    var first: Str := "k-" + text;
    var name: Str := first + "." + index + "." + cfg.zone;
    BaseBelowIndex(cfg, first, text, index);
    NotOwnName(cfg, name, qtype);
    RouteOfBase(cfg, name, first, index, value, qtype);
  }

  lemma BaseBelowIndex(cfg: Config, first: Str, text: Str, index: Str)
    requires ZoneIsLower(cfg) && first == "k-" + text && '.' !in text && '.' !in index
    ensures var name := first + "." + index + "." + cfg.zone;
            && ParseKey(cfg.zone, name) == Base32.Decode(PadTo8(ToUpper(text)))
            && PartsBelow(cfg, name) == [first, index]
            && |name| > |cfg.zone| && name[0] == 'k'
  {
    ParsedBase(cfg.zone, text, "." + index, cfg.zone);
    assert first + ("." + index) == first + "." + index;
    IndexedParts(cfg, first, index);
    SplitFirst(first, []);
  }

  lemma RouteOfBase(cfg: Config, name: Str, first: Str, index: Str, value: Str, qtype: nat)
    requires |name| > |cfg.zone| && OwnRoute(cfg, name, qtype).None? && IsIndex(cfg, index) && "k-" <= first
    requires ParseKey(cfg.zone, name) == Some(value) && value != [] && PartsBelow(cfg, name) == [first, index]
    ensures RouteOf(cfg, name, qtype) == ByIndex(index, value)
  {
  }

  lemma NotOwnName(cfg: Config, name: Str, qtype: nat)
    requires |name| > 0 && name[0] == 'k'
    ensures OwnRoute(cfg, name, qtype).None?
  {
    assert (STATUS_NAME + "." + cfg.zone)[0] == '_' && (STATUS_NAME + ".health." + cfg.zone)[0] == '_';
    assert (STATUS_NAME + ".metrics." + cfg.zone)[0] == '_' && ("ns1." + cfg.zone)[0] == 'n';
  }
}
