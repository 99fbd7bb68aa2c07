/** Requests on which the server's promises fail, for each way in which a step can be unfaithful. */
module Divergence {
  import opened Wrappers
  import opened Collections
  import opened Strings
  import opened Values
  import opened Dns
  import opened Names
  import opened Txt
  import opened Records
  import opened Store
  import opened Update
  import opened Transfer
  import opened Replication
  import opened Locks
  import Base32
  import Journal

  function TxtAt(name: Str, payload: Str): SectionRR {
    SectionRR(name, CLASS_INET, TYPE_TXT, 0, Some([payload]))
  }

  function DeletionAt(name: Str): SectionRR {
    SectionRR(name, CLASS_ANY, TYPE_ANY, 0, None)
  }

  function UpdateRequest(cfg: Config, prereqs: seq<SectionRR>, rrs: seq<SectionRR>): Request {
    Request([Question(cfg.zone, TYPE_SOA, CLASS_INET)], prereqs, rrs)
  }

  /** The name reaches the key, and the payload, free of escapes, decodes to the item. */
  predicate Spells(cfg: Config, name: Str, payload: Str, key: Str, item: Item) {
    && ParseKey(cfg.zone, name) == Some(key) && ToLower(name) == name
    && '\\' !in payload && cfg.unmarshal(payload) == Some(item)
  }

  lemma {:induction false} DecodePlain(s: Str)
    requires '\\' !in s
    ensures DecodeChunk(s) == Some(s)
  {
    if s != [] {
      DecodePlain(s[1..]);
      assert [s[0]] + s[1..] == s;
    }
  }

  lemma DecodeOne(payload: Str)
    requires '\\' !in payload
    ensures DecodeStrings([payload]) == Some(payload)
  {
    DecodePlain(payload);
    assert [payload][1..] == [];
    assert payload + [] == payload;
  }

  lemma InsertionAt(cfg: Config, name: Str, payload: Str, key: Str, item: Item)
    requires Spells(cfg, name, payload, key, item)
    ensures ChangeOf(cfg, TxtAt(name, payload)) == Insertion(name, [payload])
  {
  }

  lemma WriteAt(cfg: Config, changes: seq<Change>, name: Str, payload: Str, key: Str, item: Item)
    requires Spells(cfg, name, payload, key, item) && StringsAt(changes, name) == [payload]
    ensures WriteOf(cfg, changes, name) == Ok(Write(key, item))
  {
    DecodeOne(payload);
  }

  /** Inserting one value at one name plans exactly that write. */
  lemma PlanOne(cfg: Config, name: Str, payload: Str, key: Str, item: Item)
    requires Spells(cfg, name, payload, key, item)
    ensures var changes := ChangesOf(cfg, [TxtAt(name, payload)]);
            FirstRejection(changes).None? && PlanChanges(cfg, changes) == Mutate(key, [Write(key, item)])
  {
    InsertionAt(cfg, name, payload, key, item);
    var changes := ChangesOf(cfg, [TxtAt(name, payload)]);
    var c := Insertion(name, [payload]);
    assert changes == [c] && changes[1..] == [];
    OneInsertion(c);
    WriteAt(cfg, [c], name, payload, key, item);
    PlanOfOne(cfg, c, Write(key, item));
  }

  lemma PlanOfOne(cfg: Config, c: Change, w: Write)
    requires c.Insertion? && WriteOf(cfg, [c], c.owner) == Ok(w)
    ensures PlanChanges(cfg, [c]) == Mutate(w.pk, [w])
  {
    OneInsertion(c);
    WritesOfOne(cfg, [c], c.owner, w);
    PlanOfOwners(cfg, [c], [c.owner], w.pk, [w]);
  }

  lemma OneInsertion(c: Change)
    requires c.Insertion?
    ensures InsertOwners([c]) == [c.owner] && Deletions([c]) == [] && StringsAt([c], c.owner) == c.strings
    ensures Distinct([c.owner]) == [c.owner]
  {
    assert [c][..0] == [];
    assert [c.owner][..0] == [];
  }

  lemma WritesOfOne(cfg: Config, changes: seq<Change>, owner: Str, w: Write)
    requires WriteOf(cfg, changes, owner) == Ok(w)
    ensures Writes(cfg, changes, [owner]) == Ok([w])
  {
    assert Attempts(cfg, changes, [owner]) == [Ok(w)];
    GatherOne(w);
  }

  lemma GatherOne(w: Write)
    ensures Gather([Ok(w)]) == Ok([w])
  {
    var a: seq<Result<Write, Rcode>> := [Ok(w)];
    assert a[..0] == [] && [] + [w] == [w];
  }

  lemma WritesOfTwo(cfg: Config, changes: seq<Change>, o1: Str, o2: Str, w1: Write, w2: Write)
    requires WriteOf(cfg, changes, o1) == Ok(w1) && WriteOf(cfg, changes, o2) == Ok(w2)
    ensures Writes(cfg, changes, [o1, o2]) == Ok([w1, w2])
  {
    var a: seq<Result<Write, Rcode>> := [Ok(w1), Ok(w2)];
    assert Attempts(cfg, changes, [o1, o2]) == a;
    GatherOne(w1);
    assert a[..1] == [Ok(w1)] && [w1] + [w2] == [w1, w2];
  }

  lemma PlanDeletion(cfg: Config, name: Str, key: Str)
    requires ParseKey(cfg.zone, name) == Some(key) && ToLower(name) == name
    ensures var changes := ChangesOf(cfg, [DeletionAt(name)]);
            FirstRejection(changes).None? && PlanChanges(cfg, changes) == Mutate(key, [])
  {
    var c := Deletion(key);
    var changes := ChangesOf(cfg, [DeletionAt(name)]);
    assert changes == [c] && changes[1..] == [];
    OneDeletion(c);
    PlanOfDeletion(cfg, [c], key);
  }

  lemma OneDeletion(c: Change)
    requires c.Deletion?
    ensures InsertOwners([c]) == [] && Deletions([c]) == [c.key]
  {
    assert [c][..0] == [];
    NoInsertOwners([c]);
  }

  lemma PlanOfDeletion(cfg: Config, changes: seq<Change>, key: Str)
    requires InsertOwners(changes) == [] && Deletions(changes) == [key]
    ensures PlanChanges(cfg, changes) == Mutate(key, [])
  {
    assert Attempts(cfg, changes, []) == [];
    AffectedOnly([key], [], key);
  }

  // ---------- from plans to what the server does ----------

  /** No store call of this request fails. */
  ghost predicate Calm(io: Faults) {
    (forall n :: !io.read(n)) && !io.write
  }

  /** A server that takes UPDATEs and transfers, with a journal that has so far been kept by UPDATEs. */
  ghost predicate Serving(cfg: Config, st: Primary, base: nat, hist: seq<Delta>) {
    cfg.writable && cfg.enumerable && st.journal.Some? && st.serial < MAX_UINT32 - 1 && Journalled(st, base, hist)
  }

  /** A request answered NOERROR, after which an up-to-date secondary is not brought to the server's zone. */
  ghost predicate Misleads(cfg: Config, io: Faults, st: Primary, req: Request) {
    var o := Process(cfg, io, st, req);
    o.rcode == NOERROR && !Served(cfg, st, o.state)
  }

  /** Exactly the unfaithful requests mislead. */
  lemma MisleadsExactly(cfg: Config, io: Faults, st: Primary, req: Request, base: nat, hist: seq<Delta>)
    requires Serving(cfg, st, base, hist)
    ensures Misleads(cfg, io, st, req) <==> !FaithfulStep(cfg, st, Arrival(io, req))
  {
    var a := Arrival(io, req);
    var st' := Process(cfg, io, st, req).state;
    FaithfulStepExactly(cfg, st, a);
    StepRebuildsExactly(cfg, st, a, base, hist);
    SerialStep(cfg, st, a, st');
    var hist' := StepJournalled(cfg, st, a, base, hist);
    ServedExactly(cfg, st, st', base, hist');
    UnfaithfulSucceeds(cfg, st, a);
  }

  lemma UnfaithfulSucceeds(cfg: Config, st: Primary, a: Arrival)
    ensures !FaithfulStep(cfg, st, a) ==> Process(cfg, a.io, st, a.req).rcode == NOERROR
    ensures Process(cfg, a.io, st, a.req).rcode != NOERROR ==> Process(cfg, a.io, st, a.req).state == st
  {
    AllOrNothing(cfg, a.io, st, a.req);
  }

  lemma PlanOfRequest(cfg: Config, io: Faults, items: map<Str, Item>, prereqs: seq<SectionRR>, rrs: seq<SectionRR>,
                      plan: Plan)
    requires cfg.writable && Demanded(cfg, io, items, prereqs)
    requires FirstRejection(ChangesOf(cfg, rrs)).None? && PlanChanges(cfg, ChangesOf(cfg, rrs)) == plan
    ensures PlanOf(cfg, io, items, UpdateRequest(cfg, prereqs, rrs)) == plan
  {
    DemandedExactly(cfg, io, items, prereqs);
  }

  /** A planned write is carried out when its store calls succeed. */
  lemma CarriedOut(cfg: Config, io: Faults, st: Primary, prereqs: seq<SectionRR>, rrs: seq<SectionRR>,
                   key: Str, inserts: seq<Write>)
    requires cfg.writable && Calm(io) && Demanded(cfg, io, st.items, prereqs)
    requires FirstRejection(ChangesOf(cfg, rrs)).None? && PlanChanges(cfg, ChangesOf(cfg, rrs)) == Mutate(key, inserts)
    ensures Process(cfg, io, st, UpdateRequest(cfg, prereqs, rrs)) == Outcome(NOERROR, Perform(cfg, st, key, inserts))
  {
    PlanOfRequest(cfg, io, st.items, prereqs, rrs, Mutate(key, inserts));
  }

  lemma UnfaithfulMisleads(cfg: Config, io: Faults, st: Primary, rrs: seq<SectionRR>, base: nat, hist: seq<Delta>,
                           key: Str, inserts: seq<Write>)
    requires Serving(cfg, st, base, hist) && Calm(io) && !Faithful(cfg, st.items, key, inserts)
    requires FirstRejection(ChangesOf(cfg, rrs)).None? && PlanChanges(cfg, ChangesOf(cfg, rrs)) == Mutate(key, inserts)
    ensures Misleads(cfg, io, st, UpdateRequest(cfg, [], rrs))
  {
    PlanOfRequest(cfg, io, st.items, [], rrs, Mutate(key, inserts));
    MisleadsExactly(cfg, io, st, UpdateRequest(cfg, [], rrs), base, hist);
  }

  // ---------- unfaithful requests ----------

  /** Overwriting a stored null: its record is never journalled as removed, so it stays with every secondary. */
  lemma OverwrittenNullMisleads(cfg: Config, io: Faults, st: Primary, base: nat, hist: seq<Delta>,
                                name: Str, payload: Str, key: Str, item: Item)
    requires Serving(cfg, st, base, hist) && Calm(io)
    requires key in st.items && st.items[key] == NilItem && Spells(cfg, name, payload, key, item)
    requires cfg.marshal(NilItem) == Some("null") && cfg.marshal(item) == Some(payload) && payload != "null"
    requires TwinJson(cfg, st.items, key) != Some("null")
    ensures Misleads(cfg, io, st, UpdateRequest(cfg, [], [TxtAt(name, payload)]))
  {
    PlanOne(cfg, name, payload, key, item);
    UnfaithfulMisleads(cfg, io, st, [TxtAt(name, payload)], base, hist, key, [Write(key, item)]);
  }

  /** Two requests are enough to get there: insert null, then an item. */
  lemma NullThenItemMisleads(cfg: Config, io: Faults, st: Primary, base: nat, hist: seq<Delta>,
                             name: Str, payload: Str, key: Str, item: Item)
    requires Serving(cfg, st, base, hist) && Calm(io) && st.serial < MAX_UINT32 - 2
    requires Spells(cfg, name, "null", key, NilItem) && Spells(cfg, name, payload, key, item)
    requires cfg.marshal(NilItem) == Some("null") && cfg.marshal(item) == Some(payload) && payload != "null"
    requires TwinJson(cfg, st.items, key) != Some("null")
    ensures var first := Process(cfg, io, st, UpdateRequest(cfg, [], [TxtAt(name, "null")]));
            first.rcode == NOERROR && Misleads(cfg, io, first.state, UpdateRequest(cfg, [], [TxtAt(name, payload)]))
  {
    var hist' := InsertCarriedOut(cfg, io, st, base, hist, name, "null", key, NilItem);
    var st' := Process(cfg, io, st, UpdateRequest(cfg, [], [TxtAt(name, "null")])).state;
    if Twin(key).Some? {
      TwinExactly(cfg.zone, key, Twin(key).value);
    }
    OverwrittenNullMisleads(cfg, io, st', base, hist', name, payload, key, item);
  }

  /** Two spellings of one key in one request: only the first value is stored, both are journalled as added. */
  lemma AliasesMislead(cfg: Config, io: Faults, st: Primary, base: nat, hist: seq<Delta>,
                       n1: Str, p1: Str, i1: Item, n2: Str, p2: Str, i2: Item, key: Str)
    requires Serving(cfg, st, base, hist) && Calm(io) && n1 != n2
    requires Spells(cfg, n1, p1, key, i1) && Spells(cfg, n2, p2, key, i2)
    requires cfg.marshal(i1) == Some(p1) && cfg.marshal(i2) == Some(p2) && p1 != p2
    requires TwinJson(cfg, st.items, key) != Some(p2)
    ensures var req := UpdateRequest(cfg, [], TwoTexts(n1, p1, n2, p2));
            && Misleads(cfg, io, st, req)
            && StoresFirstJournalsBoth(cfg, st, Process(cfg, io, st, req).state, key, i1, p1, p2)
  {
    PlanTwo(cfg, n1, p1, i1, n2, p2, i2, key);
    AliasesCarriedOut(cfg, io, st, base, hist, TwoTexts(n1, p1, n2, p2), i1, p1, i2, p2, key);
  }

  lemma AliasesCarriedOut(cfg: Config, io: Faults, st: Primary, base: nat, hist: seq<Delta>, rrs: seq<SectionRR>,
                          i1: Item, p1: Str, i2: Item, p2: Str, key: Str)
    requires Serving(cfg, st, base, hist) && Calm(io) && FirstRejection(ChangesOf(cfg, rrs)).None?
    requires PlanChanges(cfg, ChangesOf(cfg, rrs)) == Mutate(key, [Write(key, i1), Write(key, i2)])
    requires cfg.marshal(i1) == Some(p1) && cfg.marshal(i2) == Some(p2) && p1 != p2
    requires TwinJson(cfg, st.items, key) != Some(p2)
    ensures var req := UpdateRequest(cfg, [], rrs);
            && Misleads(cfg, io, st, req)
            && StoresFirstJournalsBoth(cfg, st, Process(cfg, io, st, req).state, key, i1, p1, p2)
  {
    var inserts := [Write(key, i1), Write(key, i2)];
    TwoValuesUnfaithful(cfg, st.items, key, i1, p1, i2, p2);
    UnfaithfulMisleads(cfg, io, st, rrs, base, hist, key, inserts);
    CarriedOut(cfg, io, st, [], rrs, key, inserts);
    TwoStored(cfg, st, key, i1, p1, i2, p2);
  }

  function TwoTexts(n1: Str, p1: Str, n2: Str, p2: Str): seq<SectionRR> {
    [TxtAt(n1, p1), TxtAt(n2, p2)]
  }

  predicate StoresFirstJournalsBoth(cfg: Config, st: Primary, st': Primary, key: Str, i1: Item, p1: Str, p2: Str)
    requires st.journal.Some?
  {
    var added := [RecordAt(cfg, key, p1), RecordAt(cfg, key, p2)];
    var delta := Delta(Inc(st.serial), RemovedRRs(cfg, st.items, key), added);
    st'.items == st.items[key := i1] && st'.journal == Some(Journal.RecordIn(st.journal.value, delta))
  }

  lemma TwoValuesUnfaithful(cfg: Config, items: map<Str, Item>, key: Str, i1: Item, p1: Str, i2: Item, p2: Str)
    requires cfg.marshal(i1) == Some(p1) && cfg.marshal(i2) == Some(p2) && p1 != p2
    requires TwinJson(cfg, items, key) != Some(p2)
    ensures !Faithful(cfg, items, key, [Write(key, i1), Write(key, i2)])
  {
    var inserts := [Write(key, i1), Write(key, i2)];
    assert cfg.marshal(inserts[1].item) == Some(p2);
  }

  lemma TwoStored(cfg: Config, st: Primary, key: Str, i1: Item, p1: Str, i2: Item, p2: Str)
    requires st.journal.Some? && cfg.marshal(i1) == Some(p1) && cfg.marshal(i2) == Some(p2)
    ensures var st' := Perform(cfg, st, key, [Write(key, i1), Write(key, i2)]);
            StoresFirstJournalsBoth(cfg, st, st', key, i1, p1, p2)
  {
    AddedTwo(cfg, key, i1, p1, i2, p2);
  }

  lemma AddedTwo(cfg: Config, key: Str, i1: Item, p1: Str, i2: Item, p2: Str)
    requires cfg.marshal(i1) == Some(p1) && cfg.marshal(i2) == Some(p2)
    ensures AddedRRs(cfg, [Write(key, i1), Write(key, i2)]) == [RecordAt(cfg, key, p1), RecordAt(cfg, key, p2)]
  {
    var inserts := [Write(key, i1), Write(key, i2)];
    AddedBySingleOwner(cfg, [Write(key, i1)]);
    assert inserts[..1] == [Write(key, i1)];
  }

  lemma PlanTwo(cfg: Config, n1: Str, p1: Str, i1: Item, n2: Str, p2: Str, i2: Item, key: Str)
    requires n1 != n2 && Spells(cfg, n1, p1, key, i1) && Spells(cfg, n2, p2, key, i2)
    ensures var changes := ChangesOf(cfg, TwoTexts(n1, p1, n2, p2));
            FirstRejection(changes).None? && PlanChanges(cfg, changes) == Mutate(key, [Write(key, i1), Write(key, i2)])
  {
    var c1, c2 := Insertion(n1, [p1]), Insertion(n2, [p2]);
    InsertionAt(cfg, n1, p1, key, i1);
    InsertionAt(cfg, n2, p2, key, i2);
    assert ChangesOf(cfg, TwoTexts(n1, p1, n2, p2)) == [c1, c2];
    TwoInsertions(c1, c2);
    NoRejection([c1, c2]);
    WriteAt(cfg, [c1, c2], n1, p1, key, i1);
    WriteAt(cfg, [c1, c2], n2, p2, key, i2);
    PlanOfTwo(cfg, c1, c2, Write(key, i1), Write(key, i2));
  }

  lemma PlanOfTwo(cfg: Config, c1: Change, c2: Change, w1: Write, w2: Write)
    requires c1.Insertion? && c2.Insertion? && c1.owner != c2.owner && w1.pk == w2.pk
    requires WriteOf(cfg, [c1, c2], c1.owner) == Ok(w1) && WriteOf(cfg, [c1, c2], c2.owner) == Ok(w2)
    ensures PlanChanges(cfg, [c1, c2]) == Mutate(w1.pk, [w1, w2])
  {
    TwoInsertions(c1, c2);
    WritesOfTwo(cfg, [c1, c2], c1.owner, c2.owner, w1, w2);
    PlanOfOwners(cfg, [c1, c2], [c1.owner, c2.owner], w1.pk, [w1, w2]);
  }

  lemma PlanOfOwners(cfg: Config, changes: seq<Change>, owners: seq<Str>, key: Str, inserts: seq<Write>)
    requires InsertOwners(changes) == owners == Distinct(owners) && Deletions(changes) == [] && inserts != []
    requires Writes(cfg, changes, owners) == Ok(inserts) && forall i :: 0 <= i < |inserts| ==> inserts[i].pk == key
    ensures PlanChanges(cfg, changes) == Mutate(key, inserts)
  {
    AffectedOnly([], inserts, key);
  }

  lemma TwoInsertions(c1: Change, c2: Change)
    requires c1.Insertion? && c2.Insertion? && c1.owner != c2.owner
    ensures InsertOwners([c1, c2]) == [c1.owner, c2.owner] && Deletions([c1, c2]) == []
    ensures Distinct([c1.owner, c2.owner]) == [c1.owner, c2.owner]
    ensures StringsAt([c1, c2], c1.owner) == c1.strings && StringsAt([c1, c2], c2.owner) == c2.strings
  {
    assert [c1, c2][..1] == [c1] && [c1.owner, c2.owner][..1] == [c1.owner];
    OneInsertion(c1);
    assert [c1][..0] == [];
    assert StringsAt([c1], c2.owner) == [];
  }

  /** Such spellings exist: the padded and the unpadded name of the key "A". */
  lemma SpellingsOfA(zone: Str)
    requires ToLower(zone) == zone
    ensures ParseKey(zone, "k-" + "ie======" + "." + zone) == Some("A")
    ensures ParseKey(zone, "k-" + "ie" + "." + zone) == Some("A")
    ensures ToLower("k-" + "ie======" + "." + zone) == "k-" + "ie======" + "." + zone
    ensures ToLower("k-" + "ie" + "." + zone) == "k-" + "ie" + "." + zone
  {
    LowerSpelling("ie======", zone);
    LowerSpelling("ie", zone);
    AInBase32();
    UnpaddedA();
    PaddedText();
    UnpaddedText();
    BaseFormAnySpelling(zone, "A", "ie======", zone);
    BaseFormAnySpelling(zone, "A", "ie", zone);
  }

  lemma LowerSpelling(text: Str, zone: Str)
    requires ToLower(zone) == zone && ToLower(text) == text
    ensures ToLower("k-" + text + "." + zone) == "k-" + text + "." + zone
  {
    ToLowerConcat("k-", text);
    ToLowerConcat("k-" + text, ".");
    ToLowerConcat("k-" + text + ".", zone);
  }

  /** One UPDATE with different values at both names of "A" misleads. */
  lemma SpellingsOfAMislead(cfg: Config, io: Faults, st: Primary, base: nat, hist: seq<Delta>,
                            p1: Str, i1: Item, p2: Str, i2: Item)
    requires ZoneIsLower(cfg) && Serving(cfg, st, base, hist) && Calm(io)
    requires '\\' !in p1 && cfg.unmarshal(p1) == Some(i1) && cfg.marshal(i1) == Some(p1)
    requires '\\' !in p2 && cfg.unmarshal(p2) == Some(i2) && cfg.marshal(i2) == Some(p2)
    requires p1 != p2 && TwinJson(cfg, st.items, "A") != Some(p2)
    ensures var n1, n2 := "k-" + "ie======" + "." + cfg.zone, "k-" + "ie" + "." + cfg.zone;
            Misleads(cfg, io, st, UpdateRequest(cfg, [], TwoTexts(n1, p1, n2, p2)))
  {
    SpellingsOfA(cfg.zone);
    var n1, n2 := "k-" + "ie======" + "." + cfg.zone, "k-" + "ie" + "." + cfg.zone;
    assert |n1| != |n2|;
    AliasesMislead(cfg, io, st, base, hist, n1, p1, i1, n2, p2, i2, "A");
  }

  lemma PaddedText()
    ensures ToUpper("ie======") == "IE======"
  {
    var l, u: Str := "ie======", "IE======";
    assert forall i :: 0 <= i < 8 ==> ToUpper(l)[i] == u[i];
  }

  lemma UnpaddedText()
    ensures ToUpper("ie") == "IE"
  {
  }

  lemma AInBase32()
    ensures Base32.Encode("A") == "IE======"
  {
    var z := Base32.ZeroPad("A");
    assert Base32.Group(z, 0) == 8 && Base32.Group(z, 1) == 4;
    assert Base32.EncodeQuantum("A") == "IE======";
  }

  lemma UnpaddedA()
    ensures Unpadded("IE======") == "IE"
  {
    var u, e: Str := "IE", "IE======";
    assert e == u + Repeat('=', 6);
    UnpadRepeat(u, 6);
  }

  lemma {:induction false} UnpadRepeat(u: Str, k: nat)
    requires u != [] && u[|u| - 1] != '='
    ensures Unpadded(u + Repeat('=', k)) == u
  {
    var e := u + Repeat('=', k);
    if k == 0 {
      assert e == u;
    } else {
      UnpadRepeat(u, k - 1);
      assert e[..|e| - 1] == u + Repeat('=', k - 1);
    }
  }

  /** Two stored keys with one owner name and one JSON: deleting one withdraws the record of both. */
  lemma SharedNameMisleads(cfg: Config, io: Faults, st: Primary, base: nat, hist: seq<Delta>, name: Str, a: Str, b: Str)
    requires Serving(cfg, st, base, hist) && Calm(io) && ParseKey(cfg.zone, name) == Some(a) && ToLower(name) == name
    requires a != b && ItemName(cfg.zone, a) == ItemName(cfg.zone, b) && a in st.items && b in st.items
    requires st.items[a] != NilItem && cfg.marshal(st.items[a]).Some?
    requires cfg.marshal(st.items[a]) == cfg.marshal(st.items[b])
    ensures Misleads(cfg, io, st, UpdateRequest(cfg, [], [DeletionAt(name)]))
  {
    PlanDeletion(cfg, name, a);
    TwinExactly(cfg.zone, a, b);
    UnfaithfulMisleads(cfg, io, st, [DeletionAt(name)], base, hist, a, []);
  }

  /** The owner name "HELLO" and "k-jbcuytcp" share. */
  function HelloName(cfg: Config): Str {
    "k-jbcuytcp" + "." + cfg.zone
  }

  /** The name that reaches the key "k-jbcuytcp". */
  function LiteralName(cfg: Config): Str {
    BaseForm("k-jbcuytcp") + "." + cfg.zone
  }

  lemma NamesOfTwins(cfg: Config)
    requires ZoneIsLower(cfg)
    ensures ParseKey(cfg.zone, HelloName(cfg)) == Some("HELLO") && ToLower(HelloName(cfg)) == HelloName(cfg)
    ensures ParseKey(cfg.zone, LiteralName(cfg)) == Some("k-jbcuytcp") && ToLower(LiteralName(cfg)) == LiteralName(cfg)
  {
    HelloIsShadowed();
    LowerName("HELLO", cfg.zone);
    LowerName("k-jbcuytcp", cfg.zone);
    LowerText("HELLO");
    LowerText("k-jbcuytcp");
    BaseFormAnySpelling(cfg.zone, "HELLO", ToLower(Base32.Encode("HELLO")), cfg.zone);
    BaseFormAnySpelling(cfg.zone, "k-jbcuytcp", ToLower(Base32.Encode("k-jbcuytcp")), cfg.zone);
  }

  lemma LowerText(key: Str)
    ensures ToUpper(ToLower(Base32.Encode(key))) == Base32.Encode(key)
  {
    Base32.EncodedShape(key);
    UpperUndoesLower(Base32.Encode(key));
  }

  lemma LowerName(key: Str, zone: Str)
    requires ToLower(zone) == zone
    ensures var name := BaseForm(key) + "." + zone; ToLower(name) == name
  {
    var e := ToLower(Base32.Encode(key));
    assert ToLower(e) == e;
    ToLowerConcat("k-", e);
    ToLowerConcat(BaseForm(key), ".");
    ToLowerConcat(BaseForm(key) + ".", zone);
  }

  /** An insertion as the server makes it. */
  lemma InsertCarriedOut(cfg: Config, io: Faults, st: Primary, base: nat, hist: seq<Delta>,
                         name: Str, payload: Str, key: Str, item: Item) returns (hist': seq<Delta>)
    requires Serving(cfg, st, base, hist) && Calm(io) && Spells(cfg, name, payload, key, item)
    ensures var o := Process(cfg, io, st, UpdateRequest(cfg, [], [TxtAt(name, payload)]));
            && o.rcode == NOERROR
            && o.state.items == st.items[key := item]
            && o.state.serial == st.serial + 1
            && o.state.journal.Some?
            && Journalled(o.state, base, hist')
  {
    PlanOne(cfg, name, payload, key, item);
    CarriedOut(cfg, io, st, [], [TxtAt(name, payload)], key, [Write(key, item)]);
    PerformJournalled(cfg, st, key, [Write(key, item)], base, hist);
    hist' := hist + [DeltaOf(cfg, st, key, [Write(key, item)])];
  }

  /** Three requests, each answered NOERROR, the last of which misleads: insert one value at the names of both
      keys, then delete at the first name. */
  lemma CollisionMisleads(cfg: Config, io: Faults, st: Primary, base: nat, hist: seq<Delta>, payload: Str, item: Item)
    requires ZoneIsLower(cfg) && Serving(cfg, st, base, hist) && Calm(io) && st.serial < MAX_UINT32 - 3
    requires '\\' !in payload && cfg.unmarshal(payload) == Some(item) && item != NilItem && cfg.marshal(item).Some?
    ensures var first := Process(cfg, io, st, UpdateRequest(cfg, [], [TxtAt(HelloName(cfg), payload)]));
            var second := Process(cfg, io, first.state, UpdateRequest(cfg, [], [TxtAt(LiteralName(cfg), payload)]));
            && first.rcode == second.rcode == NOERROR
            && Misleads(cfg, io, second.state, UpdateRequest(cfg, [], [DeletionAt(HelloName(cfg))]))
  {
    NamesOfTwins(cfg);
    CollisionExample(cfg.zone);
    assert |"HELLO"| != |"k-jbcuytcp"|;
    var hist1 := InsertCarriedOut(cfg, io, st, base, hist, HelloName(cfg), payload, "HELLO", item);
    var st1 := Process(cfg, io, st, UpdateRequest(cfg, [], [TxtAt(HelloName(cfg), payload)])).state;
    var hist2 := InsertCarriedOut(cfg, io, st1, base, hist1, LiteralName(cfg), payload, "k-jbcuytcp", item);
    var st2 := Process(cfg, io, st1, UpdateRequest(cfg, [], [TxtAt(LiteralName(cfg), payload)])).state;
    SharedNameMisleads(cfg, io, st2, base, hist2, HelloName(cfg), "HELLO", "k-jbcuytcp");
  }

  /** A lock taken with the payload null does not hold: the same request acquires it again at once. */
  lemma NullDoesNotLock(cfg: Config, io: Faults, st: Primary, name: Str, key: Str)
    requires cfg.writable && Calm(io) && Lookup(st.items, key) == NilItem && Spells(cfg, name, "null", key, NilItem)
    ensures var absent := SectionRR(name, CLASS_NONE, TYPE_ANY, 0, None);
            var a := Arrival(io, UpdateRequest(cfg, [absent], [TxtAt(name, "null")]));
            && Acquired(cfg, st, a, key)
            && Acquired(cfg, Process(cfg, io, st, a.req).state, a, key)
  {
    var absent := SectionRR(name, CLASS_NONE, TYPE_ANY, 0, None);
    NullAcquires(cfg, io, st, name, key, absent);
    NullAcquires(cfg, io, Perform(cfg, st, key, [Write(key, NilItem)]), name, key, absent);
  }

  lemma AsksForLock(cfg: Config, name: Str, payload: Str, key: Str, absent: SectionRR)
    requires ParseKey(cfg.zone, name) == Some(key) && ToLower(name) == name
    requires absent == SectionRR(name, CLASS_NONE, TYPE_ANY, 0, None)
    ensures Acquires(cfg, UpdateRequest(cfg, [absent], [TxtAt(name, payload)]), key)
  {
    var req := UpdateRequest(cfg, [absent], [TxtAt(name, payload)]);
    assert RequiresAbsent(cfg, req.prereqs[0], key);
    assert IsInsertion(req.updates[0]);
  }

  lemma AbsenceHolds(cfg: Config, io: Faults, items: map<Str, Item>, name: Str, key: Str, absent: SectionRR)
    requires ParseKey(cfg.zone, name) == Some(key) && ToLower(name) == name && Calm(io) && Lookup(items, key) == NilItem
    requires absent == SectionRR(name, CLASS_NONE, TYPE_ANY, 0, None)
    ensures Demanded(cfg, io, items, [absent])
  {
  }

  lemma NullAcquires(cfg: Config, io: Faults, st: Primary, name: Str, key: Str, absent: SectionRR)
    requires cfg.writable && Calm(io) && Lookup(st.items, key) == NilItem && Spells(cfg, name, "null", key, NilItem)
    requires absent == SectionRR(name, CLASS_NONE, TYPE_ANY, 0, None)
    ensures var a := Arrival(io, UpdateRequest(cfg, [absent], [TxtAt(name, "null")]));
            && Acquired(cfg, st, a, key)
            && Process(cfg, io, st, a.req).state == Perform(cfg, st, key, [Write(key, NilItem)])
  {
    PlanOne(cfg, name, "null", key, NilItem);
    AbsenceHolds(cfg, io, st.items, name, key, absent);
    CarriedOut(cfg, io, st, [absent], [TxtAt(name, "null")], key, [Write(key, NilItem)]);
    AsksForLock(cfg, name, "null", key, absent);
  }

  /** Nor does a lock hold against null: an UPDATE without prerequisites that inserts null frees it, with no
      deletion, whoever holds it. */
  lemma NullFreesLock(cfg: Config, io: Faults, st: Primary, name: Str, key: Str)
    requires cfg.writable && Calm(io) && Spells(cfg, name, "null", key, NilItem)
    ensures var a := Arrival(io, UpdateRequest(cfg, [], [TxtAt(name, "null")]));
            && Lands(cfg, st, a, key)
            && !Deletes(cfg, a.req, key)
            && !Held(Process(cfg, io, st, a.req).state, key)
  {
    var a := Arrival(io, UpdateRequest(cfg, [], [TxtAt(name, "null")]));
    PlanOne(cfg, name, "null", key, NilItem);
    CarriedOut(cfg, io, st, [], [TxtAt(name, "null")], key, [Write(key, NilItem)]);
    assert IsInsertion(a.req.updates[0]);
  }
}
