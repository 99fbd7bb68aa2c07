/** What an RFC 2136 UPDATE does to the server's state: update.go and commitWrite of server.go. */
module Update {
  import opened Wrappers
  import opened Collections
  import opened Strings
  import opened Values
  import opened Dns
  import opened Names
  import opened Txt
  import opened Records
  import opened Store
  import Journal

  datatype Question = Question(name: Str, qtype: nat, qclass: nat)

  /** A record of a prerequisite or update section; txt is None when the record is not a TXT value. */
  datatype SectionRR = SectionRR(name: Str, rclass: nat, rtype: nat, ttl: uint32, txt: Option<seq<Str>>)

  datatype Request = Request(zone: seq<Question>, prereqs: seq<SectionRR>, updates: seq<SectionRR>)

  /** Which of this request's store calls fail: reads by position, and its one write. */
  datatype Faults = Faults(read: nat -> bool, write: bool)

  datatype Primary = Primary(items: map<Str, Item>, serial: uint32, journal: Option<Journal.Log>)

  // ---------- prerequisites: section 3.2 of RFC 2136 ----------

  function CheckValue(cfg: Config, item: Item, rr: SectionRR): Rcode {
    if rr.txt.None? || item == NilItem then NXRRSET
    else
      var want := DecodeStrings(rr.txt.value);
      var blob := cfg.marshal(item);
      if want.None? then FORMERR
      else if blob.None? then SERVFAIL
      else if blob.value != want.value then NXRRSET
      else NOERROR
  }

  function CheckOne(cfg: Config, readFails: bool, items: map<Str, Item>, rr: SectionRR): Rcode {
    var key := ParseKey(cfg.zone, ToLower(rr.name));
    if key.None? then NOTZONE
    else if rr.ttl != 0 then FORMERR
    else if readFails then SERVFAIL
    else
      var item := Lookup(items, key.value);
      if rr.rclass == CLASS_ANY && rr.rtype == TYPE_ANY then if item == NilItem then NXDOMAIN else NOERROR
      else if rr.rclass == CLASS_NONE && rr.rtype == TYPE_ANY then if item != NilItem then YXDOMAIN else NOERROR
      else if rr.rclass == CLASS_ANY && rr.rtype == TYPE_TXT then if item == NilItem then NXRRSET else NOERROR
      else if rr.rclass == CLASS_NONE && rr.rtype == TYPE_TXT then if item != NilItem then YXRRSET else NOERROR
      else if rr.rclass == CLASS_INET && rr.rtype == TYPE_TXT then CheckValue(cfg, item, rr)
      else FORMERR
  }

  function Codes(cfg: Config, io: Faults, items: map<Str, Item>, prereqs: seq<SectionRR>): seq<Rcode> {
    seq(|prereqs|, i requires 0 <= i < |prereqs| => CheckOne(cfg, io.read(i), items, prereqs[i]))
  }

  function FirstFailure(codes: seq<Rcode>): Rcode {
    if codes == [] then NOERROR
    else if codes[0] != NOERROR then codes[0]
    else FirstFailure(codes[1..])
  }

  lemma {:induction false} NoFailure(codes: seq<Rcode>)
    ensures FirstFailure(codes) == NOERROR <==> forall i :: 0 <= i < |codes| ==> codes[i] == NOERROR
  {
    if codes != [] && codes[0] == NOERROR {
      NoFailure(codes[1..]);
    }
  }

  // ---------- the update section, record by record ----------

  datatype Change = Deletion(key: Str) | Insertion(owner: Str, strings: seq<Str>) | Rejected(rcode: Rcode)

  predicate IsDeletion(rr: SectionRR) {
    (rr.rclass == CLASS_ANY || rr.rclass == CLASS_NONE) && (rr.rtype == TYPE_ANY || rr.rtype == TYPE_TXT)
  }

  function ChangeOf(cfg: Config, rr: SectionRR): Change {
    var name := ToLower(rr.name);
    if IsDeletion(rr) then
      var key := ParseKey(cfg.zone, name);
      if key.None? then Rejected(NOTZONE) else Deletion(key.value)
    else if rr.rclass == CLASS_INET && rr.rtype == TYPE_TXT then
      if rr.txt.None? then Rejected(REFUSED)
      else if !HasSuffix(name, "." + cfg.zone) then Rejected(NOTZONE)
      else Insertion(name, rr.txt.value)
    else Rejected(REFUSED)
  }

  function ChangesOf(cfg: Config, rrs: seq<SectionRR>): seq<Change> {
    seq(|rrs|, i requires 0 <= i < |rrs| => ChangeOf(cfg, rrs[i]))
  }

  function FirstRejection(changes: seq<Change>): Option<Rcode> {
    if changes == [] then None
    else if changes[0].Rejected? then Some(changes[0].rcode)
    else FirstRejection(changes[1..])
  }

  function Deletions(changes: seq<Change>): seq<Str> {
    if changes == [] then []
    else
      var init, last := Deletions(changes[..|changes| - 1]), changes[|changes| - 1];
      if last.Deletion? then init + [last.key] else init
  }

  /** The owner name of every inserted record, in packet order. */
  function InsertOwners(changes: seq<Change>): seq<Str> {
    if changes == [] then []
    else
      var init, last := InsertOwners(changes[..|changes| - 1]), changes[|changes| - 1];
      if last.Insertion? then init + [last.owner] else init
  }

  /** All character strings inserted at one owner, in packet order. */
  function StringsAt(changes: seq<Change>, owner: Str): seq<Str> {
    if changes == [] then []
    else
      var init, last := StringsAt(changes[..|changes| - 1], owner), changes[|changes| - 1];
      if last.Insertion? && last.owner == owner then init + last.strings else init
  }

  datatype Write = Write(pk: Str, item: Item)

  function WriteOf(cfg: Config, changes: seq<Change>, owner: Str): Result<Write, Rcode> {
    var key := ParseKey(cfg.zone, owner);
    if key.None? then Err(REFUSED)
    else
      var payload := DecodeStrings(StringsAt(changes, owner));
      if payload.None? then Err(FORMERR)
      else
        var item := cfg.unmarshal(payload.value);
        if item.None? then Err(FORMERR) else Ok(Write(key.value, item.value))
  }

  /** All values, or the first error. */
  function Gather<T>(attempts: seq<Result<T, Rcode>>): (r: Result<seq<T>, Rcode>)
    ensures r.Ok? ==> |r.value| == |attempts|
  {
    if attempts == [] then Ok([])
    else
      var init, last := Gather(attempts[..|attempts| - 1]), attempts[|attempts| - 1];
      if init.Err? then init
      else if last.Err? then Err(last.error)
      else Ok(init.value + [last.value])
  }

  function Attempts(cfg: Config, changes: seq<Change>, owners: seq<Str>): seq<Result<Write, Rcode>> {
    seq(|owners|, i requires 0 <= i < |owners| => WriteOf(cfg, changes, owners[i]))
  }

  function Writes(cfg: Config, changes: seq<Change>, owners: seq<Str>): (r: Result<seq<Write>, Rcode>)
    ensures r.Ok? ==> |r.value| == |owners|
  {
    Gather(Attempts(cfg, changes, owners))
  }

  function Affected(deletes: seq<Str>, inserts: seq<Write>): set<Str> {
    (set i | 0 <= i < |deletes| :: deletes[i]) + (set i | 0 <= i < |inserts| :: inserts[i].pk)
  }

  /** What a request asks of the store once it has passed every check. */
  datatype Plan = Refuse(rcode: Rcode) | Nothing | Mutate(key: Str, inserts: seq<Write>)

  predicate NamesZone(cfg: Config, zone: seq<Question>) {
    |zone| == 1 && EqualFold(zone[0].name, cfg.zone) && zone[0].qtype == TYPE_SOA && zone[0].qclass == CLASS_INET
  }

  function PlanChanges(cfg: Config, changes: seq<Change>): Plan {
    var inserts := Writes(cfg, changes, Distinct(InsertOwners(changes)));
    if inserts.Err? then Refuse(inserts.error)
    else
      var deletes := Deletions(changes);
      var affected := Affected(deletes, inserts.value);
      if |affected| > 1 then Refuse(REFUSED)
      else if deletes == [] && inserts.value == [] then Nothing
      else Mutate(if inserts.value != [] then inserts.value[0].pk else deletes[0], inserts.value)
  }

  function PlanOf(cfg: Config, io: Faults, items: map<Str, Item>, req: Request): Plan {
    if !cfg.writable then Refuse(REFUSED)
    else if !NamesZone(cfg, req.zone) then Refuse(FORMERR)
    else
      var code := FirstFailure(Codes(cfg, io, items, req.prereqs));
      if code != NOERROR then Refuse(code)
      else
        var changes := ChangesOf(cfg, req.updates);
        var rejection := FirstRejection(changes);
        if rejection.Some? then Refuse(rejection.value) else PlanChanges(cfg, changes)
  }

  // ---------- carrying it out ----------

  function Commit(st: Primary, removed: seq<RR>, added: seq<RR>): Primary {
    var serial := Inc(st.serial);
    st.(serial := serial,
        journal := if st.journal.None? then None
                   else Some(Journal.RecordIn(st.journal.value, Delta(serial, removed, added))))
  }

  /** The records journalled as removed: the old item's, when it reads as present. */
  function RemovedRRs(cfg: Config, items: map<Str, Item>, key: Str): seq<RR> {
    var item := Lookup(items, key);
    if item == NilItem then [] else Rendering(cfg, key, item)
  }

  function AddedRRs(cfg: Config, inserts: seq<Write>): seq<RR> {
    if inserts == [] then []
    else
      var last := inserts[|inserts| - 1];
      AddedRRs(cfg, inserts[..|inserts| - 1]) + Rendering(cfg, last.pk, last.item)
  }

  /** A put wins over a delete of the same key; only the first insert is stored. */
  function StoreChange(items: map<Str, Item>, key: Str, inserts: seq<Write>): map<Str, Item> {
    if inserts != [] then items[key := inserts[0].item] else Delete(items, key)
  }

  function Perform(cfg: Config, st: Primary, key: Str, inserts: seq<Write>): Primary {
    Commit(st.(items := StoreChange(st.items, key, inserts)), RemovedRRs(cfg, st.items, key), AddedRRs(cfg, inserts))
  }

  datatype Outcome = Outcome(rcode: Rcode, state: Primary)

  /** processUpdate: the response code and the state afterwards. */
  function Process(cfg: Config, io: Faults, st: Primary, req: Request): Outcome {
    match PlanOf(cfg, io, st.items, req)
    case Refuse(rcode) => Outcome(rcode, st)
    case Nothing => Outcome(NOERROR, st)
    case Mutate(key, inserts) =>
      if io.read(|req.prereqs|) || io.write then Outcome(SERVFAIL, st)
      else Outcome(NOERROR, Perform(cfg, st, key, inserts))
  }

  // ---------- all or nothing ----------

  lemma {:induction false} NoRejection(changes: seq<Change>)
    ensures FirstRejection(changes).None? <==> forall i :: 0 <= i < |changes| ==> !changes[i].Rejected?
    ensures FirstRejection(changes).Some? ==> Rejected(FirstRejection(changes).value) in changes
  {
    if changes != [] && !changes[0].Rejected? {
      NoRejection(changes[1..]);
    }
  }

  lemma {:induction false} GatherAre<T>(attempts: seq<Result<T, Rcode>>)
    requires Err(NOERROR) !in attempts
    ensures Gather(attempts).Err? ==> Gather(attempts).error != NOERROR
    ensures Gather(attempts).Ok? ==> forall i :: 0 <= i < |attempts| ==> attempts[i] == Ok(Gather(attempts).value[i])
  {
    if attempts != [] {
      assert attempts[|attempts| - 1] in attempts;
      GatherAre(attempts[..|attempts| - 1]);
    }
  }

  lemma WritesAre(cfg: Config, changes: seq<Change>, owners: seq<Str>)
    ensures var w := Writes(cfg, changes, owners);
            && (w.Err? ==> w.error != NOERROR)
            && (w.Ok? ==> forall i :: 0 <= i < |owners| ==> WriteOf(cfg, changes, owners[i]) == Ok(w.value[i]))
  {
    var attempts := Attempts(cfg, changes, owners);
    GatherAre(attempts);
    assert forall i :: 0 <= i < |owners| ==> attempts[i] == WriteOf(cfg, changes, owners[i]);
  }

  lemma {:induction false} DeletionsAre(changes: seq<Change>)
    ensures forall k :: k in Deletions(changes) <==> exists i :: 0 <= i < |changes| && changes[i] == Deletion(k)
  {
    if changes != [] {
      DeletionsAre(changes[..|changes| - 1]);
    }
  }

  lemma {:induction false} InsertOwnersAre(changes: seq<Change>)
    ensures forall o :: o in InsertOwners(changes) <==>
                        exists i :: 0 <= i < |changes| && changes[i].Insertion? && changes[i].owner == o
  {
    if changes != [] {
      InsertOwnersAre(changes[..|changes| - 1]);
      var init := changes[..|changes| - 1];
      forall o | exists i :: 0 <= i < |changes| && changes[i].Insertion? && changes[i].owner == o
        ensures o in InsertOwners(changes)
      {
        var i :| 0 <= i < |changes| && changes[i].Insertion? && changes[i].owner == o;
        assert i < |init| ==> init[i] == changes[i];
      }
      forall o | o in InsertOwners(changes)
        ensures exists i :: 0 <= i < |changes| && changes[i].Insertion? && changes[i].owner == o
      {
        if o in InsertOwners(init) {
          var i :| 0 <= i < |init| && init[i].Insertion? && init[i].owner == o;
          assert changes[i] == init[i];
        } else {
          assert changes[|changes| - 1].owner == o;
        }
      }
    }
  }

  lemma PlanCodes(cfg: Config, io: Faults, items: map<Str, Item>, req: Request)
    ensures PlanOf(cfg, io, items, req).Refuse? ==> PlanOf(cfg, io, items, req).rcode != NOERROR
  {
    var changes := ChangesOf(cfg, req.updates);
    NoRejection(changes);
    WritesAre(cfg, changes, Distinct(InsertOwners(changes)));
  }

  lemma TwoElements(s: set<Str>, a: Str, b: Str)
    requires a in s && b in s && a != b
    ensures |s| >= 2
  {
    assert |s - {a}| == |s| - 1;
    assert b in s - {a};
  }

  lemma OneElement(s: set<Str>, a: Str, b: Str)
    requires |s| <= 1 && a in s && b in s
    ensures a == b
  {
    if a != b {
      TwoElements(s, a, b);
    }
  }

  lemma AffectedIsOneKey(deletes: seq<Str>, inserts: seq<Write>, key: Str)
    requires |Affected(deletes, inserts)| <= 1
    requires (inserts != [] && key == inserts[0].pk) || (deletes != [] && key == deletes[0])
    ensures forall k :: k in deletes ==> k == key
    ensures forall i :: 0 <= i < |inserts| ==> inserts[i].pk == key
  {
    var affected := Affected(deletes, inserts);
    assert key in affected;
    forall k | k in affected
      ensures k == key
    {
      OneElement(affected, k, key);
    }
    forall k | k in deletes
      ensures k == key
    {
      assert k in affected;
    }
    assert forall i :: 0 <= i < |inserts| ==> inserts[i].pk in affected;
  }

  lemma PlanDeletions(cfg: Config, changes: seq<Change>)
    requires PlanChanges(cfg, changes).Mutate?
    ensures var p := PlanChanges(cfg, changes);
            && (forall i :: 0 <= i < |changes| && changes[i].Deletion? ==> changes[i].key == p.key)
            && (forall i :: 0 <= i < |p.inserts| ==> p.inserts[i].pk == p.key)
  {
    var p := PlanChanges(cfg, changes);
    DeletionsAre(changes);
    AffectedIsOneKey(Deletions(changes), p.inserts, p.key);
    forall i | 0 <= i < |changes| && changes[i].Deletion?
      ensures changes[i].key == p.key
    {
      assert changes[i] == Deletion(changes[i].key);
    }
  }

  lemma PlanInsertions(cfg: Config, changes: seq<Change>, i: nat)
    requires PlanChanges(cfg, changes).Mutate? && i < |changes| && changes[i].Insertion?
    ensures var p := PlanChanges(cfg, changes);
            p.inserts != [] && ParseKey(cfg.zone, changes[i].owner) == Some(p.key)
  {
    var p := PlanChanges(cfg, changes);
    var owners := Distinct(InsertOwners(changes));
    InsertOwnersAre(changes);
    DistinctElements(InsertOwners(changes));
    WritesAre(cfg, changes, owners);
    var o := changes[i].owner;
    assert o in owners;
    var j :| 0 <= j < |owners| && owners[j] == o;
    assert WriteOf(cfg, changes, o) == Ok(p.inserts[j]);
    PlanDeletions(cfg, changes);
  }

  lemma {:induction false} NoInsertOwners(changes: seq<Change>)
    ensures InsertOwners(changes) == [] <==> forall i :: 0 <= i < |changes| ==> !changes[i].Insertion?
  {
    if changes != [] {
      NoInsertOwners(changes[..|changes| - 1]);
    }
  }

  lemma PlanWithoutInsertions(cfg: Config, changes: seq<Change>)
    requires PlanChanges(cfg, changes).Mutate? && forall i :: 0 <= i < |changes| ==> !changes[i].Insertion?
    ensures PlanChanges(cfg, changes).inserts == []
  {
    NoInsertOwners(changes);
  }

  predicate IsInsertion(rr: SectionRR) {
    rr.rclass == CLASS_INET && rr.rtype == TYPE_TXT
  }

  predicate Inserts(req: Request) {
    exists i :: 0 <= i < |req.updates| && IsInsertion(req.updates[i])
  }

  /** At most one distinct owner name among the inserted records. */
  predicate SingleOwner(cfg: Config, req: Request) {
    |Distinct(InsertOwners(ChangesOf(cfg, req.updates)))| <= 1
  }

  /** The request's inserts: for each owner in order of first appearance, the item its strings decode to. */
  ghost predicate DecodedAs(cfg: Config, req: Request, inserts: seq<Write>) {
    var changes := ChangesOf(cfg, req.updates);
    var owners := Distinct(InsertOwners(changes));
    |inserts| == |owners| && forall i :: 0 <= i < |owners| ==> WriteOf(cfg, changes, owners[i]) == Ok(inserts[i])
  }

  /** Only this key has changed: it holds the first insert's item, or nothing. */
  ghost predicate OneKeyStored(items: map<Str, Item>, items': map<Str, Item>, key: Str, inserts: seq<Write>) {
    && (forall k :: k != key ==> (k in items <==> k in items') && Lookup(items, k) == Lookup(items', k))
    && (key in items' <==> inserts != [])
    && (inserts != [] ==> items'[key] == inserts[0].item)
  }

  /** One serial on, one delta journalled: the old rendering out, the renderings of all inserts in. */
  ghost predicate OneDelta(cfg: Config, st: Primary, st': Primary, key: Str, inserts: seq<Write>) {
    var delta := Delta(Inc(st.serial), RemovedRRs(cfg, st.items, key), Concat(Renderings(cfg, key, inserts)));
    && st'.serial == Inc(st.serial)
    && st'.journal == if st.journal.None? then None else Some(Journal.RecordIn(st.journal.value, delta))
  }

  /** The whole write a request asks for, made at the one key it names. */
  ghost predicate OneKeyWrite(cfg: Config, st: Primary, st': Primary, req: Request, key: Str, inserts: seq<Write>) {
    && AimsAt(cfg, req, key, inserts)
    && DecodedAs(cfg, req, inserts)
    && OneKeyStored(st.items, st'.items, key, inserts)
    && OneDelta(cfg, st, st', key, inserts)
  }

  function Renderings(cfg: Config, key: Str, inserts: seq<Write>): seq<seq<RR>> {
    seq(|inserts|, i requires 0 <= i < |inserts| => Rendering(cfg, key, inserts[i].item))
  }

  lemma {:induction false} AddedAreRenderings(cfg: Config, key: Str, inserts: seq<Write>)
    requires forall i :: 0 <= i < |inserts| ==> inserts[i].pk == key
    ensures AddedRRs(cfg, inserts) == Concat(Renderings(cfg, key, inserts))
  {
    if inserts != [] {
      var init, last := inserts[..|inserts| - 1], inserts[|inserts| - 1];
      AddedAreRenderings(cfg, key, init);
      assert Renderings(cfg, key, inserts) == Renderings(cfg, key, init) + [Rendering(cfg, key, last.item)];
      ConcatSnoc(Renderings(cfg, key, init), Rendering(cfg, key, last.item));
    }
  }

  lemma AddedBySingleOwner(cfg: Config, inserts: seq<Write>)
    requires |inserts| == 1
    ensures AddedRRs(cfg, inserts) == Rendering(cfg, inserts[0].pk, inserts[0].item)
  {
    assert inserts[..0] == [];
    assert AddedRRs(cfg, inserts) == [] + Rendering(cfg, inserts[0].pk, inserts[0].item);
  }

  /** Every record of the update section and every write of the plan is about `key`. */
  predicate AimsAt(cfg: Config, req: Request, key: Str, inserts: seq<Write>) {
    && (forall i :: 0 <= i < |req.updates| ==> ParseKey(cfg.zone, ToLower(req.updates[i].name)) == Some(key))
    && (forall i :: 0 <= i < |inserts| ==> inserts[i].pk == key)
    && (Inserts(req) <==> inserts != [])
    && (SingleOwner(cfg, req) ==> |inserts| <= 1)
  }

  lemma PlanAimsAt(cfg: Config, changes: seq<Change>, rr: SectionRR, i: nat)
    requires PlanChanges(cfg, changes).Mutate? && i < |changes|
    requires changes[i] == ChangeOf(cfg, rr) && !changes[i].Rejected?
    ensures var p := PlanChanges(cfg, changes);
            && ParseKey(cfg.zone, ToLower(rr.name)) == Some(p.key)
            && (changes[i].Insertion? <==> IsInsertion(rr))
            && (changes[i].Insertion? ==> p.inserts != [])
  {
    if changes[i].Insertion? {
      PlanInsertions(cfg, changes, i);
    } else {
      PlanDeletions(cfg, changes);
    }
  }

  lemma PlanAimsAtKey(cfg: Config, req: Request, key: Str, inserts: seq<Write>)
    requires PlanChanges(cfg, ChangesOf(cfg, req.updates)) == Mutate(key, inserts)
    requires FirstRejection(ChangesOf(cfg, req.updates)).None?
    ensures AimsAt(cfg, req, key, inserts)
  {
    var changes := ChangesOf(cfg, req.updates);
    NoRejection(changes);
    PlanDeletions(cfg, changes);
    forall i | 0 <= i < |req.updates|
      ensures ParseKey(cfg.zone, ToLower(req.updates[i].name)) == Some(key)
      ensures changes[i].Insertion? <==> IsInsertion(req.updates[i])
      ensures changes[i].Insertion? ==> inserts != []
    {
      PlanAimsAt(cfg, changes, req.updates[i], i);
    }
    if !Inserts(req) {
      PlanWithoutInsertions(cfg, changes);
    }
  }

  lemma PerformStores(items: map<Str, Item>, key: Str, inserts: seq<Write>)
    ensures OneKeyStored(items, StoreChange(items, key, inserts), key, inserts)
  {
  }

  lemma PerformJournals(cfg: Config, st: Primary, key: Str, inserts: seq<Write>)
    requires forall i :: 0 <= i < |inserts| ==> inserts[i].pk == key
    ensures OneDelta(cfg, st, Perform(cfg, st, key, inserts), key, inserts)
  {
    AddedAreRenderings(cfg, key, inserts);
  }

  lemma PerformIsOneKeyWrite(cfg: Config, st: Primary, req: Request, key: Str, inserts: seq<Write>)
    requires AimsAt(cfg, req, key, inserts) && DecodedAs(cfg, req, inserts)
    ensures OneKeyWrite(cfg, st, Perform(cfg, st, key, inserts), req, key, inserts)
  {
    PerformStores(st.items, key, inserts);
    PerformJournals(cfg, st, key, inserts);
  }

  /** An UPDATE either leaves store, serial and journal alone or makes exactly one whole write;
      it answers NOERROR in no other case. */
  lemma AllOrNothing(cfg: Config, io: Faults, st: Primary, req: Request)
    ensures var o := Process(cfg, io, st, req);
            && (o.rcode != NOERROR ==> o.state == st)
            && (o.rcode == NOERROR && req.updates == [] ==> o.state == st)
            && (o.rcode == NOERROR && req.updates != [] ==> 
             exists key, inserts :: OneKeyWrite(cfg, st, o.state, req, key, inserts))
  {
    PlanCodes(cfg, io, st.items, req);
    var plan := PlanOf(cfg, io, st.items, req);
    var changes := ChangesOf(cfg, req.updates);
    if plan.Mutate? {
      PlanAimsAtKey(cfg, req, plan.key, plan.inserts);
      WritesAre(cfg, changes, Distinct(InsertOwners(changes)));
      PerformIsOneKeyWrite(cfg, st, req, plan.key, plan.inserts);
    } else if FirstRejection(changes).None? && req.updates != [] {
      SomethingAsked(changes);
    }
  }

  lemma SomethingAsked(changes: seq<Change>)
    requires changes != [] && FirstRejection(changes).None?
    ensures Distinct(InsertOwners(changes)) != [] || Deletions(changes) != []
  {
    NoRejection(changes);
  }

  lemma FirstWrite(cfg: Config, changes: seq<Change>, inserts: seq<Write>)
    requires InsertOwners(changes) != [] && Writes(cfg, changes, Distinct(InsertOwners(changes))) == Ok(inserts)
    ensures inserts != [] && WriteOf(cfg, changes, InsertOwners(changes)[0]) == Ok(inserts[0])
  {
    DistinctHead(InsertOwners(changes));
    WritesAre(cfg, changes, Distinct(InsertOwners(changes)));
  }

  /** What a NOERROR answer tells: every prerequisite held, and the update section was carried out. */
  lemma SuccessInverts(cfg: Config, io: Faults, st: Primary, req: Request) returns (key: Str, inserts: seq<Write>)
    requires Process(cfg, io, st, req).rcode == NOERROR
    ensures FirstFailure(Codes(cfg, io, st.items, req.prereqs)) == NOERROR
    ensures req.updates != [] ==>
              var changes := ChangesOf(cfg, req.updates);
              && Writes(cfg, changes, Distinct(InsertOwners(changes))) == Ok(inserts)
              && AimsAt(cfg, req, key, inserts)
              && Process(cfg, io, st, req).state == Perform(cfg, st, key, inserts)
  {
    PlanCodes(cfg, io, st.items, req);
    var plan := PlanOf(cfg, io, st.items, req);
    if plan.Mutate? {
      key, inserts := plan.key, plan.inserts;
      PlanAimsAtKey(cfg, req, key, inserts);
    } else {
      key, inserts := [], [];
      if req.updates != [] {
        SomethingAsked(ChangesOf(cfg, req.updates));
      }
    }
  }

  // ---------- which requests are carried out ----------

  /** A well-formed deletion of `key` or insertion at it: the forms of section 2.5 of RFC 2136 the server takes. */
  predicate Acceptable(cfg: Config, rr: SectionRR, key: Str) {
    && ParseKey(cfg.zone, ToLower(rr.name)) == Some(key)
    && (|| (rr.rclass in [CLASS_ANY, CLASS_NONE] && rr.rtype in [TYPE_ANY, TYPE_TXT])
        || (rr.rclass == CLASS_INET && rr.rtype == TYPE_TXT && rr.txt.Some?))
  }

  /** All records are about one key, and every payload decodes. */
  predicate Feasible(cfg: Config, req: Request, key: Str) {
    var changes := ChangesOf(cfg, req.updates);
    && (forall i :: 0 <= i < |req.updates| ==> Acceptable(cfg, req.updates[i], key))
    && (forall o :: o in InsertOwners(changes) ==> WriteOf(cfg, changes, o).Ok?)
  }

  lemma AcceptableChange(cfg: Config, rr: SectionRR, key: Str)
    ensures Acceptable(cfg, rr, key) ==>
              var c := ChangeOf(cfg, rr);
              c == Deletion(key) || (c.Insertion? && ParseKey(cfg.zone, c.owner) == Some(key))
    ensures !ChangeOf(cfg, rr).Rejected? && ParseKey(cfg.zone, ToLower(rr.name)) == Some(key) ==>
              Acceptable(cfg, rr, key)
  {
    assert ToLower(ToLower(rr.name)) == ToLower(rr.name);
  }

  lemma {:induction false} GatherOk<T>(attempts: seq<Result<T, Rcode>>)
    requires forall i :: 0 <= i < |attempts| ==> attempts[i].Ok?
    ensures Gather(attempts).Ok?
  {
    if attempts != [] {
      GatherOk(attempts[..|attempts| - 1]);
    }
  }

  lemma AffectedOnly(deletes: seq<Str>, inserts: seq<Write>, key: Str)
    requires forall k :: k in deletes ==> k == key
    requires forall i :: 0 <= i < |inserts| ==> inserts[i].pk == key
    ensures |Affected(deletes, inserts)| <= 1
  {
    forall k | k in Affected(deletes, inserts)
      ensures k == key
    {
      if i :| 0 <= i < |deletes| && deletes[i] == k {
        assert deletes[i] in deletes;
      }
    }
    var rest := {key} - Affected(deletes, inserts);
    assert {key} == Affected(deletes, inserts) + rest;
  }

  lemma FeasibleWrites(cfg: Config, changes: seq<Change>, key: Str)
    requires forall i :: 0 <= i < |changes| ==>
               || changes[i] == Deletion(key)
               || (changes[i].Insertion? && ParseKey(cfg.zone, changes[i].owner) == Some(key))
    requires forall o :: o in InsertOwners(changes) ==> WriteOf(cfg, changes, o).Ok?
    ensures var w := Writes(cfg, changes, Distinct(InsertOwners(changes)));
            w.Ok? && forall i :: 0 <= i < |w.value| ==> w.value[i].pk == key
  {
    var owners := Distinct(InsertOwners(changes));
    InsertOwnersAre(changes);
    DistinctElements(InsertOwners(changes));
    forall i | 0 <= i < |owners|
      ensures WriteOf(cfg, changes, owners[i]).Ok? && WriteOf(cfg, changes, owners[i]).value.pk == key
    {
      assert owners[i] in InsertOwners(changes);
    }
    GatherOk(Attempts(cfg, changes, owners));
    WritesAre(cfg, changes, owners);
  }

  lemma FeasiblePlan(cfg: Config, req: Request, key: Str)
    requires Feasible(cfg, req, key) && req.updates != []
    ensures var changes := ChangesOf(cfg, req.updates);
            FirstRejection(changes).None? && PlanChanges(cfg, changes).Mutate?
  {
    var changes := ChangesOf(cfg, req.updates);
    forall i | 0 <= i < |changes|
      ensures || changes[i] == Deletion(key)
              || (changes[i].Insertion? && ParseKey(cfg.zone, changes[i].owner) == Some(key))
    {
      AcceptableChange(cfg, req.updates[i], key);
    }
    NoRejection(changes);
    SomethingAsked(changes);
    FeasibleWrites(cfg, changes, key);
    DeletionsAre(changes);
    AffectedOnly(Deletions(changes), Writes(cfg, changes, Distinct(InsertOwners(changes))).value, key);
  }

  lemma PlanFeasible(cfg: Config, req: Request)
    requires FirstRejection(ChangesOf(cfg, req.updates)).None? && PlanChanges(cfg, ChangesOf(cfg, req.updates)).Mutate?
    ensures Feasible(cfg, req, PlanChanges(cfg, ChangesOf(cfg, req.updates)).key)
  {
    var changes := ChangesOf(cfg, req.updates);
    var plan := PlanChanges(cfg, changes);
    PlanAimsAtKey(cfg, req, plan.key, plan.inserts);
    NoRejection(changes);
    forall i | 0 <= i < |req.updates|
      ensures Acceptable(cfg, req.updates[i], plan.key)
    {
      assert changes[i] == ChangeOf(cfg, req.updates[i]);
      AcceptableChange(cfg, req.updates[i], plan.key);
    }
    var owners := Distinct(InsertOwners(changes));
    WritesAre(cfg, changes, owners);
    DistinctElements(InsertOwners(changes));
    forall o | o in InsertOwners(changes)
      ensures WriteOf(cfg, changes, o).Ok?
    {
      assert o in owners;
    }
  }

  predicate Demanded(cfg: Config, io: Faults, items: map<Str, Item>, prereqs: seq<SectionRR>) {
    forall i :: 0 <= i < |prereqs| ==> CheckOne(cfg, io.read(i), items, prereqs[i]) == NOERROR
  }

  lemma DemandedExactly(cfg: Config, io: Faults, items: map<Str, Item>, prereqs: seq<SectionRR>)
    ensures FirstFailure(Codes(cfg, io, items, prereqs)) == NOERROR <==> Demanded(cfg, io, items, prereqs)
  {
    var codes := Codes(cfg, io, items, prereqs);
    NoFailure(codes);
    assert forall i :: 0 <= i < |prereqs| ==> codes[i] == CheckOne(cfg, io.read(i), items, prereqs[i]);
  }

  lemma PlanExactly(cfg: Config, changes: seq<Change>)
    requires FirstRejection(changes).None?
    ensures PlanChanges(cfg, changes).Nothing? <==> changes == []
  {
    if changes != [] {
      SomethingAsked(changes);
    }
  }

  /** A prerequisite of section 2.4 of RFC 2136 that holds: the name exists or not, as its class says, or the record
      at it holds exactly these bytes. */
  predicate Met(cfg: Config, readFails: bool, items: map<Str, Item>, rr: SectionRR) {
    var key := ParseKey(cfg.zone, ToLower(rr.name));
    && key.Some? && rr.ttl == 0 && !readFails
    && var item := Lookup(items, key.value);
       || (rr.rclass == CLASS_ANY && rr.rtype in [TYPE_ANY, TYPE_TXT] && item != NilItem)
       || (rr.rclass == CLASS_NONE && rr.rtype in [TYPE_ANY, TYPE_TXT] && item == NilItem)
       || (rr.rclass == CLASS_INET && rr.rtype == TYPE_TXT && item != NilItem && rr.txt.Some? &&
           DecodeStrings(rr.txt.value).Some? && DecodeStrings(rr.txt.value) == cfg.marshal(item))
  }

  /** A prerequisite passes exactly when it holds. */
  lemma MetExactly(cfg: Config, readFails: bool, items: map<Str, Item>, rr: SectionRR)
    ensures CheckOne(cfg, readFails, items, rr) == NOERROR <==> Met(cfg, readFails, items, rr)
  {
  }

  /** What each prerequisite that does not hold is answered with: section 3.2 of RFC 2136. */
  lemma UnmetCodes(cfg: Config, readFails: bool, items: map<Str, Item>, rr: SectionRR)
    requires !Met(cfg, readFails, items, rr)
    ensures var key, code := ParseKey(cfg.zone, ToLower(rr.name)), CheckOne(cfg, readFails, items, rr);
            if key.None? then code == NOTZONE
            else if rr.ttl != 0 then code == FORMERR
            else if readFails then code == SERVFAIL
            else if rr.rclass == CLASS_INET && rr.rtype == TYPE_TXT then
              if Lookup(items, key.value) == NilItem || rr.txt.None? then code == NXRRSET
              else if DecodeStrings(rr.txt.value).None? then code == FORMERR
              else if cfg.marshal(Lookup(items, key.value)).None? then code == SERVFAIL
              else code == NXRRSET
            else if rr.rclass !in [CLASS_ANY, CLASS_NONE] || rr.rtype !in [TYPE_ANY, TYPE_TXT] then code == FORMERR
            else if rr.rclass == CLASS_ANY then code == if rr.rtype == TYPE_ANY then NXDOMAIN else NXRRSET
            else code == if rr.rtype == TYPE_ANY then YXDOMAIN else YXRRSET
  {
  }

  /** What each update record comes to. */
  lemma RecordExactly(cfg: Config, rr: SectionRR)
    ensures var name := ToLower(rr.name);
            ChangeOf(cfg, rr) ==
            if rr.rclass in [CLASS_ANY, CLASS_NONE] && rr.rtype in [TYPE_ANY, TYPE_TXT] then
              if ParseKey(cfg.zone, name).None? then Rejected(NOTZONE) else Deletion(ParseKey(cfg.zone, name).value)
            else if rr.rclass != CLASS_INET || rr.rtype != TYPE_TXT || rr.txt.None? then Rejected(REFUSED)
            else if HasSuffix(name, "." + cfg.zone) then Insertion(name, rr.txt.value)
            else Rejected(NOTZONE)
  {
  }

  /** Which requests are answered NOERROR: those to a writable store, about this zone, with every prerequisite holding,
      whose records are all deletions or decodable insertions of one key, when its two store calls succeed. */
  lemma AcceptedExactly(cfg: Config, io: Faults, st: Primary, req: Request)
    ensures Process(cfg, io, st, req).rcode == NOERROR <==>
              && cfg.writable
              && |req.zone| == 1 && EqualFold(req.zone[0].name, cfg.zone)
              && req.zone[0].qtype == TYPE_SOA && req.zone[0].qclass == CLASS_INET
              && (forall i :: 0 <= i < |req.prereqs| ==> Met(cfg, io.read(i), st.items, req.prereqs[i]))
              && (req.updates == [] ||
                  ((exists key :: Feasible(cfg, req, key)) && !io.read(|req.prereqs|) && !io.write))
  {
    var changes := ChangesOf(cfg, req.updates);
    PlanCodes(cfg, io, st.items, req);
    DemandedExactly(cfg, io, st.items, req.prereqs);
    forall i | 0 <= i < |req.prereqs|
      ensures CheckOne(cfg, io.read(i), st.items, req.prereqs[i]) == NOERROR <==>
              Met(cfg, io.read(i), st.items, req.prereqs[i])
    {
      MetExactly(cfg, io.read(i), st.items, req.prereqs[i]);
    }
    if FirstRejection(changes).None? {
      PlanExactly(cfg, changes);
      if PlanChanges(cfg, changes).Mutate? {
        PlanFeasible(cfg, req);
      }
    }
    if req.updates != [] {
      if key :| Feasible(cfg, req, key) {
        FeasiblePlan(cfg, req, key);
      }
    }
  }

  // ---------- what a payload is put together from ----------

  /** What one record adds: deletions and other owners' insertions nothing. */
  lemma OneStrings(c: Change, owner: Str)
    ensures StringsAt([c], owner) == if c.Insertion? && c.owner == owner then c.strings else []
    ensures InsertOwners([c]) == if c.Insertion? then [c.owner] else []
  {
    assert [c][..0] == [];
  }

  lemma LastStrings(changes: seq<Change>, init: seq<Change>, c: Change, owner: Str)
    requires changes != [] && changes[..|changes| - 1] == init && changes[|changes| - 1] == c
    ensures StringsAt(changes, owner) == StringsAt(init, owner) + StringsAt([c], owner)
    ensures InsertOwners(changes) == InsertOwners(init) + InsertOwners([c])
  {
    OneStrings(c, owner);
  }

  /** Inserted owners and the strings inserted at each come in packet order. */
  lemma {:induction false} InPacketOrder(a: seq<Change>, b: seq<Change>, owner: Str)
    ensures StringsAt(a + b, owner) == StringsAt(a, owner) + StringsAt(b, owner)
    ensures InsertOwners(a + b) == InsertOwners(a) + InsertOwners(b)
  {
    if b == [] {
      assert a + b == a;
    } else {
      var init, c := b[..|b| - 1], b[|b| - 1];
      InPacketOrder(a, init, owner);
      SnocAppend(a, b);
      LastStrings(a + b, a + init, c, owner);
      LastStrings(b, init, c, owner);
      Associative(StringsAt(a, owner), StringsAt(init, owner), StringsAt([c], owner));
      Associative(InsertOwners(a), InsertOwners(init), InsertOwners([c]));
    }
  }

  function InsertionsOf(owner: Str, chunks: seq<Str>): seq<Change> {
    seq(|chunks|, i requires 0 <= i < |chunks| => Insertion(owner, [chunks[i]]))
  }

  lemma {:induction false} StringsOfInsertions(owner: Str, chunks: seq<Str>)
    ensures StringsAt(InsertionsOf(owner, chunks), owner) == chunks
  {
    if chunks != [] {
      var n := |chunks| - 1;
      StringsOfInsertions(owner, chunks[..n]);
      assert InsertionsOf(owner, chunks)[..n] == InsertionsOf(owner, chunks[..n]);
      assert chunks == chunks[..n] + [chunks[n]];
    }
  }

  /** A value spread over several records at one owner, one presented character string each, arrives whole. */
  lemma PayloadRejoins(owner: Str, value: Str)
    ensures DecodeStrings(StringsAt(InsertionsOf(owner, EscapeAll(Chunks(value, MAX_TXT_CHUNK))), owner)) == Some(value)
  {
    var chunks := Chunks(value, MAX_TXT_CHUNK);
    StringsOfInsertions(owner, EscapeAll(chunks));
    TxtRoundTrip(chunks);
    ChunksAreTheChunking(value, MAX_TXT_CHUNK, chunks);
  }

  // ---------- what the others are answered with ----------

  lemma {:induction false} FailureIsFirst(codes: seq<Rcode>)
    requires FirstFailure(codes) != NOERROR
    ensures exists i :: 0 <= i < |codes| && codes[i] == FirstFailure(codes) &&
                        forall j :: 0 <= j < i ==> codes[j] == NOERROR
  {
    if codes[0] != NOERROR {
      assert codes[0] == FirstFailure(codes);
    } else {
      var rest := codes[1..];
      FailureIsFirst(rest);
      var i :| 0 <= i < |rest| && rest[i] == FirstFailure(rest) && forall j :: 0 <= j < i ==> rest[j] == NOERROR;
      assert codes[i + 1] == rest[i];
      forall j | 0 <= j < i + 1
        ensures codes[j] == NOERROR
      {
        assert j > 0 ==> codes[j] == rest[j - 1];
      }
    }
  }

  lemma {:induction false} RejectionIsFirst(changes: seq<Change>)
    requires FirstRejection(changes).Some?
    ensures exists i :: 0 <= i < |changes| && changes[i] == Rejected(FirstRejection(changes).value) &&
                        forall j :: 0 <= j < i ==> !changes[j].Rejected?
  {
    if changes[0].Rejected? {
      assert changes[0] == Rejected(FirstRejection(changes).value);
    } else {
      var rest := changes[1..];
      RejectionIsFirst(rest);
      var i :| 0 <= i < |rest| && rest[i] == Rejected(FirstRejection(rest).value) &&
               forall j :: 0 <= j < i ==> !rest[j].Rejected?;
      assert changes[i + 1] == rest[i];
      forall j | 0 <= j < i + 1
        ensures !changes[j].Rejected?
      {
        assert j > 0 ==> changes[j] == rest[j - 1];
      }
    }
  }

  lemma {:induction false} ErrorIsFirst<T>(attempts: seq<Result<T, Rcode>>)
    requires Gather(attempts).Err?
    ensures exists i :: 0 <= i < |attempts| && attempts[i] == Err(Gather(attempts).error) &&
                        forall j :: 0 <= j < i ==> attempts[j].Ok?
  {
    var init, n := attempts[..|attempts| - 1], |attempts| - 1;
    if Gather(init).Err? {
      ErrorIsFirst(init);
      var i :| 0 <= i < |init| && init[i] == Err(Gather(init).error) && forall j :: 0 <= j < i ==> init[j].Ok?;
      assert attempts[i] == init[i];
      assert forall j :: 0 <= j < i ==> attempts[j] == init[j];
    } else {
      GatherAllOk(init);
      assert forall j :: 0 <= j < n ==> attempts[j] == init[j];
      assert attempts[n] == Err(Gather(attempts).error);
    }
  }

  lemma {:induction false} GatherAllOk<T>(attempts: seq<Result<T, Rcode>>)
    requires Gather(attempts).Ok?
    ensures forall i :: 0 <= i < |attempts| ==> attempts[i].Ok?
  {
    if attempts != [] {
      GatherAllOk(attempts[..|attempts| - 1]);
    }
  }

  /** A payload fails with REFUSED when its owner has no key, and with FORMERR when it does not decode. */
  lemma WriteCodes(cfg: Config, changes: seq<Change>, owner: Str)
    ensures var w, payload := WriteOf(cfg, changes, owner), DecodeStrings(StringsAt(changes, owner));
            w == if ParseKey(cfg.zone, owner).None? then Err(REFUSED)
                 else if payload.None? || cfg.unmarshal(payload.value).None? then Err(FORMERR)
                 else Ok(Write(ParseKey(cfg.zone, owner).value, cfg.unmarshal(payload.value).value))
  {
  }

  /** A request about this zone with a prerequisite that does not hold is answered with the first such one's code. */
  lemma UnmetAnswer(cfg: Config, io: Faults, st: Primary, req: Request)
    requires cfg.writable && NamesZone(cfg, req.zone) && !Demanded(cfg, io, st.items, req.prereqs)
    ensures exists i :: 0 <= i < |req.prereqs| && Demanded(cfg, io, st.items, req.prereqs[..i]) &&
              Process(cfg, io, st, req).rcode == CheckOne(cfg, io.read(i), st.items, req.prereqs[i]) != NOERROR
  {
    DemandedExactly(cfg, io, st.items, req.prereqs);
    var codes := Codes(cfg, io, st.items, req.prereqs);
    FailureIsFirst(codes);
    var i :| 0 <= i < |codes| && codes[i] == FirstFailure(codes) && forall j :: 0 <= j < i ==> codes[j] == NOERROR;
    assert codes[i] == CheckOne(cfg, io.read(i), st.items, req.prereqs[i]);
    forall j | 0 <= j < i
      ensures CheckOne(cfg, io.read(j), st.items, req.prereqs[..i][j]) == NOERROR
    {
      assert codes[j] == CheckOne(cfg, io.read(j), st.items, req.prereqs[j]);
    }
  }

  /** What a request about this zone whose prerequisites hold is answered with when its records are not carried out:
      the first rejected record's code, or the first failing payload's, or REFUSED for more than one key, or
      SERVFAIL when a store call fails. */
  lemma RecordsAnswer(cfg: Config, io: Faults, st: Primary, req: Request)
    requires cfg.writable && NamesZone(cfg, req.zone) && Demanded(cfg, io, st.items, req.prereqs)
    ensures var code, changes := Process(cfg, io, st, req).rcode, ChangesOf(cfg, req.updates);
            var owners := Distinct(InsertOwners(changes));
            if exists i :: 0 <= i < |changes| && changes[i].Rejected? then
              exists i :: 0 <= i < |changes| && changes[i] == Rejected(code) &&
                          forall j :: 0 <= j < i ==> !changes[j].Rejected?
            else if exists i :: 0 <= i < |owners| && WriteOf(cfg, changes, owners[i]).Err? then
              exists i :: 0 <= i < |owners| && WriteOf(cfg, changes, owners[i]) == Err(code) &&
                          forall j :: 0 <= j < i ==> WriteOf(cfg, changes, owners[j]).Ok?
            else if req.updates == [] then code == NOERROR
            else if !exists key :: Feasible(cfg, req, key) then code == REFUSED
            else code == if io.read(|req.prereqs|) || io.write then SERVFAIL else NOERROR
  {
    var changes := ChangesOf(cfg, req.updates);
    DemandedExactly(cfg, io, st.items, req.prereqs);
    NoRejection(changes);
    if FirstRejection(changes).Some? {
      RejectionIsFirst(changes);
    } else {
      PayloadsAnswer(cfg, io, st, req);
    }
  }

  lemma PayloadsAnswer(cfg: Config, io: Faults, st: Primary, req: Request)
    requires cfg.writable && NamesZone(cfg, req.zone) && FirstFailure(Codes(cfg, io, st.items, req.prereqs)) == NOERROR
    requires FirstRejection(ChangesOf(cfg, req.updates)).None?
    ensures var code, changes := Process(cfg, io, st, req).rcode, ChangesOf(cfg, req.updates);
            var owners := Distinct(InsertOwners(changes));
            if exists i :: 0 <= i < |owners| && WriteOf(cfg, changes, owners[i]).Err? then
              exists i :: 0 <= i < |owners| && WriteOf(cfg, changes, owners[i]) == Err(code) &&
                          forall j :: 0 <= j < i ==> WriteOf(cfg, changes, owners[j]).Ok?
            else if req.updates == [] then code == NOERROR
            else if !exists key :: Feasible(cfg, req, key) then code == REFUSED
            else code == if io.read(|req.prereqs|) || io.write then SERVFAIL else NOERROR
  {
    var changes := ChangesOf(cfg, req.updates);
    var owners := Distinct(InsertOwners(changes));
    WritesFail(cfg, changes, owners);
    if Writes(cfg, changes, owners).Ok? {
      PlanExactly(cfg, changes);
      if PlanChanges(cfg, changes).Mutate? {
        PlanFeasible(cfg, req);
      } else if key :| Feasible(cfg, req, key) && req.updates != [] {
        FeasiblePlan(cfg, req, key);
      }
    }
  }

  lemma WritesFail(cfg: Config, changes: seq<Change>, owners: seq<Str>)
    ensures var w := Writes(cfg, changes, owners);
            if w.Err? then
              exists i :: 0 <= i < |owners| && WriteOf(cfg, changes, owners[i]) == Err(w.error) &&
                          forall j :: 0 <= j < i ==> WriteOf(cfg, changes, owners[j]).Ok?
            else forall i :: 0 <= i < |owners| ==> WriteOf(cfg, changes, owners[i]).Ok?
  {
    var attempts := Attempts(cfg, changes, owners);
    assert forall i :: 0 <= i < |owners| ==> attempts[i] == WriteOf(cfg, changes, owners[i]);
    if Gather(attempts).Err? {
      ErrorIsFirst(attempts);
    } else {
      GatherAllOk(attempts);
    }
  }

  /** A request to a store that is not writable is refused, and one not about this zone is malformed, before anything
      else is looked at. */
  lemma FirstAnswers(cfg: Config, io: Faults, st: Primary, req: Request)
    ensures !cfg.writable ==> Process(cfg, io, st, req).rcode == REFUSED
    ensures cfg.writable && !(|req.zone| == 1 && EqualFold(req.zone[0].name, cfg.zone) &&
                              req.zone[0].qtype == TYPE_SOA && req.zone[0].qclass == CLASS_INET) ==>
              Process(cfg, io, st, req).rcode == FORMERR
  {
  }
}
