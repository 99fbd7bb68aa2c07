/** From writes to secondaries: exact deltas, whole runs of UPDATEs, and the replies that replay them. */
module Replication {
  import opened Wrappers
  import opened Collections
  import opened Strings
  import opened Values
  import opened Dns
  import opened Names
  import opened Txt
  import opened Records
  import opened Store
  import opened Update
  import opened Transfer
  import Journal
  import Base32

  // ---------- when a journalled delta is exact ----------

  /** The JSON of the insert that is stored. */
  function FirstJson(cfg: Config, inserts: seq<Write>): Option<Str> {
    if inserts == [] then None else cfg.marshal(inserts[0].item)
  }

  predicate AnyInserts(cfg: Config, inserts: seq<Write>, blob: Str) {
    exists i :: 0 <= i < |inserts| && cfg.marshal(inserts[i].item) == Some(blob)
  }

  /** What can be told of a write before it is made. Every inserted JSON will be shown, by the stored insert or by
      the key's twin. A stored null, which shows a record but reads as missing, shows what one of these two will show.
      Any other old item does not show what the twin shows, unless it is inserted again. */
  predicate Faithful(cfg: Config, items: map<Str, Item>, key: Str, inserts: seq<Write>) {
    var was, twin, first := JsonAt(cfg, items, key), TwinJson(cfg, items, key), FirstJson(cfg, inserts);
    && (forall i :: 0 <= i < |inserts| ==> cfg.marshal(inserts[i].item) in [None, first, twin])
    && (was.Some? && Lookup(items, key) == NilItem ==> was == first || was == twin)
    && (was.Some? && Lookup(items, key) != NilItem && was == twin ==> AnyInserts(cfg, inserts, was.value))
  }

  function Shown(cfg: Config, items: map<Str, Item>, key: Str): set<RR> {
    if key in items then Elements(Rendering(cfg, key, items[key])) else {}
  }

  lemma ZoneSplit(cfg: Config, items: map<Str, Item>, key: Str)
    ensures ZoneRRs(cfg, items) == ZoneRRs(cfg, Delete(items, key)) + Shown(cfg, items, key)
  {
    var rest := Delete(items, key);
    forall r
      ensures r in ZoneRRs(cfg, items) <==> r in ZoneRRs(cfg, rest) + Shown(cfg, items, key)
    {
      if r in ZoneRRs(cfg, items) {
        var k :| k in items && r in Rendering(cfg, k, items[k]);
        assert k != key ==> k in rest && rest[k] == items[k];
      }
      if r in ZoneRRs(cfg, rest) {
        var k :| k in rest && r in Rendering(cfg, k, rest[k]);
        assert k in items;
      }
    }
  }

  lemma {:induction false} AddedAre(cfg: Config, inserts: seq<Write>)
    ensures forall r :: r in AddedRRs(cfg, inserts) <==>
                        exists i :: 0 <= i < |inserts| && r in Rendering(cfg, inserts[i].pk, inserts[i].item)
  {
    if inserts != [] {
      var init, last := inserts[..|inserts| - 1], inserts[|inserts| - 1];
      AddedAre(cfg, init);
      forall r
        ensures r in AddedRRs(cfg, inserts) <==>
                exists i :: 0 <= i < |inserts| && r in Rendering(cfg, inserts[i].pk, inserts[i].item)
      {
        if r in AddedRRs(cfg, init) {
          var i :| 0 <= i < |init| && r in Rendering(cfg, init[i].pk, init[i].item);
          assert inserts[i] == init[i];
        }
        if i :| 0 <= i < |inserts| && r in Rendering(cfg, inserts[i].pk, inserts[i].item) {
          assert i < |init| ==> init[i] == inserts[i];
        }
      }
    }
  }

  /** What survives the delta of the key's own records: those of a stored null, which are not journalled. */
  function Left(cfg: Config, items: map<Str, Item>, key: Str): set<RR> {
    if key in items && items[key] == NilItem then Shown(cfg, items, key) else {}
  }

  lemma ShownIs(cfg: Config, items: map<Str, Item>, key: Str, r: RR)
    ensures r in Shown(cfg, items, key) <==>
            JsonAt(cfg, items, key).Some? && r == RecordAt(cfg, key, JsonAt(cfg, items, key).value)
  {
    if JsonAt(cfg, items, key).Some? {
      assert Rendering(cfg, key, items[key])[0] in Shown(cfg, items, key);
    }
  }

  lemma RemovedIs(cfg: Config, items: map<Str, Item>, key: Str, r: RR)
    ensures r in Elements(RemovedRRs(cfg, items, key)) <==> Lookup(items, key) != NilItem && r in Shown(cfg, items, key)
  {
  }

  lemma AddedIs(cfg: Config, key: Str, inserts: seq<Write>, r: RR)
    requires forall i :: 0 <= i < |inserts| ==> inserts[i].pk == key
    ensures r in Elements(AddedRRs(cfg, inserts)) <==>
            exists blob :: AnyInserts(cfg, inserts, blob) && r == RecordAt(cfg, key, blob)
  {
    AddedAre(cfg, inserts);
    var added := AddedRRs(cfg, inserts);
    assert r in Elements(added) <==> r in added;
    if r in added {
      var i :| 0 <= i < |inserts| && r in Rendering(cfg, inserts[i].pk, inserts[i].item);
      assert AnyInserts(cfg, inserts, cfg.marshal(inserts[i].item).value);
    }
    if blob :| AnyInserts(cfg, inserts, blob) && r == RecordAt(cfg, key, blob) {
      var i :| 0 <= i < |inserts| && cfg.marshal(inserts[i].item) == Some(blob);
      assert r in Rendering(cfg, inserts[i].pk, inserts[i].item);
    }
  }

  lemma AddedRecord(cfg: Config, key: Str, inserts: seq<Write>, blob: Str)
    requires forall i :: 0 <= i < |inserts| ==> inserts[i].pk == key
    ensures RecordAt(cfg, key, blob) in Elements(AddedRRs(cfg, inserts)) <==> AnyInserts(cfg, inserts, blob)
  {
    var r := RecordAt(cfg, key, blob);
    AddedIs(cfg, key, inserts, r);
    if b :| AnyInserts(cfg, inserts, b) && r == RecordAt(cfg, key, b) {
      SameRecord(cfg, key, b, key, blob);
    }
  }

  /** The records at this key's owner name that do not come from it are its twin's. */
  lemma OthersHere(cfg: Config, items: map<Str, Item>, key: Str, blob: Str)
    ensures RecordAt(cfg, key, blob) in ZoneRRs(cfg, Delete(items, key)) <==> TwinJson(cfg, items, key) == Some(blob)
  {
    var rest, r := Delete(items, key), RecordAt(cfg, key, blob);
    if r in ZoneRRs(cfg, rest) {
      var k :| k in rest && r in Rendering(cfg, k, rest[k]);
      TwinExactly(cfg.zone, key, k);
      SameRecord(cfg, key, blob, key, cfg.marshal(rest[k]).value);
    }
    if TwinJson(cfg, items, key) == Some(blob) {
      var k := Twin(key).value;
      TwinExactly(cfg.zone, key, k);
      assert k in rest && r in Rendering(cfg, k, rest[k]);
    }
  }

  /** Faithfulness in terms of records: the delta takes no record from the other keys and leaves or adds none
      that will not be shown. */
  predicate FaithfulRecords(others: set<RR>, left: set<RR>, removed: set<RR>, added: set<RR>, shown: set<RR>) {
    others * removed <= added && left <= others + shown && added <= others + shown
  }

  lemma DeltaAlgebra(others: set<RR>, prior: set<RR>, left: set<RR>, removed: set<RR>, added: set<RR>, shown: set<RR>)
    requires prior - removed == left && shown <= added
    ensures (others + prior - removed) + added == others + shown <==>
            FaithfulRecords(others, left, removed, added, shown)
  {
    var before, after := (others + prior - removed) + added, others + shown;
    assert before == (others - removed) + left + added;
    if FaithfulRecords(others, left, removed, added, shown) {
      forall r
        ensures r in before <==> r in after
      {
      }
    }
    if before == after {
      forall r | r in others * removed
        ensures r in added
      {
        assert r in after;
      }
    }
  }

  lemma TakenClause(cfg: Config, items: map<Str, Item>, key: Str, inserts: seq<Write>)
    requires forall i :: 0 <= i < |inserts| ==> inserts[i].pk == key
    ensures var was := JsonAt(cfg, items, key);
            ZoneRRs(cfg, Delete(items, key)) * Elements(RemovedRRs(cfg, items, key)) <= Elements(AddedRRs(cfg, inserts))
            <==> (was.Some? && Lookup(items, key) != NilItem && was == TwinJson(cfg, items, key) ==>
                    AnyInserts(cfg, inserts, was.value))
  {
    var others, removed := ZoneRRs(cfg, Delete(items, key)), Elements(RemovedRRs(cfg, items, key));
    var was := JsonAt(cfg, items, key);
    forall r | r in removed
      ensures was.Some? && Lookup(items, key) != NilItem && r == RecordAt(cfg, key, was.value)
    {
      RemovedIs(cfg, items, key, r);
      ShownIs(cfg, items, key, r);
    }
    if was.Some? {
      var r := RecordAt(cfg, key, was.value);
      RemovedIs(cfg, items, key, r);
      ShownIs(cfg, items, key, r);
      OthersHere(cfg, items, key, was.value);
      AddedRecord(cfg, key, inserts, was.value);
      assert r in others * removed <==> Lookup(items, key) != NilItem && was == TwinJson(cfg, items, key);
    }
  }

  lemma ShownAfter(cfg: Config, items: map<Str, Item>, key: Str, inserts: seq<Write>, blob: Str)
    ensures RecordAt(cfg, key, blob) in Shown(cfg, StoreChange(items, key, inserts), key) <==>
            FirstJson(cfg, inserts) == Some(blob)
  {
    var items' := StoreChange(items, key, inserts);
    ShownIs(cfg, items', key, RecordAt(cfg, key, blob));
    assert JsonAt(cfg, items', key) == FirstJson(cfg, inserts);
    if FirstJson(cfg, inserts).Some? {
      SameRecord(cfg, key, blob, key, FirstJson(cfg, inserts).value);
    }
  }

  /** The records that will be shown at this owner name. */
  lemma ShownHere(cfg: Config, items: map<Str, Item>, key: Str, inserts: seq<Write>, blob: Str)
    ensures RecordAt(cfg, key, blob) in
              ZoneRRs(cfg, Delete(items, key)) + Shown(cfg, StoreChange(items, key, inserts), key)
            <==> FirstJson(cfg, inserts) == Some(blob) || TwinJson(cfg, items, key) == Some(blob)
  {
    ShownAfter(cfg, items, key, inserts, blob);
    OthersHere(cfg, items, key, blob);
  }

  lemma LeftClause(cfg: Config, items: map<Str, Item>, key: Str, inserts: seq<Write>)
    ensures var was := JsonAt(cfg, items, key);
            Left(cfg, items, key) <=
              ZoneRRs(cfg, Delete(items, key)) + Shown(cfg, StoreChange(items, key, inserts), key)
            <==> (was.Some? && Lookup(items, key) == NilItem ==>
                    was == FirstJson(cfg, inserts) || was == TwinJson(cfg, items, key))
  {
    var was := JsonAt(cfg, items, key);
    forall r
      ensures r in Left(cfg, items, key) <==>
              was.Some? && Lookup(items, key) == NilItem && r == RecordAt(cfg, key, was.value)
    {
      ShownIs(cfg, items, key, r);
    }
    if was.Some? {
      assert Lookup(items, key) == NilItem ==> RecordAt(cfg, key, was.value) in Left(cfg, items, key);
      ShownHere(cfg, items, key, inserts, was.value);
    }
  }

  lemma AddedClause(cfg: Config, items: map<Str, Item>, key: Str, inserts: seq<Write>)
    requires forall i :: 0 <= i < |inserts| ==> inserts[i].pk == key
    ensures Elements(AddedRRs(cfg, inserts)) <=
              ZoneRRs(cfg, Delete(items, key)) + Shown(cfg, StoreChange(items, key, inserts), key)
            <==> forall blob :: AnyInserts(cfg, inserts, blob) ==>
                   FirstJson(cfg, inserts) == Some(blob) || TwinJson(cfg, items, key) == Some(blob)
  {
    var added := Elements(AddedRRs(cfg, inserts));
    var after := ZoneRRs(cfg, Delete(items, key)) + Shown(cfg, StoreChange(items, key, inserts), key);
    forall blob
      ensures RecordAt(cfg, key, blob) in added <==> AnyInserts(cfg, inserts, blob)
      ensures RecordAt(cfg, key, blob) in after <==>
              FirstJson(cfg, inserts) == Some(blob) || TwinJson(cfg, items, key) == Some(blob)
    {
      AddedRecord(cfg, key, inserts, blob);
      ShownHere(cfg, items, key, inserts, blob);
    }
    forall r | r in added
      ensures exists blob :: AnyInserts(cfg, inserts, blob) && r == RecordAt(cfg, key, blob)
    {
      AddedIs(cfg, key, inserts, r);
    }
  }

  /** Faithfulness told from the JSON alone is faithfulness in terms of records. */
  lemma FaithfulExactly(cfg: Config, items: map<Str, Item>, key: Str, inserts: seq<Write>)
    requires forall i :: 0 <= i < |inserts| ==> inserts[i].pk == key
    ensures Faithful(cfg, items, key, inserts) <==>
            FaithfulRecords(ZoneRRs(cfg, Delete(items, key)), Left(cfg, items, key),
                            Elements(RemovedRRs(cfg, items, key)),
                            Elements(AddedRRs(cfg, inserts)), Shown(cfg, StoreChange(items, key, inserts), key))
  {
    TakenClause(cfg, items, key, inserts);
    LeftClause(cfg, items, key, inserts);
    AddedClause(cfg, items, key, inserts);
    InsertedJsons(cfg, inserts, FirstJson(cfg, inserts), TwinJson(cfg, items, key));
  }

  lemma InsertedJsons(cfg: Config, inserts: seq<Write>, first: Option<Str>, twin: Option<Str>)
    ensures (forall i :: 0 <= i < |inserts| ==> cfg.marshal(inserts[i].item) in [None, first, twin]) <==>
            (forall blob :: AnyInserts(cfg, inserts, blob) ==> first == Some(blob) || twin == Some(blob))
  {
    forall i | 0 <= i < |inserts|
      ensures cfg.marshal(inserts[i].item).Some? ==> AnyInserts(cfg, inserts, cfg.marshal(inserts[i].item).value)
    {
    }
  }

  /** The delta journalled for this write turns the zone before it into the zone after it. */
  predicate Exact(cfg: Config, items: map<Str, Item>, key: Str, inserts: seq<Write>) {
    ApplyDelta(ZoneRRs(cfg, items), RemovedRRs(cfg, items, key), AddedRRs(cfg, inserts))
    == ZoneRRs(cfg, StoreChange(items, key, inserts))
  }

  lemma StoredIsAdded(cfg: Config, items: map<Str, Item>, key: Str, inserts: seq<Write>)
    requires forall i :: 0 <= i < |inserts| ==> inserts[i].pk == key
    ensures Shown(cfg, StoreChange(items, key, inserts), key) <= Elements(AddedRRs(cfg, inserts))
  {
    var items' := StoreChange(items, key, inserts);
    forall r | r in Shown(cfg, items', key)
      ensures r in Elements(AddedRRs(cfg, inserts))
    {
      ShownIs(cfg, items', key, r);
      AddedIs(cfg, key, inserts, r);
      assert AnyInserts(cfg, inserts, JsonAt(cfg, items', key).value);
    }
  }

  lemma LeftIs(cfg: Config, items: map<Str, Item>, key: Str)
    ensures Shown(cfg, items, key) - Elements(RemovedRRs(cfg, items, key)) == Left(cfg, items, key)
  {
    forall r
      ensures r in Elements(RemovedRRs(cfg, items, key)) <==>
              Lookup(items, key) != NilItem && r in Shown(cfg, items, key)
    {
      RemovedIs(cfg, items, key, r);
    }
  }

  /** In any store, the journalled delta turns the old zone into the new one exactly when the write is faithful. */
  lemma DeltaExactly(cfg: Config, items: map<Str, Item>, key: Str, inserts: seq<Write>)
    requires forall i :: 0 <= i < |inserts| ==> inserts[i].pk == key
    ensures Exact(cfg, items, key, inserts) <==> Faithful(cfg, items, key, inserts)
  {
    var items' := StoreChange(items, key, inserts);
    assert Delete(items', key) == Delete(items, key);
    ZoneSplit(cfg, items, key);
    ZoneSplit(cfg, items', key);
    LeftIs(cfg, items, key);
    StoredIsAdded(cfg, items, key, inserts);
    DeltaAlgebra(ZoneRRs(cfg, Delete(items, key)), Shown(cfg, items, key), Left(cfg, items, key),
                 Elements(RemovedRRs(cfg, items, key)), Elements(AddedRRs(cfg, inserts)), Shown(cfg, items', key));
    FaithfulExactly(cfg, items, key, inserts);
  }

  // ---------- runs ----------

  datatype Arrival = Arrival(io: Faults, req: Request)

  /** The states of a serialized run of UPDATEs, from the first to the last. */
  function States(cfg: Config, st: Primary, arrivals: seq<Arrival>): (states: seq<Primary>)
    ensures |states| == |arrivals| + 1 && states[0] == st
  {
    if arrivals == [] then [st]
    else
      var init, a := States(cfg, st, arrivals[..|arrivals| - 1]), arrivals[|arrivals| - 1];
      init + [Process(cfg, a.io, init[|arrivals| - 1], a.req).state]
  }

  lemma {:induction false} StatesStep(cfg: Config, st: Primary, arrivals: seq<Arrival>, m: nat)
    requires m < |arrivals|
    ensures var s := States(cfg, st, arrivals);
            s[m + 1] == Process(cfg, arrivals[m].io, s[m], arrivals[m].req).state
  {
    if m < |arrivals| - 1 {
      StatesStep(cfg, st, arrivals[..|arrivals| - 1], m);
    }
  }

  lemma {:induction false} StatesUpTo(cfg: Config, st: Primary, arrivals: seq<Arrival>, j: nat)
    requires j <= |arrivals|
    ensures States(cfg, st, arrivals[..j]) == States(cfg, st, arrivals)[..j + 1]
  {
    if j < |arrivals| {
      var init := arrivals[..|arrivals| - 1];
      StatesUpTo(cfg, st, init, j);
      assert init[..j] == arrivals[..j];
    } else {
      assert arrivals[..j] == arrivals;
    }
  }

  /** A store no secondary can be misled about: no reserved keys, no nulls. */
  predicate Clean(items: map<Str, Item>) {
    forall k :: k in items ==> !Reserved(k) && items[k] != NilItem
  }

  /** A request that inserts at one owner name at most, outside the reserved keys, and never null. */
  predicate Benign(cfg: Config, req: Request) {
    var changes := ChangesOf(cfg, req.updates);
    && SingleOwner(cfg, req)
    && forall o :: o in InsertOwners(changes) && WriteOf(cfg, changes, o).Ok? ==>
         !Reserved(WriteOf(cfg, changes, o).value.pk) && WriteOf(cfg, changes, o).value.item != NilItem
  }

  lemma BenignWrites(cfg: Config, req: Request, inserts: seq<Write>)
    requires Benign(cfg, req)
    requires var changes := ChangesOf(cfg, req.updates);
             Writes(cfg, changes, Distinct(InsertOwners(changes))) == Ok(inserts)
    ensures |inserts| <= 1 && forall i :: 0 <= i < |inserts| ==> !Reserved(inserts[i].pk) && inserts[i].item != NilItem
  {
    var changes := ChangesOf(cfg, req.updates);
    var owners := Distinct(InsertOwners(changes));
    WritesAre(cfg, changes, owners);
    DistinctElements(InsertOwners(changes));
    forall i | 0 <= i < |inserts|
      ensures !Reserved(inserts[i].pk) && inserts[i].item != NilItem
    {
      assert owners[i] in InsertOwners(changes);
      assert WriteOf(cfg, changes, owners[i]) == Ok(inserts[i]);
    }
  }

  /** At most one insert, of a real item under an unreserved key. */
  predicate PlainInserts(key: Str, inserts: seq<Write>) {
    && |inserts| <= 1
    && forall i :: 0 <= i < |inserts| ==> inserts[i].pk == key && !Reserved(key) && inserts[i].item != NilItem
  }

  /** In a clean store, a benign write is journalled exactly and leaves the store clean. */
  lemma BenignIsExact(cfg: Config, items: map<Str, Item>, key: Str, inserts: seq<Write>)
    requires Clean(items) && PlainInserts(key, inserts)
    ensures Clean(StoreChange(items, key, inserts))
    ensures Exact(cfg, items, key, inserts)
  {
    DeltaExactly(cfg, items, key, inserts);
    if inserts != [] || key in items {
      assert TwinJson(cfg, items, key).None?;
    }
    assert Faithful(cfg, items, key, inserts);
  }

  lemma PlainJournalling(cfg: Config, items: map<Str, Item>, key: Str, inserts: seq<Write>)
    ensures NoSoa(RemovedRRs(cfg, items, key)) && NoSoa(AddedRRs(cfg, inserts))
  {
    AddedAre(cfg, inserts);
    var added := AddedRRs(cfg, inserts);
    forall i | 0 <= i < |added|
      ensures !added[i].SOA?
    {
      assert added[i] in added;
    }
    var removed := RemovedRRs(cfg, items, key);
    assert forall i :: 0 <= i < |removed| ==> removed[i] in removed;
  }

  /** The journal is a window on a log with one entry per serial since `base`, holding no SOA. */
  ghost predicate Journalled(st: Primary, base: nat, hist: seq<Delta>) {
    && st.serial == base + |hist|
    && Journal.Consecutive(base, hist)
    && (forall i :: 0 <= i < |hist| ==> PlainDelta(hist[i]))
    && (st.journal.Some? ==> Journal.Window(st.journal.value, base, hist))
  }

  function DeltaOf(cfg: Config, st: Primary, key: Str, inserts: seq<Write>): Delta {
    Delta(Inc(st.serial), RemovedRRs(cfg, st.items, key), AddedRRs(cfg, inserts))
  }

  /** The step's delta, if it journals one, turns the zone before it into the zone after it. */
  predicate ExactStep(cfg: Config, st: Primary, a: Arrival) {
    var plan := PlanOf(cfg, a.io, st.items, a.req);
    plan.Mutate? && Process(cfg, a.io, st, a.req).rcode == NOERROR ==> Exact(cfg, st.items, plan.key, plan.inserts)
  }

  lemma PerformJournalled(cfg: Config, st: Primary, key: Str, inserts: seq<Write>, base: nat, hist: seq<Delta>)
    requires Journalled(st, base, hist) && st.serial < MAX_UINT32
    ensures Journalled(Perform(cfg, st, key, inserts), base, hist + [DeltaOf(cfg, st, key, inserts)])
  {
    PlainJournalling(cfg, st.items, key, inserts);
    if st.journal.Some? {
      Journal.WindowRecord(st.journal.value, base, hist, DeltaOf(cfg, st, key, inserts));
    }
  }

  /** The delta by which `zone` became `zone'`, or none when nothing was written. */
  ghost predicate Logged(st: Primary, st': Primary, hist: seq<Delta>, hist': seq<Delta>, exact: bool, zone: set<RR>,
                         zone': set<RR>) {
    || (hist' == hist && st' == st && exact)
    || (|hist'| == |hist| + 1 && hist <= hist' && st'.serial == st.serial + 1 &&
        (exact <==> ApplyDelta(zone, hist'[|hist|].removed, hist'[|hist|].added) == zone'))
  }

  /** Any UPDATE at all extends the log by what it journals. */
  lemma StepJournalled(cfg: Config, st: Primary, a: Arrival, base: nat, hist: seq<Delta>) returns (hist': seq<Delta>)
    requires Journalled(st, base, hist) && st.serial < MAX_UINT32
    ensures var st' := Process(cfg, a.io, st, a.req).state;
            && Journalled(st', base, hist')
            && Logged(st, st', hist, hist', ExactStep(cfg, st, a), ZoneRRs(cfg, st.items), ZoneRRs(cfg, st'.items))
  {
    hist' := hist;
    var plan := PlanOf(cfg, a.io, st.items, a.req);
    if plan.Mutate? && Process(cfg, a.io, st, a.req).rcode == NOERROR {
      PerformJournalled(cfg, st, plan.key, plan.inserts, base, hist);
      hist' := hist + [DeltaOf(cfg, st, plan.key, plan.inserts)];
    }
  }

  /** A journal as it comes up, if the server keeps one. */
  predicate FreshStart(st: Primary) {
    st.journal.Some? ==> st.journal.value == Journal.Fresh(st.serial)
  }

  /** Every run, whatever its UPDATEs, keeps the journal a window on one log. */
  lemma {:induction false} RunJournalled(cfg: Config, st: Primary, arrivals: seq<Arrival>) returns (hist: seq<Delta>)
    requires FreshStart(st) && st.serial + |arrivals| <= MAX_UINT32
    ensures Journalled(States(cfg, st, arrivals)[|arrivals|], st.serial, hist) && |hist| <= |arrivals|
  {
    if arrivals == [] {
      hist := [];
      if st.journal.Some? {
        Journal.FreshWindow(st.serial);
      }
    } else {
      var n := |arrivals| - 1;
      hist := RunJournalled(cfg, st, arrivals[..n]);
      hist := StepJournalled(cfg, States(cfg, st, arrivals[..n])[n], arrivals[n], st.serial, hist);
    }
  }

  /** Beside the log, the zone at every serial since `base`, each the one before with its delta applied. */
  ghost predicate Coherent(cfg: Config, st: Primary, base: nat, zones: seq<set<RR>>, hist: seq<Delta>) {
    && Journalled(st, base, hist)
    && |zones| == |hist| + 1
    && zones[|hist|] == ZoneRRs(cfg, st.items)
    && (forall i :: 0 <= i < |hist| ==> zones[i + 1] == ApplyDelta(zones[i], hist[i].removed, hist[i].added))
  }

  lemma StepCoherent(cfg: Config, st: Primary, a: Arrival, base: nat, zones: seq<set<RR>>, hist: seq<Delta>)
    returns (zones': seq<set<RR>>, hist': seq<Delta>)
    requires Coherent(cfg, st, base, zones, hist) && st.serial < MAX_UINT32 && ExactStep(cfg, st, a)
    ensures Coherent(cfg, Process(cfg, a.io, st, a.req).state, base, zones', hist')
    ensures zones <= zones' && |hist| <= |hist'| <= |hist| + 1
  {
    var st' := Process(cfg, a.io, st, a.req).state;
    hist' := StepJournalled(cfg, st, a, base, hist);
    zones' := ExtendZones(cfg, st, st', base, zones, hist, hist');
  }

  lemma ExtendZones(cfg: Config, st: Primary, st': Primary, base: nat, zones: seq<set<RR>>, hist: seq<Delta>,
                    hist': seq<Delta>)
    returns (zones': seq<set<RR>>)
    requires Coherent(cfg, st, base, zones, hist) && Journalled(st', base, hist')
    requires Logged(st, st', hist, hist', true, ZoneRRs(cfg, st.items), ZoneRRs(cfg, st'.items))
    ensures Coherent(cfg, st', base, zones', hist') && zones <= zones'
  {
    zones' := if |hist'| == |hist| then zones else zones + [ZoneRRs(cfg, st'.items)];
  }

  predicate ShowsZone(cfg: Config, st: Primary, base: nat, zones: seq<set<RR>>) {
    base <= st.serial < base + |zones| && zones[st.serial - base] == ZoneRRs(cfg, st.items)
  }

  /** One log and one zone per serial behind all states of a run. */
  ghost predicate RunFacts(cfg: Config, states: seq<Primary>, base: nat, zones: seq<set<RR>>, hist: seq<Delta>) {
    && states != []
    && Coherent(cfg, states[|states| - 1], base, zones, hist)
    && |hist| < |states|
    && forall i :: 0 <= i < |states| ==> ShowsZone(cfg, states[i], base, zones)
  }

  lemma ExtendRun(cfg: Config, states: seq<Primary>, st: Primary, base: nat,
                  zones: seq<set<RR>>, hist: seq<Delta>, zones': seq<set<RR>>, hist': seq<Delta>)
    requires RunFacts(cfg, states, base, zones, hist)
    requires Coherent(cfg, st, base, zones', hist') && zones <= zones' && |hist'| <= |hist| + 1
    ensures RunFacts(cfg, states + [st], base, zones', hist')
  {
    var all := states + [st];
    forall i | 0 <= i < |all|
      ensures ShowsZone(cfg, all[i], base, zones')
    {
      if i < |states| {
        assert ShowsZone(cfg, states[i], base, zones);
      }
    }
  }

  predicate EveryStep(p: (Primary, Arrival) -> bool, states: seq<Primary>, arrivals: seq<Arrival>)
    requires |states| == |arrivals| + 1
  {
    forall m :: 0 <= m < |arrivals| ==> p(states[m], arrivals[m])
  }

  lemma EveryStepUpTo(p: (Primary, Arrival) -> bool, states: seq<Primary>, arrivals: seq<Arrival>, j: nat)
    requires |states| == |arrivals| + 1 && j <= |arrivals| && EveryStep(p, states, arrivals)
    ensures EveryStep(p, states[..j + 1], arrivals[..j])
  {
    forall m | 0 <= m < j
      ensures p(states[..j + 1][m], arrivals[..j][m])
    {
      assert p(states[m], arrivals[m]);
    }
  }

  lemma EveryStepSnoc(p: (Primary, Arrival) -> bool, states: seq<Primary>, arrivals: seq<Arrival>)
    requires |states| == |arrivals| + 1 && arrivals != []
    ensures var n := |arrivals| - 1;
            EveryStep(p, states, arrivals) <==>
            EveryStep(p, states[..n + 1], arrivals[..n]) && p(states[n], arrivals[n])
  {
    var n := |arrivals| - 1;
    if EveryStep(p, states, arrivals) {
      EveryStepUpTo(p, states, arrivals, n);
    } else {
      var m :| 0 <= m < |arrivals| && !p(states[m], arrivals[m]);
      assert m < n ==> !p(states[..n + 1][m], arrivals[..n][m]);
    }
  }

  function Exactly(cfg: Config): (Primary, Arrival) -> bool {
    (st, a) => ExactStep(cfg, st, a)
  }

  /** Every step of the run journals exactly. */
  predicate ExactRun(cfg: Config, st: Primary, arrivals: seq<Arrival>) {
    EveryStep(Exactly(cfg), States(cfg, st, arrivals), arrivals)
  }

  lemma ExactRunSnoc(cfg: Config, st: Primary, arrivals: seq<Arrival>)
    requires arrivals != []
    ensures var n := |arrivals| - 1;
            ExactRun(cfg, st, arrivals) <==>
            ExactRun(cfg, st, arrivals[..n]) && ExactStep(cfg, States(cfg, st, arrivals[..n])[n], arrivals[n])
  {
    var n := |arrivals| - 1;
    StatesUpTo(cfg, st, arrivals, n);
    EveryStepSnoc(Exactly(cfg), States(cfg, st, arrivals), arrivals);
    assert States(cfg, st, arrivals[..n])[n] == States(cfg, st, arrivals)[n];
  }

  lemma {:induction false} RunCoherent(cfg: Config, st: Primary, arrivals: seq<Arrival>)
    returns (zones: seq<set<RR>>, hist: seq<Delta>)
    requires FreshStart(st) && st.serial + |arrivals| <= MAX_UINT32 && ExactRun(cfg, st, arrivals)
    ensures RunFacts(cfg, States(cfg, st, arrivals), st.serial, zones, hist)
  {
    if arrivals == [] {
      zones, hist := [ZoneRRs(cfg, st.items)], [];
      if st.journal.Some? {
        Journal.FreshWindow(st.serial);
      }
    } else {
      var n := |arrivals| - 1;
      ExactRunSnoc(cfg, st, arrivals);
      var init := States(cfg, st, arrivals[..n]);
      var zones0, hist0 := RunCoherent(cfg, st, arrivals[..n]);
      zones, hist := StepCoherent(cfg, init[n], arrivals[n], st.serial, zones0, hist0);
      var last := Process(cfg, arrivals[n].io, init[n], arrivals[n].req).state;
      ExtendRun(cfg, init, last, st.serial, zones0, hist0, zones, hist);
    }
  }

  // ---------- benign requests in a clean store ----------

  lemma BenignStep(cfg: Config, st: Primary, a: Arrival)
    requires Clean(st.items) && Benign(cfg, a.req)
    ensures ExactStep(cfg, st, a) && Clean(Process(cfg, a.io, st, a.req).state.items)
  {
    var plan := PlanOf(cfg, a.io, st.items, a.req);
    if plan.Mutate? {
      BenignWrites(cfg, a.req, plan.inserts);
      PlanDeletions(cfg, ChangesOf(cfg, a.req.updates));
      BenignIsExact(cfg, st.items, plan.key, plan.inserts);
    }
  }

  /** A server as it comes up: a clean store and a fresh journal. */
  predicate GoodStart(st: Primary) {
    Clean(st.items) && FreshStart(st)
  }

  /** Runs of benign requests from a clean store are exact at every step. */
  lemma {:induction false} BenignRun(cfg: Config, st: Primary, arrivals: seq<Arrival>)
    requires Clean(st.items) && forall i :: 0 <= i < |arrivals| ==> Benign(cfg, arrivals[i].req)
    ensures ExactRun(cfg, st, arrivals) && Clean(States(cfg, st, arrivals)[|arrivals|].items)
  {
    if arrivals != [] {
      var n := |arrivals| - 1;
      BenignRun(cfg, st, arrivals[..n]);
      BenignStep(cfg, States(cfg, st, arrivals[..n])[n], arrivals[n]);
      ExactRunSnoc(cfg, st, arrivals);
    }
  }

  // ---------- replies bring a secondary up to date ----------

  lemma {:induction false} DiffsOfSnoc(deltas: seq<Delta>, d: Delta)
    ensures DiffsOf(deltas + [d]) == DiffsOf(deltas) + [DiffOf(d)]
  {
    if deltas == [] {
      assert [d][1..] == [];
    } else {
      DiffsOfSnoc(deltas[1..], d);
      assert (deltas + [d])[1..] == deltas[1..] + [d];
    }
  }

  lemma SliceSnoc<T>(s: seq<T>, i: nat, j: nat)
    requires i < j <= |s|
    ensures s[i..j] == s[i..j - 1] + [s[j - 1]]
  {
  }

  /** Replaying the log from one serial to another turns the one zone into the other. */
  lemma {:induction false} ReplayRebuilds(zones: seq<set<RR>>, hist: seq<Delta>, i: nat, j: nat)
    requires |zones| == |hist| + 1 && i <= j <= |hist|
    requires forall k :: 0 <= k < |hist| ==> zones[k + 1] == ApplyDelta(zones[k], hist[k].removed, hist[k].added)
    ensures ApplyDiffs(zones[i], DiffsOf(hist[i..j])) == zones[j]
    decreases j - i
  {
    if i < j {
      SliceSnoc(hist, i, j);
      ReplayRebuilds(zones, hist, i, j - 1);
      DiffsOfSnoc(hist[i..j - 1], hist[j - 1]);
      var diffs := DiffsOf(hist[i..j]);
      assert diffs[..|diffs| - 1] == DiffsOf(hist[i..j - 1]);
    }
  }

  /** Replaying all of the log from one point on ends at the current zone. */
  lemma ReplaySuffix(cfg: Config, st: Primary, base: nat, zones: seq<set<RR>>, hist: seq<Delta>, from: nat)
    requires Coherent(cfg, st, base, zones, hist) && from <= |hist|
    ensures ApplyDiffs(zones[from], DiffsOf(hist[from..])) == ZoneRRs(cfg, st.items)
  {
    ReplayRebuilds(zones, hist, from, |hist|);
    assert hist[from..|hist|] == hist[from..];
  }

  /** A well-formed TCP IXFR request from a secondary at serial `own`. */
  predicate Asks(cfg: Config, req: TransferRequest, own: uint32) {
    && |req.authority| == 1 && req.authority[0].SOA? && req.authority[0].serial == own
    && EqualFold(req.qname, cfg.zone) && req.tcp
  }

  /** What the reply to a secondary at serial `own` has to be. */
  ghost function Expected(cfg: Config, st: Primary, base: nat, hist: seq<Delta>, page: seq<Entry>, own: uint32): Content
    requires st.serial == base + |hist| && own <= st.serial
  {
    if own == st.serial then UpToDate
    else if st.journal.Some? && base + Journal.Dropped(hist) <= own && st.serial < MAX_UINT32
    then Incremental(DiffsOf(hist[own - base..]))
    else Full(PageRRs(cfg, page))
  }

  /** The reply reads back as what it has to be, without help from message boundaries or from the end of the stream. */
  lemma ReplyReadsBack(cfg: Config, st: Primary, base: nat, hist: seq<Delta>,
                       page: seq<Entry>, req: TransferRequest, own: uint32, tail: seq<RR>)
    requires Journalled(st, base, hist) && Asks(cfg, req, own) && own <= st.serial && cfg.enumerable
    ensures var reply := IxfrReply(cfg, st, page, req);
            && reply.Answers?
            && ParseReply(own, Concat(reply.msgs) + tail)
               == Some(Parsed(st.serial, Expected(cfg, st, base, hist, page, own), tail))
  {
    var reply := IxfrReply(cfg, st, page, req);
    if own == st.serial {
      assert Concat(reply.msgs) + tail == [Soa(cfg, st.serial)] + tail;
      Tail(Soa(cfg, st.serial), tail);
    } else {
      var deltas := if st.journal.None? then None else Journal.Since(st.journal.value, own);
      StreamHolds(cfg, st.serial, page, deltas);
      if st.journal.Some? {
        Journal.WindowSince(st.journal.value, base, hist, own);
      }
      if deltas.Some? {
        FramingRoundTrip(cfg, own, st.serial, deltas.value, reply.msgs, tail);
      } else {
        PageRRsNoSoa(cfg, page);
        FullRoundTrip(cfg, own, st.serial, PageRRs(cfg, page), reply.msgs, tail);
      }
    }
  }

  lemma ExpectedIsCurrent(cfg: Config, st: Primary, base: nat, zones: seq<set<RR>>, hist: seq<Delta>,
                          page: seq<Entry>, own: Replica, s: seq<RR>, tail: seq<RR>)
    requires Coherent(cfg, st, base, zones, hist) && IsListing(st.items, page) && own.serial <= st.serial
    requires own.serial >= base ==> own.zone == zones[own.serial - base]
    requires ParseReply(own.serial, s) == Some(Parsed(st.serial, Expected(cfg, st, base, hist, page, own.serial), tail))
    ensures Receive(own, s) == Some(Replica(st.serial, ZoneRRs(cfg, st.items)))
  {
    PageIsZone(cfg, st.items, page);
    if own.serial >= base {
      ReplaySuffix(cfg, st, base, zones, hist, own.serial - base);
    }
  }

  /** A secondary at any serial up to the current one, holding that serial's zone if the run had one,
      ends with the current serial and exactly the current zone. */
  lemma ReplyIsCurrent(cfg: Config, st: Primary, base: nat, zones: seq<set<RR>>, hist: seq<Delta>,
                       page: seq<Entry>, req: TransferRequest, own: Replica, tail: seq<RR>)
    requires Coherent(cfg, st, base, zones, hist) && IsListing(st.items, page) && cfg.enumerable
    requires Asks(cfg, req, own.serial) && own.serial <= st.serial
    requires own.serial >= base ==> own.zone == zones[own.serial - base]
    ensures var reply := IxfrReply(cfg, st, page, req);
            && reply.Answers?
            && Receive(own, Concat(reply.msgs) + tail) == Some(Replica(st.serial, ZoneRRs(cfg, st.items)))
  {
    ReplyReadsBack(cfg, st, base, hist, page, req, own.serial, tail);
    ExpectedIsCurrent(cfg, st, base, zones, hist, page, own, Concat(IxfrReply(cfg, st, page, req).msgs) + tail, tail);
  }

  /** Replication converges: after any run that journalled exactly, a secondary holding the zone as it was at any
      earlier point of the run, and any older secondary whatever it holds, is brought by one TCP IXFR reply to
      the current serial and exactly the current zone. */
  lemma SecondaryConverges(cfg: Config, st: Primary, arrivals: seq<Arrival>, own: Replica,
                           page: seq<Entry>, req: TransferRequest, tail: seq<RR>)
    requires FreshStart(st) && st.serial + |arrivals| <= MAX_UINT32 && cfg.enumerable && ExactRun(cfg, st, arrivals)
    requires var states := States(cfg, st, arrivals);
             && IsListing(states[|arrivals|].items, page)
             && (own.serial < st.serial ||
                 exists i :: 0 <= i < |states| && own == Replica(states[i].serial, ZoneRRs(cfg, states[i].items)))
    requires Asks(cfg, req, own.serial)
    ensures var last := States(cfg, st, arrivals)[|arrivals|];
            var reply := IxfrReply(cfg, last, page, req);
            && reply.Answers?
            && Receive(own, Concat(reply.msgs) + tail) == Some(Replica(last.serial, ZoneRRs(cfg, last.items)))
  {
    var states := States(cfg, st, arrivals);
    var zones, hist := RunCoherent(cfg, st, arrivals);
    if own.serial >= st.serial {
      var i :| 0 <= i < |states| && own == Replica(states[i].serial, ZoneRRs(cfg, states[i].items));
      assert ShowsZone(cfg, states[i], st.serial, zones);
    }
    ReplyIsCurrent(cfg, states[|arrivals|], st.serial, zones, hist, page, req, own, tail);
  }

  /** In particular after every run of benign UPDATEs from a clean store. */
  lemma BenignSecondaryConverges(cfg: Config, st: Primary, arrivals: seq<Arrival>, own: Replica,
                                 page: seq<Entry>, req: TransferRequest, tail: seq<RR>)
    requires GoodStart(st) && st.serial + |arrivals| <= MAX_UINT32 && cfg.enumerable
    requires forall i :: 0 <= i < |arrivals| ==> Benign(cfg, arrivals[i].req)
    requires var states := States(cfg, st, arrivals);
             && IsListing(states[|arrivals|].items, page)
             && (own.serial < st.serial ||
                 exists i :: 0 <= i < |states| && own == Replica(states[i].serial, ZoneRRs(cfg, states[i].items)))
    requires Asks(cfg, req, own.serial)
    ensures var last := States(cfg, st, arrivals)[|arrivals|];
            var reply := IxfrReply(cfg, last, page, req);
            && reply.Answers?
            && Receive(own, Concat(reply.msgs) + tail) == Some(Replica(last.serial, ZoneRRs(cfg, last.items)))
  {
    BenignRun(cfg, st, arrivals);
    SecondaryConverges(cfg, st, arrivals, own, page, req, tail);
  }

  /** Whatever the UPDATEs of a run, exact or not, every reply to a serial up to the current one identifies itself
      and reads back as exactly the journalled deltas, the listed items, or nothing to do. */
  lemma EveryReplyReadsBack(cfg: Config, st: Primary, arrivals: seq<Arrival>, page: seq<Entry>, req: TransferRequest,
                            own: uint32, tail: seq<RR>) returns (hist: seq<Delta>)
    requires FreshStart(st) && st.serial + |arrivals| <= MAX_UINT32 && cfg.enumerable
    requires Asks(cfg, req, own) && own <= States(cfg, st, arrivals)[|arrivals|].serial
    ensures var last := States(cfg, st, arrivals)[|arrivals|];
            var reply := IxfrReply(cfg, last, page, req);
            && Journalled(last, st.serial, hist)
            && reply.Answers?
            && ParseReply(own, Concat(reply.msgs) + tail)
               == Some(Parsed(last.serial, Expected(cfg, last, st.serial, hist, page, own), tail))
  {
    hist := RunJournalled(cfg, st, arrivals);
    ReplyReadsBack(cfg, States(cfg, st, arrivals)[|arrivals|], st.serial, hist, page, req, own, tail);
  }

  /** What the later state's journal answers to the earlier state's serial, if anything, rebuilds its zone. */
  predicate Rebuilds(cfg: Config, from: Primary, to: Primary) {
    to.journal.Some? ==>
      Leads(ZoneRRs(cfg, from.items), Journal.Since(to.journal.value, from.serial), ZoneRRs(cfg, to.items))
  }

  predicate Leads(zone: set<RR>, answer: Option<seq<Delta>>, zone': set<RR>) {
    answer.Some? ==> ApplyDiffs(zone, DiffsOf(answer.value)) == zone'
  }

  lemma SuffixLeads(cfg: Config, st: Primary, base: nat, zones: seq<set<RR>>, hist: seq<Delta>,
                    from: nat, zone: set<RR>, answer: Option<seq<Delta>>)
    requires Coherent(cfg, st, base, zones, hist) && from <= |hist| && zone == zones[from]
    requires answer.None? || answer == Some(hist[from..])
    ensures Leads(zone, answer, ZoneRRs(cfg, st.items))
  {
    ReplaySuffix(cfg, st, base, zones, hist, from);
  }

  lemma JournalAnswers(st: Primary, base: nat, hist: seq<Delta>, since: uint32)
    requires Journalled(st, base, hist) && st.journal.Some? && base <= since <= st.serial
    ensures var deltas := Journal.Since(st.journal.value, since); deltas.None? || deltas == Some(hist[since - base..])
  {
    Journal.WindowSince(st.journal.value, base, hist, since);
  }

  /** Between two serials behind which stand one log and its zones. */
  lemma DeltasBetween(cfg: Config, st: Primary, base: nat, zones: seq<set<RR>>, hist: seq<Delta>, at: Primary)
    requires Coherent(cfg, st, base, zones, hist) && st.journal.Some? && ShowsZone(cfg, at, base, zones)
    ensures Rebuilds(cfg, at, st)
  {
    JournalAnswers(st, base, hist, at.serial);
    SuffixLeads(cfg, st, base, zones, hist, at.serial - base, ZoneRRs(cfg, at.items),
                Journal.Since(st.journal.value, at.serial));
  }

  /** The same at the journal: an earlier state's serial is answered exactly when at most CAP writes separate it
      from the last state (and the last serial has not been reached), and the deltas, removals first, turn its
      zone into the last one. */
  lemma DeltasConverge(cfg: Config, st: Primary, arrivals: seq<Arrival>, i: nat)
    requires FreshStart(st) && st.journal.Some? && st.serial + |arrivals| <= MAX_UINT32 && i <= |arrivals|
    requires ExactRun(cfg, st, arrivals)
    ensures var at, last := States(cfg, st, arrivals)[i], States(cfg, st, arrivals)[|arrivals|];
            && last.journal.Some?
            && (Journal.Since(last.journal.value, at.serial).Some? <==>
                last.serial - at.serial <= Journal.CAP && last.serial < MAX_UINT32)
            && Rebuilds(cfg, at, last)
  {
    var states := States(cfg, st, arrivals);
    var zones, hist := RunCoherent(cfg, st, arrivals);
    JournalStays(cfg, st, arrivals);
    assert ShowsZone(cfg, states[i], st.serial, zones);
    DeltasBetween(cfg, states[|arrivals|], st.serial, zones, hist, states[i]);
    Journal.WindowSince(states[|arrivals|].journal.value, st.serial, hist, states[i].serial);
  }

  lemma ApplyOne(zone: set<RR>, d: Delta)
    ensures ApplyDiffs(zone, DiffsOf([d])) == ApplyDelta(zone, d.removed, d.added)
  {
    assert [d][1..] == [];
    assert DiffsOf([d]) == [DiffOf(d)];
    assert [DiffOf(d)][..0] == [];
  }

  /** One step: the journal rebuilds the zone after it from the zone before it exactly when the step is exact. */
  lemma StepRebuildsExactly(cfg: Config, st: Primary, a: Arrival, base: nat, hist: seq<Delta>)
    requires Journalled(st, base, hist) && st.journal.Some? && st.serial < MAX_UINT32 - 1
    ensures Rebuilds(cfg, st, Process(cfg, a.io, st, a.req).state) <==> ExactStep(cfg, st, a)
  {
    var st' := Process(cfg, a.io, st, a.req).state;
    ProcessKeepsJournal(cfg, st, a);
    var hist' := StepJournalled(cfg, st, a, base, hist);
    OneEntryRebuilds(cfg, st, st', base, hist, hist', ExactStep(cfg, st, a));
  }

  lemma OneEntryRebuilds(cfg: Config, st: Primary, st': Primary, base: nat, hist: seq<Delta>, hist': seq<Delta>,
                         exact: bool)
    requires st.serial == base + |hist| && st.serial < MAX_UINT32 - 1
    requires Journalled(st', base, hist') && st'.journal.Some?
    requires Logged(st, st', hist, hist', exact, ZoneRRs(cfg, st.items), ZoneRRs(cfg, st'.items))
    ensures Rebuilds(cfg, st, st') <==> exact
  {
    Journal.WindowSince(st'.journal.value, base, hist', st.serial);
    if |hist'| == |hist| {
      assert hist'[|hist|..] == [];
    } else {
      assert hist'[|hist|..] == [hist'[|hist|]];
      ApplyOne(ZoneRRs(cfg, st.items), hist'[|hist|]);
    }
  }

  predicate AllRebuild(cfg: Config, states: seq<Primary>) {
    forall i, j :: 0 <= i <= j < |states| ==> Rebuilds(cfg, states[i], states[j])
  }

  lemma PairRebuilds(cfg: Config, st: Primary, arrivals: seq<Arrival>, i: nat, j: nat)
    requires FreshStart(st) && st.journal.Some? && st.serial + |arrivals| <= MAX_UINT32 && i <= j <= |arrivals|
    requires ExactRun(cfg, st, arrivals)
    ensures Rebuilds(cfg, States(cfg, st, arrivals)[i], States(cfg, st, arrivals)[j])
  {
    ExactUpTo(cfg, st, arrivals, j);
    DeltasConverge(cfg, st, arrivals[..j], i);
  }

  lemma StepOfRun(cfg: Config, st: Primary, arrivals: seq<Arrival>, m: nat)
    requires FreshStart(st) && st.journal.Some? && st.serial + |arrivals| < MAX_UINT32 && m < |arrivals|
    ensures var states := States(cfg, st, arrivals);
            Rebuilds(cfg, states[m], states[m + 1]) <==> ExactStep(cfg, states[m], arrivals[m])
  {
    StatesUpTo(cfg, st, arrivals, m);
    StatesStep(cfg, st, arrivals, m);
    JournalStays(cfg, st, arrivals[..m]);
    var hist := RunJournalled(cfg, st, arrivals[..m]);
    StepRebuildsExactly(cfg, States(cfg, st, arrivals)[m], arrivals[m], st.serial, hist);
  }

  /** Replication is exact for a whole run, between any two of its points, exactly when every step of it is. */
  lemma ReplicationExactly(cfg: Config, st: Primary, arrivals: seq<Arrival>)
    requires FreshStart(st) && st.journal.Some? && st.serial + |arrivals| < MAX_UINT32
    ensures AllRebuild(cfg, States(cfg, st, arrivals)) <==> ExactRun(cfg, st, arrivals)
  {
    var states := States(cfg, st, arrivals);
    if ExactRun(cfg, st, arrivals) {
      forall i, j | 0 <= i <= j < |states|
        ensures Rebuilds(cfg, states[i], states[j])
      {
        PairRebuilds(cfg, st, arrivals, i, j);
      }
    }
    if AllRebuild(cfg, states) {
      forall m | 0 <= m < |arrivals|
        ensures Exactly(cfg)(states[m], arrivals[m])
      {
        StepOfRun(cfg, st, arrivals, m);
      }
    }
  }

  /** What can be told before the step from the store, the request and its store calls. */
  predicate FaithfulStep(cfg: Config, st: Primary, a: Arrival) {
    var plan := PlanOf(cfg, a.io, st.items, a.req);
    plan.Mutate? && !a.io.read(|a.req.prereqs|) && !a.io.write ==> Faithful(cfg, st.items, plan.key, plan.inserts)
  }

  function Faithfully(cfg: Config): (Primary, Arrival) -> bool {
    (st, a) => FaithfulStep(cfg, st, a)
  }

  predicate FaithfulRun(cfg: Config, st: Primary, arrivals: seq<Arrival>) {
    EveryStep(Faithfully(cfg), States(cfg, st, arrivals), arrivals)
  }

  lemma FaithfulStepExactly(cfg: Config, st: Primary, a: Arrival)
    ensures ExactStep(cfg, st, a) <==> FaithfulStep(cfg, st, a)
  {
    var plan := PlanOf(cfg, a.io, st.items, a.req);
    if plan.Mutate? {
      PlanDeletions(cfg, ChangesOf(cfg, a.req.updates));
      DeltaExactly(cfg, st.items, plan.key, plan.inserts);
    }
  }

  /** Replication is exact for a whole run, between any two of its points, exactly when every step is faithful. */
  lemma ReplicationFaithfully(cfg: Config, st: Primary, arrivals: seq<Arrival>)
    requires FreshStart(st) && st.journal.Some? && st.serial + |arrivals| < MAX_UINT32
    ensures AllRebuild(cfg, States(cfg, st, arrivals)) <==> FaithfulRun(cfg, st, arrivals)
  {
    ReplicationExactly(cfg, st, arrivals);
    var states := States(cfg, st, arrivals);
    forall m | 0 <= m < |arrivals|
      ensures Exactly(cfg)(states[m], arrivals[m]) <==> Faithfully(cfg)(states[m], arrivals[m])
    {
      FaithfulStepExactly(cfg, states[m], arrivals[m]);
    }
  }

  lemma ExactUpTo(cfg: Config, st: Primary, arrivals: seq<Arrival>, j: nat)
    requires j <= |arrivals| && ExactRun(cfg, st, arrivals)
    ensures ExactRun(cfg, st, arrivals[..j])
    ensures States(cfg, st, arrivals[..j]) == States(cfg, st, arrivals)[..j + 1]
  {
    StatesUpTo(cfg, st, arrivals, j);
    EveryStepUpTo(Exactly(cfg), States(cfg, st, arrivals), arrivals, j);
  }

  lemma ProcessKeepsJournal(cfg: Config, st: Primary, a: Arrival)
    ensures Process(cfg, a.io, st, a.req).state.journal.Some? <==> st.journal.Some?
  {
  }

  lemma {:induction false} JournalStays(cfg: Config, st: Primary, arrivals: seq<Arrival>)
    ensures States(cfg, st, arrivals)[|arrivals|].journal.Some? <==> st.journal.Some?
  {
    if arrivals != [] {
      var n := |arrivals| - 1;
      JournalStays(cfg, st, arrivals[..n]);
      ProcessKeepsJournal(cfg, States(cfg, st, arrivals[..n])[n], arrivals[n]);
    }
  }

  // ---------- secondaries, exactly ----------

  /** A secondary holding the earlier state's serial and zone that asks the later state ends with the later ones. */
  ghost predicate Served(cfg: Config, from: Primary, to: Primary) {
    forall req, tail | Asks(cfg, req, from.serial) ::
      EndsAt(IxfrReply(cfg, to, Listing(to.items), req), Replica(from.serial, ZoneRRs(cfg, from.items)), tail,
             Replica(to.serial, ZoneRRs(cfg, to.items)))
  }

  predicate EndsAt(reply: Reply, own: Replica, tail: seq<RR>, goal: Replica) {
    reply.Answers? && Receive(own, Concat(reply.msgs) + tail) == Some(goal)
  }

  lemma LeadsExactly(cfg: Config, to: Primary, base: nat, hist: seq<Delta>, own: Replica, s: seq<RR>, tail: seq<RR>)
    requires Journalled(to, base, hist) && own.serial < to.serial
    requires ParseReply(own.serial, s)
             == Some(Parsed(to.serial, Expected(cfg, to, base, hist, Listing(to.items), own.serial), tail))
    ensures var zone' := ZoneRRs(cfg, to.items);
            Receive(own, s) == Some(Replica(to.serial, zone')) <==>
            (to.journal.Some? ==> Leads(own.zone, Journal.Since(to.journal.value, own.serial), zone'))
  {
    PageIsZone(cfg, to.items, Listing(to.items));
    ExpectedIs(cfg, to, base, hist, Listing(to.items), own.serial);
  }

  /** A replay of what the journal answers, or without an answer the full zone. */
  lemma ExpectedIs(cfg: Config, st: Primary, base: nat, hist: seq<Delta>, page: seq<Entry>, own: uint32)
    requires Journalled(st, base, hist) && own < st.serial
    ensures var answer := if st.journal.None? then None else Journal.Since(st.journal.value, own);
            Expected(cfg, st, base, hist, page, own) ==
            if answer.None? then Full(PageRRs(cfg, page)) else Incremental(DiffsOf(answer.value))
  {
    if st.journal.Some? {
      Journal.WindowSince(st.journal.value, base, hist, own);
    }
  }

  lemma ReplyServes(cfg: Config, from: Primary, to: Primary, base: nat, hist: seq<Delta>,
                    req: TransferRequest, tail: seq<RR>)
    requires Journalled(to, base, hist) && cfg.enumerable && from.serial < to.serial && Asks(cfg, req, from.serial)
    ensures EndsAt(IxfrReply(cfg, to, Listing(to.items), req), Replica(from.serial, ZoneRRs(cfg, from.items)), tail,
                   Replica(to.serial, ZoneRRs(cfg, to.items)))
            <==> Rebuilds(cfg, from, to)
  {
    var reply := IxfrReply(cfg, to, Listing(to.items), req);
    ReplyReadsBack(cfg, to, base, hist, Listing(to.items), req, from.serial, tail);
    LeadsExactly(cfg, to, base, hist, Replica(from.serial, ZoneRRs(cfg, from.items)), Concat(reply.msgs) + tail, tail);
  }

  lemma SameServed(cfg: Config, st: Primary, base: nat, hist: seq<Delta>)
    requires Journalled(st, base, hist) && cfg.enumerable
    ensures Served(cfg, st, st) && Rebuilds(cfg, st, st)
  {
    var own := Replica(st.serial, ZoneRRs(cfg, st.items));
    forall req, tail | Asks(cfg, req, st.serial)
      ensures EndsAt(IxfrReply(cfg, st, Listing(st.items), req), own, tail, own)
    {
      ReplyReadsBack(cfg, st, base, hist, Listing(st.items), req, st.serial, tail);
    }
    if st.journal.Some? {
      JournalAnswers(st, base, hist, st.serial);
      assert hist[st.serial - base..] == [];
    }
  }

  /** Secondaries end right exactly when what the journal answers, if it answers, rebuilds the zone. */
  lemma ServedExactly(cfg: Config, from: Primary, to: Primary, base: nat, hist: seq<Delta>)
    requires Journalled(to, base, hist) && cfg.enumerable && (from.serial < to.serial || from == to)
    ensures Served(cfg, from, to) <==> Rebuilds(cfg, from, to)
  {
    if from == to {
      SameServed(cfg, to, base, hist);
    } else {
      var own, goal := Replica(from.serial, ZoneRRs(cfg, from.items)), Replica(to.serial, ZoneRRs(cfg, to.items));
      var plain := TransferRequest(cfg.zone, [Soa(cfg, from.serial)], true);
      assert Asks(cfg, plain, from.serial);
      ReplyServes(cfg, from, to, base, hist, plain, []);
      forall req, tail | Asks(cfg, req, from.serial)
        ensures EndsAt(IxfrReply(cfg, to, Listing(to.items), req), own, tail, goal) <==> Rebuilds(cfg, from, to)
      {
        ReplyServes(cfg, from, to, base, hist, req, tail);
      }
    }
  }

  /** A step that writes takes the serial one on; any other changes nothing. */
  predicate Ticks(st: Primary, st': Primary) {
    st' == st || st'.serial == Inc(st.serial)
  }

  lemma SerialStep(cfg: Config, st: Primary, a: Arrival, st': Primary)
    requires st' == Process(cfg, a.io, st, a.req).state
    ensures Ticks(st, st')
  {
  }

  lemma {:induction false} TicksRise(states: seq<Primary>, i: nat, j: nat)
    requires i <= j < |states| && states[0].serial + |states| <= MAX_UINT32 + 1
    requires forall m :: 0 <= m < |states| - 1 ==> Ticks(states[m], states[m + 1])
    ensures states[j].serial <= states[0].serial + j
    ensures states[i].serial < states[j].serial || states[i] == states[j]
    decreases j
  {
    if j > 0 {
      TicksRise(states, if i < j then i else j - 1, j - 1);
      var before := j - 1;
      assert Ticks(states[before], states[before + 1]);
    }
  }

  /** Along a run serials only rise, and equal serials mean equal states. */
  lemma SerialsRise(cfg: Config, st: Primary, arrivals: seq<Arrival>, i: nat, j: nat)
    requires i <= j <= |arrivals| && st.serial + |arrivals| <= MAX_UINT32
    ensures var states := States(cfg, st, arrivals);
            states[i].serial < states[j].serial || states[i] == states[j]
  {
    var states := States(cfg, st, arrivals);
    forall m | 0 <= m < |states| - 1
      ensures Ticks(states[m], states[m + 1])
    {
      StatesStep(cfg, st, arrivals, m);
      SerialStep(cfg, states[m], arrivals[m], states[m + 1]);
    }
    TicksRise(states, i, j);
  }

  lemma PairServed(cfg: Config, st: Primary, arrivals: seq<Arrival>, i: nat, j: nat)
    requires FreshStart(st) && st.serial + |arrivals| <= MAX_UINT32 && i <= j <= |arrivals| && cfg.enumerable
    ensures var states := States(cfg, st, arrivals);
            Served(cfg, states[i], states[j]) <==> Rebuilds(cfg, states[i], states[j])
  {
    SerialsRise(cfg, st, arrivals, i, j);
    StatesUpTo(cfg, st, arrivals, j);
    var hist := RunJournalled(cfg, st, arrivals[..j]);
    var states := States(cfg, st, arrivals);
    ServedExactly(cfg, states[i], states[j], st.serial, hist);
  }

  ghost predicate AllServed(cfg: Config, states: seq<Primary>) {
    forall i, j :: 0 <= i <= j < |states| ==> Served(cfg, states[i], states[j])
  }

  /** When secondaries are served right, for every run: a secondary holding the zone of any point of the run, asking
      at any later point, ends with the zone of that point, exactly when every step of the run is faithful. */
  lemma SecondariesExactly(cfg: Config, st: Primary, arrivals: seq<Arrival>)
    requires FreshStart(st) && st.journal.Some? && st.serial + |arrivals| < MAX_UINT32 && cfg.enumerable
    ensures AllServed(cfg, States(cfg, st, arrivals)) <==> FaithfulRun(cfg, st, arrivals)
  {
    ReplicationFaithfully(cfg, st, arrivals);
    var states := States(cfg, st, arrivals);
    forall i, j | 0 <= i <= j < |states|
      ensures Served(cfg, states[i], states[j]) <==> Rebuilds(cfg, states[i], states[j])
    {
      PairServed(cfg, st, arrivals, i, j);
    }
  }

  /** Without a journal every reply is a full transfer, and every secondary is served right. */
  lemma UnjournalledServed(cfg: Config, st: Primary, arrivals: seq<Arrival>)
    requires st.journal.None? && st.serial + |arrivals| <= MAX_UINT32 && cfg.enumerable
    ensures AllServed(cfg, States(cfg, st, arrivals))
  {
    var states := States(cfg, st, arrivals);
    forall i, j | 0 <= i <= j < |states|
      ensures Served(cfg, states[i], states[j])
    {
      PairServed(cfg, st, arrivals, i, j);
      StatesUpTo(cfg, st, arrivals, j);
      JournalStays(cfg, st, arrivals[..j]);
    }
  }
}
