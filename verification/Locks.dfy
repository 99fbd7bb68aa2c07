/** Insert-if-absent over whole runs: the prerequisite "name does not exist" with an insert, as a lock. */
module Locks {
  import opened Wrappers
  import opened Collections
  import opened Strings
  import opened Values
  import opened Dns
  import opened Names
  import opened Records
  import opened Store
  import opened Update
  import opened Replication
  import Journal

  predicate Succeeds(cfg: Config, st: Primary, a: Arrival) {
    Process(cfg, a.io, st, a.req).rcode == NOERROR
  }

  /** The name, or its TXT RRset, must not exist: the same thing for a server with one RRset a name. */
  predicate RequiresAbsent(cfg: Config, rr: SectionRR, key: Str) {
    && rr.rclass == CLASS_NONE && (rr.rtype == TYPE_ANY || rr.rtype == TYPE_TXT)
    && ParseKey(cfg.zone, ToLower(rr.name)) == Some(key)
  }

  /** The request asks for `key` not to exist and inserts it. */
  predicate Acquires(cfg: Config, req: Request, key: Str) {
    && (exists j :: 0 <= j < |req.prereqs| && RequiresAbsent(cfg, req.prereqs[j], key))
    && Targets(cfg, req, key)
    && Inserts(req)
  }

  /** The request has taken the lock on `key`. */
  predicate Acquired(cfg: Config, st: Primary, a: Arrival, key: Str) {
    Succeeds(cfg, st, a) && Acquires(cfg, a.req, key)
  }

  predicate Targets(cfg: Config, req: Request, key: Str) {
    && req.updates != []
    && forall i :: 0 <= i < |req.updates| ==> ParseKey(cfg.zone, ToLower(req.updates[i].name)) == Some(key)
  }

  /** The request succeeds on `key`. */
  predicate Lands(cfg: Config, st: Primary, a: Arrival, key: Str) {
    Succeeds(cfg, st, a) && Targets(cfg, a.req, key)
  }

  /** A successful request on `key` after which it reads as missing: a deletion, or the insertion of null. */
  predicate Releases(cfg: Config, st: Primary, a: Arrival, key: Str) {
    && Succeeds(cfg, st, a)
    && Targets(cfg, a.req, key)
    && var items := Process(cfg, a.io, st, a.req).state.items;
       if Inserts(a.req) then key in items && items[key] == NilItem else key !in items
  }

  lemma AbsenceChecked(cfg: Config, readFails: bool, items: map<Str, Item>, rr: SectionRR, key: Str)
    requires RequiresAbsent(cfg, rr, key) && CheckOne(cfg, readFails, items, rr) == NOERROR
    ensures Lookup(items, key) == NilItem
  {
  }

  lemma AcquireNeedsAbsence(cfg: Config, st: Primary, a: Arrival, key: Str)
    requires Succeeds(cfg, st, a) && Acquires(cfg, a.req, key)
    ensures Lookup(st.items, key) == NilItem
  {
    var _, _ := SuccessInverts(cfg, a.io, st, a.req);
    var codes := Codes(cfg, a.io, st.items, a.req.prereqs);
    NoFailure(codes);
    var j :| 0 <= j < |a.req.prereqs| && RequiresAbsent(cfg, a.req.prereqs[j], key);
    assert codes[j] == CheckOne(cfg, a.io.read(j), st.items, a.req.prereqs[j]);
    AbsenceChecked(cfg, a.io.read(j), st.items, a.req.prereqs[j], key);
  }

  /** A successful request changes only its target, and stores something there exactly when it inserts. */
  lemma SuccessIsTargeted(cfg: Config, st: Primary, a: Arrival, key: Str)
    requires Succeeds(cfg, st, a)
    ensures var st' := Process(cfg, a.io, st, a.req).state;
            && (Targets(cfg, a.req, key) ==> (key in st'.items <==> Inserts(a.req)))
            && (Lookup(st.items, key) != Lookup(st'.items, key) ==> Targets(cfg, a.req, key))
  {
    AllOrNothing(cfg, a.io, st, a.req);
    var st' := Process(cfg, a.io, st, a.req).state;
    if a.req.updates != [] {
      var target, inserts :| OneKeyWrite(cfg, st, st', a.req, target, inserts);
      assert ParseKey(cfg.zone, ToLower(a.req.updates[0].name)) == Some(target);
    }
  }

  lemma ReleaseStep(cfg: Config, st: Primary, a: Arrival, key: Str)
    requires Lookup(st.items, key) != NilItem && Lookup(Process(cfg, a.io, st, a.req).state.items, key) == NilItem
    ensures Releases(cfg, st, a, key)
  {
    AllOrNothing(cfg, a.io, st, a.req);
    SuccessIsTargeted(cfg, st, a, key);
  }

  /** If `key` is present at one point of a run and missing at a later one, some step in between dropped it. */
  lemma {:induction false} DropBetween(states: seq<Primary>, i: nat, j: nat, key: Str) returns (m: nat)
    requires i <= j < |states| && Lookup(states[i].items, key) != NilItem && Lookup(states[j].items, key) == NilItem
    ensures i <= m < j && Lookup(states[m].items, key) != NilItem && Lookup(states[m + 1].items, key) == NilItem
    decreases j - i
  {
    if Lookup(states[j - 1].items, key) == NilItem {
      m := DropBetween(states, i, j - 1, key);
    } else {
      m := j - 1;
    }
  }

  /** The lock, over any run: between two successful acquisitions of a key the key was released,
      by a later request or by the first acquisition itself, which then inserted null. */
  lemma LockHolds(cfg: Config, st: Primary, arrivals: seq<Arrival>, i: nat, j: nat, key: Str) returns (m: nat)
    requires i < j < |arrivals|
    requires Acquired(cfg, States(cfg, st, arrivals)[i], arrivals[i], key)
    requires Acquired(cfg, States(cfg, st, arrivals)[j], arrivals[j], key)
    ensures i <= m < j && Releases(cfg, States(cfg, st, arrivals)[m], arrivals[m], key)
  {
    var states := States(cfg, st, arrivals);
    AcquireNeedsAbsence(cfg, states[j], arrivals[j], key);
    StatesStep(cfg, st, arrivals, i);
    SuccessIsTargeted(cfg, states[i], arrivals[i], key);
    if Lookup(states[i + 1].items, key) == NilItem {
      m := i;
    } else {
      m := DropBetween(states, i + 1, j, key);
      StatesStep(cfg, st, arrivals, m);
      ReleaseStep(cfg, states[m], arrivals[m], key);
    }
  }

  /** The request deletes `key` and does not put it back. */
  predicate Deletes(cfg: Config, req: Request, key: Str) {
    Targets(cfg, req, key) && !Inserts(req)
  }

  /** The lock on `key` is taken. */
  predicate Held(st: Primary, key: Str) {
    Lookup(st.items, key) != NilItem
  }

  /** The request inserts, and the insert that is stored decodes to an item that is not null. */
  predicate KeepsHeld(cfg: Config, req: Request) {
    var changes := ChangesOf(cfg, req.updates);
    && InsertOwners(changes) != []
    && var w := WriteOf(cfg, changes, InsertOwners(changes)[0]);
       w.Ok? && w.value.item != NilItem
  }

  /** A request that lands on `key` leaves it held exactly when the request keeps it held. */
  lemma LandsExactly(cfg: Config, st: Primary, a: Arrival, st': Primary, key: Str)
    requires Lands(cfg, st, a, key) && st' == Process(cfg, a.io, st, a.req).state
    ensures Held(st', key) <==> KeepsHeld(cfg, a.req)
  {
    var changes := ChangesOf(cfg, a.req.updates);
    var target, inserts := SuccessInverts(cfg, a.io, st, a.req);
    assert ParseKey(cfg.zone, ToLower(a.req.updates[0].name)) == Some(target);
    if InsertOwners(changes) != [] {
      FirstWrite(cfg, changes, inserts);
    } else {
      assert inserts == [];
    }
  }

  lemma DropLands(cfg: Config, st: Primary, a: Arrival, st': Primary, key: Str)
    requires st' == Process(cfg, a.io, st, a.req).state && Held(st, key) && !Held(st', key)
    ensures Lands(cfg, st, a, key) && !KeepsHeld(cfg, a.req)
  {
    ReleaseStep(cfg, st, a, key);
    LandsExactly(cfg, st, a, st', key);
  }

  /** If it lands on `key`, the request keeps it held. */
  predicate Keeps(cfg: Config, st: Primary, a: Arrival, key: Str) {
    Lands(cfg, st, a, key) ==> KeepsHeld(cfg, a.req)
  }

  /** A step leaves a held key held exactly when it keeps it, and so does an acquisition. */
  lemma KeepsExactly(cfg: Config, st: Primary, a: Arrival, st': Primary, key: Str)
    requires st' == Process(cfg, a.io, st, a.req).state && (Held(st, key) || Acquired(cfg, st, a, key))
    ensures Held(st', key) <==> Keeps(cfg, st, a, key)
  {
    if Lands(cfg, st, a, key) {
      LandsExactly(cfg, st, a, st', key);
    } else if !Held(st', key) {
      DropLands(cfg, st, a, st', key);
    }
  }

  /** Every step from the i-th up to the j-th state. */
  predicate Between(p: (Primary, Arrival) -> bool, states: seq<Primary>, arrivals: seq<Arrival>, i: nat, j: nat)
    requires i <= j <= |arrivals| && |states| == |arrivals| + 1
  {
    forall k | i <= k < j :: p(states[k], arrivals[k])
  }

  function Keeping(cfg: Config, key: Str): (Primary, Arrival) -> bool {
    (st, a) => Keeps(cfg, st, a, key)
  }

  lemma {:induction false} HeldThrough(p: (Primary, Arrival) -> bool, states: seq<Primary>, arrivals: seq<Arrival>,
                                       i: nat, j: nat, key: Str)
    requires i < j <= |arrivals| && |states| == |arrivals| + 1
    requires forall k | i <= k < j && (k == i || Held(states[k], key)) ::
               Held(states[k + 1], key) <==> p(states[k], arrivals[k])
    ensures (forall n | i < n <= j :: Held(states[n], key)) <==> Between(p, states, arrivals, i, j)
    decreases j
  {
    var last := j - 1;
    assert last == i || Held(states[last], key) ==> (Held(states[last + 1], key) <==> p(states[last], arrivals[last]));
    if i < last {
      HeldThrough(p, states, arrivals, i, last, key);
    }
  }

  /** Exactly how long a lock holds, over any run: through every state up to `j` if and only if every request that
      lands on the key meanwhile, its acquisition included, keeps it held. */
  lemma LockHoldsExactly(cfg: Config, st: Primary, arrivals: seq<Arrival>, i: nat, j: nat, key: Str)
    requires i < j <= |arrivals| && Acquired(cfg, States(cfg, st, arrivals)[i], arrivals[i], key)
    ensures (forall n | i < n <= j :: Held(States(cfg, st, arrivals)[n], key)) <==>
            Between(Keeping(cfg, key), States(cfg, st, arrivals), arrivals, i, j)
  {
    var states := States(cfg, st, arrivals);
    forall k | i <= k < j && (k == i || Held(states[k], key))
      ensures Held(states[k + 1], key) <==> Keeping(cfg, key)(states[k], arrivals[k])
    {
      StatesStep(cfg, st, arrivals, k);
      KeepsExactly(cfg, states[k], arrivals[k], states[k + 1], key);
    }
    HeldThrough(Keeping(cfg, key), states, arrivals, i, j, key);
  }

  /** While a lock holds nobody acquires it. */
  lemma HeldExcludes(cfg: Config, st: Primary, a: Arrival, key: Str)
    requires Held(st, key)
    ensures !Acquired(cfg, st, a, key)
  {
    if Acquired(cfg, st, a, key) {
      AcquireNeedsAbsence(cfg, st, a, key);
    }
  }

  /** The request does not store null. */
  predicate NoNull(cfg: Config, req: Request) {
    InsertOwners(ChangesOf(cfg, req.updates)) == [] || KeepsHeld(cfg, req)
  }

  lemma DropIsDeletion(cfg: Config, st: Primary, a: Arrival, key: Str)
    requires Lands(cfg, st, a, key) && LandsWithoutNull(cfg, st, a, key) && !KeepsHeld(cfg, a.req)
    ensures Succeeds(cfg, st, a) && Deletes(cfg, a.req, key)
  {
    var target, inserts := SuccessInverts(cfg, a.io, st, a.req);
    assert inserts == [];
  }

  /** If it lands on `key`, the request does not store null there. */
  predicate LandsWithoutNull(cfg: Config, st: Primary, a: Arrival, key: Str) {
    Lands(cfg, st, a, key) ==> NoNull(cfg, a.req)
  }

  function Sparing(cfg: Config, key: Str): (Primary, Arrival) -> bool {
    (st, a) => LandsWithoutNull(cfg, st, a, key)
  }

  /** A lock lost without a null has been lost to a later deletion. */
  lemma LostToDeletion(cfg: Config, st: Primary, arrivals: seq<Arrival>, i: nat, j: nat, key: Str) returns (m: nat)
    requires i < j <= |arrivals| && Acquired(cfg, States(cfg, st, arrivals)[i], arrivals[i], key)
    requires Between(Sparing(cfg, key), States(cfg, st, arrivals), arrivals, i, j)
    requires !Held(States(cfg, st, arrivals)[j], key)
    ensures i < m < j && Succeeds(cfg, States(cfg, st, arrivals)[m], arrivals[m]) && Deletes(cfg, arrivals[m].req, key)
  {
    m := LockLost(cfg, st, arrivals, i, j, key);
    SparingAt(cfg, key, States(cfg, st, arrivals), arrivals, i, j, m);
    DropIsDeletion(cfg, States(cfg, st, arrivals)[m], arrivals[m], key);
    AcquisitionInserts(cfg, States(cfg, st, arrivals)[i], arrivals[i], key);
    NotBoth(cfg, arrivals, i, m, key);
  }

  lemma SparingAt(cfg: Config, key: Str, states: seq<Primary>, arrivals: seq<Arrival>, i: nat, j: nat, m: nat)
    requires i <= m < j <= |arrivals| && |states| == |arrivals| + 1
    requires Between(Sparing(cfg, key), states, arrivals, i, j)
    ensures LandsWithoutNull(cfg, states[m], arrivals[m], key)
  {
    assert Sparing(cfg, key)(states[m], arrivals[m]);
  }

  lemma NotBoth(cfg: Config, arrivals: seq<Arrival>, i: nat, m: nat, key: Str)
    requires i < |arrivals| && m < |arrivals| && Inserts(arrivals[i].req) && Deletes(cfg, arrivals[m].req, key)
    ensures i != m
  {
  }

  /** When no request that lands on the key meanwhile stores null, the release is a later deletion of the key. */
  lemma LockHoldsWithoutNull(cfg: Config, st: Primary, arrivals: seq<Arrival>, i: nat, j: nat,
                             key: Str) returns (m: nat)
    requires i < j < |arrivals|
    requires Acquired(cfg, States(cfg, st, arrivals)[i], arrivals[i], key)
    requires Acquired(cfg, States(cfg, st, arrivals)[j], arrivals[j], key)
    requires Between(Sparing(cfg, key), States(cfg, st, arrivals), arrivals, i, j)
    ensures i < m < j && Succeeds(cfg, States(cfg, st, arrivals)[m], arrivals[m]) && Deletes(cfg, arrivals[m].req, key)
  {
    AcquireNeedsAbsence(cfg, States(cfg, st, arrivals)[j], arrivals[j], key);
    m := LostToDeletion(cfg, st, arrivals, i, j, key);
  }

  lemma AcquisitionInserts(cfg: Config, st: Primary, a: Arrival, key: Str)
    requires Acquired(cfg, st, a, key)
    ensures Inserts(a.req)
  {
  }

  lemma LockLost(cfg: Config, st: Primary, arrivals: seq<Arrival>, i: nat, j: nat, key: Str) returns (m: nat)
    requires i < j <= |arrivals| && Acquired(cfg, States(cfg, st, arrivals)[i], arrivals[i], key)
    requires !Held(States(cfg, st, arrivals)[j], key)
    ensures i <= m < j && Lands(cfg, States(cfg, st, arrivals)[m], arrivals[m], key)
    ensures !KeepsHeld(cfg, arrivals[m].req)
  {
    LockHoldsExactly(cfg, st, arrivals, i, j, key);
    m :| i <= m < j && !Keeping(cfg, key)(States(cfg, st, arrivals)[m], arrivals[m]);
  }
}
