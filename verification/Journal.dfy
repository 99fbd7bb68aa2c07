/** The capped in-memory IXFR journal: journal.go, over true 32-bit serials. */
module Journal {
  import opened Wrappers
  import opened Collections
  import opened Dns

  const CAP := 4096
  const SERIALS := 0x1_0000_0000

  /** The journal's fields as a value. */
  datatype Log = Log(oldest: uint32, latest: uint32, deltas: map<uint32, Delta>, started: bool)

  function Fresh(start: uint32): Log {
    Log(Inc(start), start, map[], false)
  }

  /** Drop serials from `oldest` upward, wrapping, until the cap is met. At most `n` serials are visited;
      PruneMeetsCap shows that visiting all of them is always enough. */
  function Prune(deltas: map<uint32, Delta>, oldest: uint32, n: nat): (map<uint32, Delta>, uint32)
    decreases n, oldest
  {
    if |deltas| <= CAP || n == 0 then (deltas, oldest)
    else Prune(Delete(deltas, oldest), Inc(oldest), n - 1)
  }

  /** The number of serials from `oldest` up to the one just before it. */
  function OnceAround(oldest: uint32): (n: nat)
    ensures n == SERIALS
  {
    Offset(oldest, Dec(oldest)) + 1
  }

  function RecordIn(log: Log, d: Delta): Log {
    var oldest := if !log.started && log.oldest == 0 then d.serial else log.oldest;
    var pruned := Prune(log.deltas[d.serial := d], oldest, OnceAround(oldest));
    Log(pruned.1, if d.serial > log.latest then d.serial else log.latest, pruned.0, true)
  }

  /** The answer to "everything newer than since". At latest == 2^32 - 1 there is none: the walk never ends by
      itself. */
  function Since(log: Log, since: uint32): Option<seq<Delta>> {
    if since > log.latest || since < Dec(log.oldest) || log.latest == MAX_UINT32 then None
    else if forall s: uint32 | since < s <= log.latest :: s in log.deltas
    then Some(seq(log.latest - since, i requires 0 <= i < log.latest - since => log.deltas[since + 1 + i]))
    else None
  }

  /** How many increments lead from a to k, wrapping. */
  function Offset(a: uint32, k: uint32): nat {
    if k >= a then k - a else k - a + SERIALS
  }

  /** Every entry is among the next n serials from `oldest`. */
  ghost predicate Within(deltas: map<uint32, Delta>, oldest: uint32, n: nat) {
    forall k :: k in deltas ==> Offset(oldest, k) < n
  }

  lemma OffsetStep(deltas: map<uint32, Delta>, oldest: uint32, n: nat)
    requires Within(deltas, oldest, n) && |deltas| > CAP
    ensures n > 0 && Within(Delete(deltas, oldest), Inc(oldest), n - 1)
  {
    var k :| k in deltas;
    assert Offset(oldest, k) < n;
  }

  lemma {:induction false} PruneMeetsCap(deltas: map<uint32, Delta>, oldest: uint32, n: nat)
    requires Within(deltas, oldest, n)
    ensures |Prune(deltas, oldest, n).0| <= CAP
    decreases n
  {
    if |deltas| > CAP && n > 0 {
      OffsetStep(deltas, oldest, n);
      PruneMeetsCap(Delete(deltas, oldest), Inc(oldest), n - 1);
    } else if n == 0 {
      assert deltas == map[];
    }
  }

  lemma {:induction false} PruneKeepsEntries(deltas: map<uint32, Delta>, oldest: uint32, n: nat)
    ensures var p := Prune(deltas, oldest, n).0;
            p.Keys <= deltas.Keys && forall k :: k in p ==> p[k] == deltas[k]
    decreases n
  {
    if |deltas| > CAP && n > 0 {
      PruneKeepsEntries(Delete(deltas, oldest), Inc(oldest), n - 1);
    }
  }

  lemma SubsetSize(a: set<uint32>, b: set<uint32>)
    requires a <= b
    ensures |a| <= |b|
  {
    assert b == a + (b - a);
  }

  lemma WalkIsAnswer(log: Log, since: uint32, out: seq<Delta>)
    requires Dec(log.oldest) <= since <= log.latest < MAX_UINT32 && |out| == log.latest - since
    requires forall k: uint32 :: since < k <= log.latest ==> k in log.deltas && out[k - since - 1] == log.deltas[k]
    ensures Since(log, since) == Some(out)
  {
    forall i | 0 <= i < |out|
      ensures out[i] == log.deltas[since + 1 + i]
    {
      var k: uint32 := since + 1 + i;
      assert out[k - since - 1] == log.deltas[k];
    }
    assert out == Since(log, since).value;
  }

  class MemChangeLog {
    var oldest: uint32
    var latest: uint32
    var deltas: map<uint32, Delta>
    var started: bool

    ghost function Contents(): Log
      reads this
    {
      Log(oldest, latest, deltas, started)
    }

    /** The cap that Record maintains; the walk in Deltas terminates because of it. */
    ghost predicate Valid()
      reads this
    {
      |deltas| <= CAP
    }

    constructor (start: uint32)
      ensures Valid() && Contents() == Fresh(start)
    {
      oldest, latest, deltas, started := Inc(start), start, map[], false;
    }

    method Record(serial: uint32, removed: seq<RR>, added: seq<RR>)
      modifies this
      ensures Valid()
      ensures Contents() == RecordIn(old(Contents()), Delta(serial, removed, added))
    {
      if !started {
        if oldest == 0 {
          oldest := serial;
        }
        started := true;
      }
      deltas := deltas[serial := Delta(serial, removed, added)];
      if serial > latest {
        latest := serial;
      }
      PruneToCap();
    }

    /** The loop at the end of Record. */
    method PruneToCap()
      modifies `deltas, `oldest
      ensures Valid()
      ensures (deltas, oldest) == old(Prune(deltas, oldest, OnceAround(oldest)))
    {
      ghost var n := OnceAround(oldest);
      ghost var goal := Prune(deltas, oldest, n);
      while |deltas| > CAP
        invariant Prune(deltas, oldest, n) == goal
        invariant Within(deltas, oldest, n)
        decreases n
      {
        OffsetStep(deltas, oldest, n);
        deltas := Delete(deltas, oldest);
        oldest := Inc(oldest);
        n := n - 1;
      }
    }

    /** Answers Since, and looks up at most CAP + 1 serials even where the loop guard can never become false. */
    method Deltas(since: uint32) returns (r: Option<seq<Delta>>, ghost lookups: nat)
      requires Valid()
      ensures r == Since(Contents(), since)
      ensures lookups <= CAP + 1
    {
      lookups := 0;
      if since > latest || since < Dec(oldest) {
        return None, lookups;
      }
      var out: seq<Delta> := [];
      var s: uint32 := Inc(since);
      ghost var seen: set<uint32> := {};
      while s <= latest
        invariant |seen| == |out| == lookups <= CAP && seen <= deltas.Keys
        invariant Offset(Inc(since), s) == |out| && forall k: uint32 :: k in seen ==> Offset(Inc(since), k) < |out|
        invariant latest < MAX_UINT32 ==> s == since + 1 + |out| <= latest + 1
        invariant latest < MAX_UINT32 ==>
                    forall k: uint32 :: since < k < s ==> k in deltas && out[k - since - 1] == deltas[k]
        decreases CAP + 1 - |out|
      {
        lookups := lookups + 1;
        if s !in deltas {
          return None, lookups;
        }
        out := out + [deltas[s]];
        seen := seen + {s};
        SubsetSize(seen, deltas.Keys);
        s := Inc(s);
      }
      WalkIsAnswer(Contents(), since, out);
      r := Some(out);
    }
  }

  // ---------- refinement of an unbounded log ----------

  function Dropped(hist: seq<Delta>): nat {
    if |hist| > CAP then |hist| - CAP else 0
  }

  predicate Consecutive(base: nat, hist: seq<Delta>) {
    forall i :: 0 <= i < |hist| ==> hist[i].serial == base + 1 + i
  }

  /** The journal holds exactly the last CAP entries of the full log `hist` that began after serial `base`. */
  ghost predicate Window(log: Log, base: nat, hist: seq<Delta>) {
    && base + |hist| <= MAX_UINT32
    && log.latest == base + |hist|
    && log.oldest == Inc(base + Dropped(hist))
    && |log.deltas| == |hist| - Dropped(hist)
    && (forall k: uint32 :: k in log.deltas <==> base + Dropped(hist) < k <= base + |hist|)
    && (forall k: uint32 :: k in log.deltas ==> log.deltas[k] == hist[k - base - 1])
  }

  lemma FreshWindow(base: uint32)
    ensures Window(Fresh(base), base, [])
  {
  }

  lemma WindowRecord(log: Log, base: nat, hist: seq<Delta>, d: Delta)
    requires Window(log, base, hist) && d.serial == base + |hist| + 1
    ensures Window(RecordIn(log, d), base, hist + [d])
  {
    var all := log.deltas[d.serial := d];
    assert |all| == |log.deltas| + 1;
    if |hist| >= CAP {
      var rest := Delete(all, log.oldest);
      assert rest.Keys == all.Keys - {log.oldest};
      assert |rest| == |rest.Keys| == |all.Keys| - 1;
      var n := OnceAround(log.oldest);
      assert Prune(rest, Inc(log.oldest), n - 1) == (rest, Inc(log.oldest));
      assert Prune(all, log.oldest, n) == (rest, Inc(log.oldest));
    }
  }

  lemma WindowSince(log: Log, base: nat, hist: seq<Delta>, since: uint32)
    requires Window(log, base, hist)
    ensures Since(log, since) ==
            if base + Dropped(hist) <= since <= base + |hist| < MAX_UINT32 then Some(hist[since - base..]) else None
  {
    if base + Dropped(hist) <= since <= base + |hist| < MAX_UINT32 {
      assert Since(log, since).value == hist[since - base..];
    }
  }

  function RecordAll(log: Log, hist: seq<Delta>): Log {
    if hist == [] then log else RecordIn(RecordAll(log, hist[..|hist| - 1]), hist[|hist| - 1])
  }

  lemma {:induction false} RecordAllWindow(base: uint32, hist: seq<Delta>)
    requires base + |hist| <= MAX_UINT32 && Consecutive(base, hist)
    ensures Window(RecordAll(Fresh(base), hist), base, hist)
  {
    if hist == [] {
      FreshWindow(base);
    } else {
      var init, d := hist[..|hist| - 1], hist[|hist| - 1];
      RecordAllWindow(base, init);
      var log := RecordAll(Fresh(base), init);
      assert init + [d] == hist && RecordAll(Fresh(base), hist) == RecordIn(log, d);
      WindowRecord(log, base, init, d);
    }
  }

  /** The capped journal refines an unbounded log: a client's serial is answered exactly when it lies in the
      window (and the last serial has not been reached), and the answer is that suffix of the full log. */
  lemma JournalRefinesLog(base: uint32, hist: seq<Delta>, since: uint32)
    requires base + |hist| <= MAX_UINT32 && Consecutive(base, hist)
    ensures var log := RecordAll(Fresh(base), hist);
            && |log.deltas| <= CAP
            && (forall k: uint32 :: k in log.deltas <==> base + Dropped(hist) < k <= base + |hist|)
            && Since(log, since) ==
               if base + Dropped(hist) <= since <= base + |hist| < MAX_UINT32 then Some(hist[since - base..]) else None
  {
    RecordAllWindow(base, hist);
    WindowSince(RecordAll(Fresh(base), hist), base, hist, since);
  }

  // ---------- writers that draw and record in any order ----------

  /** A writer draws the next serial for its records, or the i-th writer to draw records its delta. */
  datatype Event = Draw(removed: seq<RR>, added: seq<RR>) | Commit(i: nat)

  /** The serials drawn so far with what their writers will record, the serials recorded, and the journal. */
  datatype Race = Race(tickets: seq<Delta>, done: set<uint32>, log: Log)

  function Step(base: uint32, r: Race, e: Event): Race {
    match e
    case Draw(removed, added) =>
      r.(tickets := r.tickets + [Delta((base + 1 + |r.tickets|) % SERIALS, removed, added)])
    case Commit(i) =>
      if i < |r.tickets| && r.tickets[i].serial !in r.done
      then r.(done := r.done + {r.tickets[i].serial}, log := RecordIn(r.log, r.tickets[i]))
      else r
  }

  function Interleave(base: uint32, events: seq<Event>): Race {
    if events == [] then Race([], {}, Fresh(base))
    else Step(base, Interleave(base, events[..|events| - 1]), events[|events| - 1])
  }

  /** Every entry is the delta of the writer that drew its serial, and nothing recorded is past `latest`. */
  ghost predicate Sound(base: nat, r: Race) {
    && Consecutive(base, r.tickets)
    && base <= r.log.latest <= base + |r.tickets|
    && (forall k :: k in r.done ==> base < k <= r.log.latest)
    && (forall k :: k in r.log.deltas ==> k in r.done && r.log.deltas[k] == r.tickets[k - base - 1])
  }

  lemma {:induction false} BoundedKeys(base: nat, n: nat, keys: set<uint32>)
    requires forall k :: k in keys ==> base < k <= base + n
    ensures |keys| <= n
  {
    if n == 0 {
      assert keys == {};
    } else {
      var rest := set k | k in keys && k != base + n;
      BoundedKeys(base, n - 1, rest);
      if base + n <= MAX_UINT32 {
        var top: uint32 := base + n;
        assert keys <= rest + {top};
        SubsetSize(keys, rest + {top});
      } else {
        assert keys == rest;
      }
    }
  }

  lemma CommitSound(base: uint32, r: Race, i: nat)
    requires Sound(base, r) && i < |r.tickets| && r.tickets[i].serial !in r.done && base + |r.tickets| <= MAX_UINT32
    ensures Sound(base, Step(base, r, Commit(i)))
  {
    var d := r.tickets[i];
    var oldest := if !r.log.started && r.log.oldest == 0 then d.serial else r.log.oldest;
    PruneKeepsEntries(r.log.deltas[d.serial := d], oldest, OnceAround(oldest));
  }

  lemma {:induction false} InterleaveInv(base: uint32, events: seq<Event>)
    requires base + |events| <= MAX_UINT32
    ensures var r := Interleave(base, events);
            |r.tickets| <= |events| && Sound(base, r)
  {
    if events != [] {
      var init, e := events[..|events| - 1], events[|events| - 1];
      InterleaveInv(base, init);
      var r := Interleave(base, init);
      if e.Commit? && e.i < |r.tickets| && r.tickets[e.i].serial !in r.done {
        CommitSound(base, r, e.i);
      }
    }
  }

  lemma AnswerCovers(log: Log, since: uint32, k: uint32)
    requires Since(log, since).Some? && since < k <= log.latest
    ensures k in log.deltas && Since(log, since).value[k - since - 1] == log.deltas[k]
  {
  }

  lemma SoundAnswer(base: uint32, r: Race, since: uint32)
    requires Sound(base, r) && Since(r.log, since).Some?
    ensures base <= since <= r.log.latest
    ensures Since(r.log, since).value == r.tickets[since - base..r.log.latest - base]
    ensures forall k: uint32 :: since < k <= r.log.latest ==> k in r.done
  {
    if since < base {
      AnswerCovers(r.log, since, since + 1);
    }
    var answer := Since(r.log, since).value;
    forall i | since - base <= i < r.log.latest - base
      ensures answer[i - (since - base)] == r.tickets[i]
    {
      AnswerCovers(r.log, since, base + 1 + i);
    }
  }

  /** Whatever the interleaving: an answer holds one delta for each of since+1..latest, in order, each the
      one recorded by the writer that drew that serial. */
  lemma InterleavedSound(base: uint32, events: seq<Event>, since: uint32)
    requires base + |events| <= MAX_UINT32
    ensures var r := Interleave(base, events);
            var answer := Since(r.log, since);
            answer.Some? ==>
              && base <= since <= r.log.latest <= base + |r.tickets|
              && answer.value == r.tickets[since - base..r.log.latest - base]
              && Consecutive(since, answer.value)
              && (forall k: uint32 :: since < k <= r.log.latest ==> k in r.done)
  {
    InterleaveInv(base, events);
    var r := Interleave(base, events);
    if Since(r.log, since).Some? {
      SoundAnswer(base, r, since);
    }
  }

  // ---------- records that come late ----------

  predicate Records(r: Race, e: Event) {
    e.Commit? && e.i < |r.tickets| && r.tickets[e.i].serial !in r.done
  }

  /** A record whose serial the journal has already pruned past. */
  predicate Late(r: Race, e: Event) {
    Records(r, e) && r.tickets[e.i].serial < r.log.oldest
  }

  function LateRecords(base: uint32, events: seq<Event>): nat {
    if events == [] then 0
    else
      var init, e := events[..|events| - 1], events[|events| - 1];
      LateRecords(base, init) + if Late(Interleave(base, init), e) then 1 else 0
  }

  /** The entries pruning cannot reach without going round all serials. */
  ghost function Below(deltas: map<uint32, Delta>, oldest: uint32): set<uint32> {
    set k | k in deltas && k < oldest
  }

  /** The cap holds, nothing recorded is missing from `oldest` on, `late` entries are below it, and once it has moved
      the journal is full. */
  ghost predicate Settled(base: nat, log: Log, done: set<uint32>, late: nat) {
    && base < log.oldest
    && (log.started <==> done != {})
    && |Below(log.deltas, log.oldest)| == late
    && |log.deltas| <= CAP
    && (forall k :: k in done && k >= log.oldest ==> k in log.deltas)
    && (log.oldest > base + 1 ==>
          |log.deltas| == CAP && log.oldest - 1 in done && log.oldest - 1 !in log.deltas)
  }

  /** Serials drawn so far and recorded; every entry is one of them. */
  ghost predicate Among(base: nat, log: Log, done: set<uint32>, n: nat) {
    (forall k :: k in done ==> base < k <= base + n) && log.deltas.Keys <= done
  }

  /** One entry too many: pruning removes the first one it meets, counting round from `oldest`. */
  lemma {:induction false} PruneOne(deltas: map<uint32, Delta>, oldest: uint32, e: uint32, n: nat)
    requires |deltas| == CAP + 1 && e in deltas && n > Offset(oldest, e)
    requires forall k :: k in deltas ==> Offset(oldest, e) <= Offset(oldest, k)
    ensures Prune(deltas, oldest, n) == (Delete(deltas, e), Inc(e))
    decreases n
  {
    if oldest == e {
      var rest := Delete(deltas, e);
      assert rest.Keys == deltas.Keys - {e};
      assert |rest| == |rest.Keys| && |deltas| == |deltas.Keys|;
    } else {
      assert oldest !in deltas;
      assert Delete(deltas, oldest) == deltas;
      PruneOne(deltas, Inc(oldest), e, n - 1);
    }
  }

  lemma {:induction false} FirstMet(keys: set<uint32>, oldest: uint32) returns (e: uint32)
    requires keys != {}
    ensures e in keys && forall k :: k in keys ==> Offset(oldest, e) <= Offset(oldest, k)
  {
    var x :| x in keys;
    var rest := keys - {x};
    e := x;
    if rest == {} {
      assert keys == {x};
    } else {
      var y := FirstMet(rest, oldest);
      e := if Offset(oldest, x) <= Offset(oldest, y) then x else y;
      assert forall k :: k in keys ==> k == x || k in rest;
    }
  }

  /** Recording in a full journal evicts the first entry met from `oldest` on. */
  lemma FullRecord(log: Log, d: Delta) returns (e: uint32)
    requires |log.deltas| == CAP && d.serial !in log.deltas && log.oldest > 0
    ensures var all := log.deltas[d.serial := d];
            && e in all
            && (forall k :: k in all ==> Offset(log.oldest, e) <= Offset(log.oldest, k))
            && var latest := if d.serial > log.latest then d.serial else log.latest;
               RecordIn(log, d) == Log(Inc(e), latest, Delete(all, e), true)
  {
    var all := log.deltas[d.serial := d];
    assert all.Keys == log.deltas.Keys + {d.serial};
    assert |all| == |all.Keys| && |log.deltas| == |log.deltas.Keys|;
    e := FirstMet(all.Keys, log.oldest);
    PruneOne(all, log.oldest, e, OnceAround(log.oldest));
  }

  lemma BelowGrows(deltas: map<uint32, Delta>, oldest: uint32, d: Delta)
    requires d.serial !in deltas
    ensures var all := deltas[d.serial := d];
            |Below(all, oldest)| == |Below(deltas, oldest)| + if d.serial < oldest then 1 else 0
  {
    var all := deltas[d.serial := d];
    assert Below(all, oldest) == Below(deltas, oldest) + if d.serial < oldest then {d.serial} else {};
  }

  /** With fewer entries below `oldest` than in all, the first one met is not below it. */
  lemma FirstNotBelow(all: map<uint32, Delta>, oldest: uint32, e: uint32)
    requires |Below(all, oldest)| < |all| && e in all
    requires forall k :: k in all ==> Offset(oldest, e) <= Offset(oldest, k)
    ensures e >= oldest
  {
    assert |all| == |all.Keys| && Below(all, oldest) <= all.Keys;
    assert Below(all, oldest) != all.Keys;
    assert exists k :: k in all && k >= oldest;
  }

  lemma Evicted(all: map<uint32, Delta>, oldest: uint32, e: uint32)
    requires e in all && oldest <= e < MAX_UINT32
    requires forall k :: k in all ==> Offset(oldest, e) <= Offset(oldest, k)
    ensures var rest := Delete(all, e); |rest| == |all| - 1 && Below(rest, e + 1) == Below(all, oldest)
  {
    var rest := Delete(all, e);
    assert rest.Keys == all.Keys - {e};
    assert |rest| == |rest.Keys| && |all| == |all.Keys|;
  }

  lemma OneMore(deltas: map<uint32, Delta>, d: Delta)
    requires d.serial !in deltas
    ensures |deltas[d.serial := d]| == |deltas| + 1
  {
    var all := deltas[d.serial := d];
    assert all.Keys == deltas.Keys + {d.serial};
    assert |all| == |all.Keys| && |deltas| == |deltas.Keys|;
  }

  function LateOne(log: Log, d: Delta): nat {
    if d.serial < log.oldest then 1 else 0
  }

  lemma RoomyRecord(base: uint32, log: Log, done: set<uint32>, n: nat, late: nat, d: Delta)
    requires Settled(base, log, done, late) && Among(base, log, done, n) && base + n < MAX_UINT32
    requires base < d.serial && d.serial !in done && |log.deltas| < CAP
    ensures Settled(base, RecordIn(log, d), done + {d.serial}, late + LateOne(log, d))
  {
    OneMore(log.deltas, d);
    BelowGrows(log.deltas, log.oldest, d);
    assert RecordIn(log, d).deltas == log.deltas[d.serial := d];
  }

  lemma CrowdedRecord(base: uint32, log: Log, done: set<uint32>, n: nat, late: nat, d: Delta)
    requires Settled(base, log, done, late) && Among(base, log, done, n) && base + n < MAX_UINT32
    requires base < d.serial <= base + n && d.serial !in done && |log.deltas| == CAP && late + LateOne(log, d) <= CAP
    ensures Settled(base, RecordIn(log, d), done + {d.serial}, late + LateOne(log, d))
  {
    var all := log.deltas[d.serial := d];
    OneMore(log.deltas, d);
    BelowGrows(log.deltas, log.oldest, d);
    var e := FullRecord(log, d);
    FirstNotBelow(all, log.oldest, e);
    assert e in done + {d.serial};
    Evicted(all, log.oldest, e);
  }

  lemma SettledStep(base: uint32, r: Race, e: Event, late: nat)
    requires Sound(base, r) && Settled(base, r.log, r.done, late) && base + |r.tickets| < MAX_UINT32
    requires late + (if Late(r, e) then 1 else 0) <= CAP
    ensures Settled(base, Step(base, r, e).log, Step(base, r, e).done, late + if Late(r, e) then 1 else 0)
  {
    if Records(r, e) {
      assert Among(base, r.log, r.done, |r.tickets|);
      if |r.log.deltas| < CAP {
        RoomyRecord(base, r.log, r.done, |r.tickets|, late, r.tickets[e.i]);
      } else {
        CrowdedRecord(base, r.log, r.done, |r.tickets|, late, r.tickets[e.i]);
      }
    }
  }

  lemma {:induction false} SettledInv(base: uint32, events: seq<Event>)
    requires base + |events| < MAX_UINT32 && LateRecords(base, events) <= CAP
    ensures var r := Interleave(base, events); Settled(base, r.log, r.done, LateRecords(base, events))
  {
    if events != [] {
      var init := events[..|events| - 1];
      SettledInv(base, init);
      InterleaveInv(base, init);
      SettledStep(base, Interleave(base, init), events[|events| - 1], LateRecords(base, init));
    } else {
      assert Below(map[], Inc(base)) == {};
    }
  }

  lemma {:induction false} RangeSize(a: nat, n: nat, keys: set<uint32>)
    requires a + n <= MAX_UINT32 && forall k: uint32 :: k in keys <==> a < k <= a + n
    ensures |keys| == n
  {
    if n == 0 {
      assert keys == {};
    } else {
      var top: uint32 := a + n;
      RangeSize(a, n - 1, keys - {top});
    }
  }

  predicate AllRecorded(r: Race) {
    forall i :: 0 <= i < |r.tickets| ==> r.tickets[i].serial in r.done
  }

  lemma QuiescentDone(base: uint32, r: Race)
    requires Sound(base, r) && AllRecorded(r) && base + |r.tickets| <= MAX_UINT32
    ensures r.log.latest == base + |r.tickets| && |r.done| == |r.tickets|
    ensures forall k: uint32 :: k in r.done <==> base < k <= base + |r.tickets|
  {
    forall k: uint32 | base < k <= base + |r.tickets|
      ensures k in r.done
    {
      assert r.tickets[k - base - 1].serial == k;
    }
    if |r.tickets| > 0 {
      assert r.tickets[|r.tickets| - 1].serial in r.done;
    }
    RangeSize(base, |r.tickets|, r.done);
  }

  /** How many of the n serials drawn the journal no longer answers for when `late` of them were recorded late. */
  function DroppedWithLate(n: nat, late: nat): nat {
    if n <= CAP then 0 else n - CAP + late
  }

  /** A pruned journal that holds everything drawn from `oldest` on. */
  lemma PrunedOldest(base: uint32, deltas: map<uint32, Delta>, done: set<uint32>, oldest: uint32, n: nat)
    requires |deltas| == CAP && deltas.Keys <= done && base + 1 < oldest && oldest - 1 in done && oldest - 1 !in deltas
    requires (forall k :: k in done && k >= oldest ==> k in deltas) && base + n < MAX_UINT32
    requires forall k: uint32 :: k in done <==> base < k <= base + n
    ensures n > CAP && oldest == base + 1 + n - CAP + |Below(deltas, oldest)|
  {
    var keys, below, pruned: uint32 := deltas.Keys, Below(deltas, oldest), oldest - 1;
    assert |keys| == |deltas|;
    RangeSize(pruned, base + n - pruned, keys - below);
    assert keys == below + (keys - below);
    RangeSize(base, n, done);
    SubsetSize(keys + {pruned}, done);
  }

  lemma UnprunedOldest(base: uint32, deltas: map<uint32, Delta>, done: set<uint32>, n: nat)
    requires |deltas| <= CAP && deltas.Keys <= done && base + n < MAX_UINT32
    requires forall k :: k in done ==> k in deltas
    requires forall k: uint32 :: k in done <==> base < k <= base + n
    ensures n <= CAP && Below(deltas, base + 1) == {}
  {
    assert deltas.Keys == done && |deltas| == |deltas.Keys|;
    RangeSize(base, n, done);
  }

  /** Exactly the first n serials have been recorded. */
  ghost predicate Done(base: nat, done: set<uint32>, n: nat) {
    base + n < MAX_UINT32 && forall k: uint32 :: k in done <==> base < k <= base + n
  }

  lemma SettledOldest(base: uint32, log: Log, done: set<uint32>, n: nat, late: nat)
    requires Settled(base, log, done, late) && log.deltas.Keys <= done && Done(base, done, n)
    ensures log.oldest == base + 1 + DroppedWithLate(n, late)
    ensures n <= CAP ==> late == 0
  {
    if log.oldest == base + 1 {
      UnprunedOldest(base, log.deltas, done, n);
    } else {
      PrunedOldest(base, log.deltas, done, log.oldest, n);
    }
  }

  lemma SettledAnswers(base: uint32, log: Log, done: set<uint32>, n: nat, late: nat, since: uint32)
    requires Settled(base, log, done, late) && log.deltas.Keys <= done && Done(base, done, n) && log.latest == base + n
    ensures Since(log, since).Some? <==> base + DroppedWithLate(n, late) <= since <= base + n
  {
    SettledOldest(base, log, done, n, late);
  }

  lemma QuiescentAnswers(base: uint32, r: Race, late: nat, since: uint32)
    requires Sound(base, r) && AllRecorded(r) && Settled(base, r.log, r.done, late) && base + |r.tickets| < MAX_UINT32
    ensures Since(r.log, since).Some? <==>
            base + DroppedWithLate(|r.tickets|, late) <= since <= base + |r.tickets|
    ensures r.log.latest == base + |r.tickets|
  {
    QuiescentDone(base, r);
    SettledAnswers(base, r.log, r.done, |r.tickets|, late, since);
  }

  /** What a quiescent journal answers when at most CAP records came late: each of them has cost one serial of the
      window for good. */
  lemma InterleavedWindow(base: uint32, events: seq<Event>, since: uint32)
    requires base + |events| < MAX_UINT32 && LateRecords(base, events) <= CAP
    requires AllRecorded(Interleave(base, events))
    ensures var r := Interleave(base, events);
            var dropped := DroppedWithLate(|r.tickets|, LateRecords(base, events));
            Since(r.log, since) ==
            if base + dropped <= since <= base + |r.tickets| then Some(r.tickets[since - base..]) else None
  {
    var r, late := Interleave(base, events), LateRecords(base, events);
    InterleaveInv(base, events);
    SettledInv(base, events);
    QuiescentSince(base, r, late, since);
  }

  lemma QuiescentSince(base: uint32, r: Race, late: nat, since: uint32)
    requires Sound(base, r) && AllRecorded(r) && Settled(base, r.log, r.done, late) && base + |r.tickets| < MAX_UINT32
    ensures Since(r.log, since) ==
            if base + DroppedWithLate(|r.tickets|, late) <= since <= base + |r.tickets|
            then Some(r.tickets[since - base..]) else None
  {
    QuiescentAnswers(base, r, late, since);
    var answer := Since(r.log, since);
    if answer.Some? {
      SoundAnswer(base, r, since);
      ToTheEnd(r.tickets, since - base);
    }
  }

  lemma ToTheEnd<T>(s: seq<T>, from: nat)
    requires from <= |s|
    ensures s[from..|s|] == s[from..]
  {
  }

  lemma FewNotPruned(base: uint32, log: Log, done: set<uint32>, n: nat, late: nat)
    requires Settled(base, log, done, late) && Among(base, log, done, n) && n <= CAP
    ensures log.oldest == base + 1
  {
    BoundedKeys(base, n, done);
    if log.oldest > base + 1 {
      var pruned: uint32 := log.oldest - 1;
      var keys := log.deltas.Keys;
      assert |keys| == |log.deltas|;
      SubsetSize(keys + {pruned}, done);
      assert false;
    }
  }

  lemma {:induction false} FewAreNeverLate(base: uint32, events: seq<Event>)
    requires base + |events| < MAX_UINT32 && |Interleave(base, events).tickets| <= CAP
    ensures LateRecords(base, events) == 0
  {
    if events != [] {
      var init := events[..|events| - 1];
      var r := Interleave(base, init);
      FewAreNeverLate(base, init);
      InterleaveInv(base, init);
      SettledInv(base, init);
      assert Among(base, r.log, r.done, |r.tickets|);
      FewNotPruned(base, r.log, r.done, |r.tickets|, 0);
    }
  }

  /** With at most CAP writers, once all have recorded the order of recording has left no trace. */
  lemma InterleavedQuiescent(base: uint32, events: seq<Event>, since: uint32)
    requires base + |events| < MAX_UINT32
    ensures var r := Interleave(base, events);
            |r.tickets| <= CAP && AllRecorded(r) && base <= since <= base + |r.tickets| ==>
              Since(r.log, since) == Some(r.tickets[since - base..])
  {
    var r := Interleave(base, events);
    if |r.tickets| <= CAP && AllRecorded(r) {
      FewAreNeverLate(base, events);
      InterleavedWindow(base, events, since);
    }
  }

  lemma RecordAllStarted(log: Log, hist: seq<Delta>)
    ensures RecordAll(log, hist).started <==> log.started || hist != []
  {
  }

  lemma WindowUnique(a: Log, b: Log, base: nat, hist: seq<Delta>)
    requires Window(a, base, hist) && Window(b, base, hist) && a.started == b.started
    ensures a == b
  {
    assert a.deltas == b.deltas;
  }

  lemma NoneBelow(deltas: map<uint32, Delta>, oldest: uint32, k: uint32)
    requires |Below(deltas, oldest)| == 0 && k in deltas
    ensures k >= oldest
  {
    assert k < oldest ==> k in Below(deltas, oldest);
  }

  lemma SettledKeys(base: uint32, log: Log, done: set<uint32>, n: nat)
    requires Settled(base, log, done, 0) && log.deltas.Keys <= done && Done(base, done, n)
    ensures var dropped := if n > CAP then n - CAP else 0;
            && log.oldest == base + dropped + 1
            && |log.deltas| == n - dropped
            && forall k: uint32 :: k in log.deltas <==> base + dropped < k <= base + n
  {
    SettledOldest(base, log, done, n, 0);
    var deltas, dropped := log.deltas, if n > CAP then n - CAP else 0;
    forall k: uint32
      ensures k in deltas <==> base + dropped < k <= base + n
    {
      if k in deltas {
        NoneBelow(deltas, log.oldest, k);
      }
    }
    RangeSize(base + dropped, n - dropped, deltas.Keys);
    assert |deltas.Keys| == |deltas|;
  }

  lemma SettledWindow(base: uint32, log: Log, done: set<uint32>, hist: seq<Delta>)
    requires Settled(base, log, done, 0) && log.deltas.Keys <= done && Done(base, done, |hist|)
    requires log.latest == base + |hist|
    requires forall k :: k in log.deltas ==> base < k <= base + |hist| && log.deltas[k] == hist[k - base - 1]
    ensures Window(log, base, hist)
  {
    SettledKeys(base, log, done, |hist|);
  }

  lemma QuiescentWindow(base: uint32, r: Race)
    requires Sound(base, r) && AllRecorded(r) && Settled(base, r.log, r.done, 0) && base + |r.tickets| < MAX_UINT32
    ensures Window(r.log, base, r.tickets)
  {
    QuiescentDone(base, r);
    SettledWindow(base, r.log, r.done, r.tickets);
  }

  /** When the order of recording leaves no trace: while at most CAP records come late, exactly when none does. */
  lemma NoTraceExactly(base: uint32, events: seq<Event>)
    requires base + |events| < MAX_UINT32 && LateRecords(base, events) <= CAP
    requires AllRecorded(Interleave(base, events))
    ensures var r := Interleave(base, events);
            r.log == RecordAll(Fresh(base), r.tickets) <==> LateRecords(base, events) == 0
  {
    var r, late := Interleave(base, events), LateRecords(base, events);
    InterleaveInv(base, events);
    SettledInv(base, events);
    QuiescentDone(base, r);
    RecordAllWindow(base, r.tickets);
    if late == 0 {
      QuiescentWindow(base, r);
      RecordAllStarted(Fresh(base), r.tickets);
      assert r.done == {} <==> r.tickets == [];
      WindowUnique(r.log, RecordAll(Fresh(base), r.tickets), base, r.tickets);
    } else {
      var k :| k in Below(r.log.deltas, r.log.oldest);
    }
  }

  /** One late record more, and pruning goes round all serials: `oldest` ends below where it began. */
  lemma OneTooManyLate(base: uint32, events: seq<Event>, e: Event)
    requires base + |events| < MAX_UINT32 && LateRecords(base, events) == CAP
    requires Late(Interleave(base, events), e)
    ensures var r := Interleave(base, events); Step(base, r, e).log.oldest < r.log.oldest
  {
    var r := Interleave(base, events);
    InterleaveInv(base, events);
    SettledInv(base, events);
    AllBelow(r.log.deltas, r.log.oldest);
    LateWraps(r.log, r.tickets[e.i]);
  }

  lemma AllBelow(deltas: map<uint32, Delta>, oldest: uint32)
    requires |deltas| <= |Below(deltas, oldest)|
    ensures |deltas| == |Below(deltas, oldest)| && forall k :: k in deltas ==> k < oldest
  {
    var below, keys := Below(deltas, oldest), deltas.Keys;
    assert |deltas| == |keys| && keys == below + (keys - below);
    assert keys - below == {};
  }

  lemma LateWraps(log: Log, d: Delta)
    requires |log.deltas| == CAP && d.serial !in log.deltas && d.serial < log.oldest
    requires forall k :: k in log.deltas ==> k < log.oldest
    ensures RecordIn(log, d).oldest < log.oldest
  {
    var e := FullRecord(log, d);
    var other :| other in log.deltas;
    var all := log.deltas[d.serial := d];
    assert other in all && d.serial in all && other != d.serial;
    assert e <= other && e <= d.serial;
  }
}
