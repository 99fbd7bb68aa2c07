/** Online signing of responses: dnssec.go, section 2.2 of RFC 4035. */
module Dnssec {
  import opened Wrappers
  import opened Collections
  import opened Strings
  import opened Dns

  const DEFAULT_TTL: uint32 := 300

  /** The zone's signer. The primitive signs one RRset at a time and may fail. */
  datatype Signer = Signer(zone: Str, primitive: (nat, uint32, seq<RR>) -> Option<Str>)

  /** The parts of a request that signing looks at: the DO bit and the first question's name. */
  datatype SignRequest = SignRequest(dnssecOk: bool, qname: Option<Str>)

  /** The parts of a response that signing looks at or changes. */
  datatype Sections = Sections(rcode: Rcode, answer: seq<RR>, ns: seq<RR>)

  // ---------- signing one section ----------

  datatype SetKey = SetKey(name: Str, rtype: nat)

  predicate Signable(rr: RR) {
    rr.Type() != TYPE_OPT && rr.Type() != TYPE_TSIG && rr.Type() != TYPE_RRSIG
  }

  function KeyOf(rr: RR): SetKey {
    SetKey(ToLower(rr.name), rr.Type())
  }

  function SignableOf(rrs: seq<RR>): seq<RR> {
    if rrs == [] then []
    else
      var init, last := SignableOf(rrs[..|rrs| - 1]), rrs[|rrs| - 1];
      if Signable(last) then init + [last] else init
  }

  /** The records of one RRset, in section order. */
  function Group(rrs: seq<RR>, k: SetKey): seq<RR> {
    if rrs == [] then []
    else
      var init, last := Group(rrs[..|rrs| - 1], k), rrs[|rrs| - 1];
      if Signable(last) && KeyOf(last) == k then init + [last] else init
  }

  function KeysOf(rrs: seq<RR>): seq<SetKey> {
    if rrs == [] then []
    else
      var init, last := KeysOf(rrs[..|rrs| - 1]), rrs[|rrs| - 1];
      if Signable(last) then init + [KeyOf(last)] else init
  }

  /** The section's RRsets in order of first appearance. */
  function Order(rrs: seq<RR>): seq<SetKey> {
    Distinct(KeysOf(rrs))
  }

  function Groups(rrs: seq<RR>, keys: seq<SetKey>): (g: seq<seq<RR>>)
    ensures |g| == |keys|
  {
    seq(|keys|, i requires 0 <= i < |keys| => Group(rrs, keys[i]))
  }

  function OrigTtl(rrset: seq<RR>, ttl: uint32): uint32
    requires rrset != []
  {
    if rrset[0].ttl == 0 then ttl else rrset[0].ttl
  }

  /** The RRSIG over an RRset, or none when the primitive fails. */
  function SignatureOf(s: Signer, now: nat, ttl: uint32, k: SetKey, rrset: seq<RR>): Option<RR> {
    if rrset == [] then None
    else
      var origTtl := OrigTtl(rrset, ttl);
      var sig := s.primitive(now, origTtl, rrset);
      if sig.None? then None else Some(RRSIG(rrset[0].name, origTtl, k.rtype, origTtl, sig.value))
  }

  function Signatures(s: Signer, now: nat, ttl: uint32, rrs: seq<RR>, keys: seq<SetKey>): seq<RR> {
    if keys == [] then []
    else
      var init, k := Signatures(s, now, ttl, rrs, keys[..|keys| - 1]), keys[|keys| - 1];
      var sig := SignatureOf(s, now, ttl, k, Group(rrs, k));
      if sig.None? then init else init + [sig.value]
  }

  function SignSection(s: Signer, now: nat, ttl: uint32, rrs: seq<RR>): seq<RR> {
    rrs + Signatures(s, now, ttl, rrs, Order(rrs))
  }

  lemma {:induction false} KeysAndGroups(rrs: seq<RR>)
    ensures forall k :: k in Order(rrs) <==> Group(rrs, k) != []
    ensures forall i, j :: 0 <= i < j < |Order(rrs)| ==> Order(rrs)[i] != Order(rrs)[j]
    ensures forall k, i :: 0 <= i < |Group(rrs, k)| ==> Signable(Group(rrs, k)[i]) && KeyOf(Group(rrs, k)[i]) == k
  {
    DistinctElements(KeysOf(rrs));
    if rrs != [] {
      var init, last := rrs[..|rrs| - 1], rrs[|rrs| - 1];
      KeysAndGroups(init);
      DistinctElements(KeysOf(init));
    }
  }

  /** The grouping loop's variables: the RRsets in order and the records of each. */
  ghost predicate Grouped(rrs: seq<RR>, order: seq<SetKey>, groups: map<SetKey, seq<RR>>) {
    && order == Order(rrs)
    && (forall k :: k in groups <==> k in order)
    && (forall k :: k in groups ==> groups[k] == Group(rrs, k))
  }

  lemma GroupedSkip(rrs: seq<RR>, rr: RR, order: seq<SetKey>, groups: map<SetKey, seq<RR>>)
    requires Grouped(rrs, order, groups) && !Signable(rr)
    ensures Grouped(rrs + [rr], order, groups)
  {
    OrderSnoc(rrs, rr);
    forall k | k in groups
      ensures groups[k] == Group(rrs + [rr], k)
    {
      GroupSnoc(rrs, rr, k);
    }
  }

  /** The loop's updates for a signable record, whether its RRset is known or new. */
  lemma GroupedNext(rrs: seq<RR>, rr: RR, order: seq<SetKey>, groups: map<SetKey, seq<RR>>)
    requires Grouped(rrs, order, groups) && Signable(rr)
    ensures var k := KeyOf(rr);
            var known := if k in groups then groups[k] else [];
            Grouped(rrs + [rr], if k in groups then order else order + [k], groups[k := known + [rr]])
  {
    OrderSnoc(rrs, rr);
    StrangerGroup(rrs, KeyOf(rr));
    var known := if KeyOf(rr) in groups then groups[KeyOf(rr)] else [];
    var groups' := groups[KeyOf(rr) := known + [rr]];
    forall k | k in groups'
      ensures groups'[k] == Group(rrs + [rr], k)
    {
      GroupSnoc(rrs, rr, k);
    }
  }

  lemma OrderSnoc(rrs: seq<RR>, rr: RR)
    ensures Order(rrs + [rr]) ==
            if Signable(rr) && KeyOf(rr) !in Order(rrs) then Order(rrs) + [KeyOf(rr)] else Order(rrs)
  {
    assert (rrs + [rr])[..|rrs|] == rrs;
    DistinctSnoc(KeysOf(rrs), KeyOf(rr));
  }

  lemma GroupSnoc(rrs: seq<RR>, rr: RR, k: SetKey)
    ensures Group(rrs + [rr], k) == if Signable(rr) && KeyOf(rr) == k then Group(rrs, k) + [rr] else Group(rrs, k)
  {
    assert (rrs + [rr])[..|rrs|] == rrs;
  }

  lemma StrangerGroup(rrs: seq<RR>, k: SetKey)
    ensures k !in Order(rrs) ==> Group(rrs, k) == []
  {
    KeysAndGroups(rrs);
  }

  method GroupSection(rrs: seq<RR>) returns (order: seq<SetKey>, groups: map<SetKey, seq<RR>>)
    ensures Grouped(rrs, order, groups)
  {
    order, groups := [], map[];
    for i := 0 to |rrs|
      invariant Grouped(rrs[..i], order, groups)
    {
      var rr := rrs[i];
      assert rrs[..i + 1] == rrs[..i] + [rr];
      if !Signable(rr) {
        GroupedSkip(rrs[..i], rr, order, groups);
        continue;
      }
      var k := KeyOf(rr);
      GroupedNext(rrs[..i], rr, order, groups);
      if k !in groups {
        order := order + [k];
        groups := groups[k := []];
      }
      groups := groups[k := groups[k] + [rr]];
    }
    assert rrs[..|rrs|] == rrs;
  }

  lemma SignaturesSnoc(s: Signer, now: nat, ttl: uint32, rrs: seq<RR>, keys: seq<SetKey>, k: SetKey)
    ensures var sig := SignatureOf(s, now, ttl, k, Group(rrs, k));
            Signatures(s, now, ttl, rrs, keys + [k]) ==
            Signatures(s, now, ttl, rrs, keys) + (if sig.None? then [] else [sig.value])
  {
    assert (keys + [k])[..|keys|] == keys;
  }

  /** The body of the signing loop. */
  method SignRRset(s: Signer, now: nat, ttl: uint32, k: SetKey, rrset: seq<RR>) returns (sig: Option<RR>)
    requires rrset != []
    ensures sig == SignatureOf(s, now, ttl, k, rrset)
  {
    var origTtl := rrset[0].ttl;
    if origTtl == 0 {
      origTtl := ttl;
    }
    var made := s.primitive(now, origTtl, rrset);
    if made.None? {
      return None;
    }
    sig := Some(RRSIG(rrset[0].name, origTtl, k.rtype, origTtl, made.value));
  }

  method AppendSignatures(s: Signer, now: nat, ttl: uint32, ghost rrs: seq<RR>, order: seq<SetKey>,
                          groups: map<SetKey, seq<RR>>)
    returns (sigs: seq<RR>)
    requires forall i :: 0 <= i < |order| ==> order[i] in groups && groups[order[i]] == Group(rrs, order[i]) != []
    ensures sigs == Signatures(s, now, ttl, rrs, order)
  {
    sigs := [];
    for i := 0 to |order|
      invariant sigs == Signatures(s, now, ttl, rrs, order[..i])
    {
      var k := order[i];
      assert order[..i + 1] == order[..i] + [k];
      SignaturesSnoc(s, now, ttl, rrs, order[..i], k);
      var sig := SignRRset(s, now, ttl, k, groups[k]);
      if sig.None? {
        continue;
      }
      sigs := sigs + [sig.value];
    }
    assert order[..|order|] == order;
  }

  method SignSectionByGroups(s: Signer, now: nat, ttl: uint32, rrs: seq<RR>) returns (out: seq<RR>)
    ensures out == SignSection(s, now, ttl, rrs)
  {
    var order, groups := GroupSection(rrs);
    KeysAndGroups(rrs);
    assert forall i :: 0 <= i < |order| ==> order[i] in order;
    var sigs := AppendSignatures(s, now, ttl, rrs, order, groups);
    out := rrs + sigs;
  }

  // ---------- the groups are a partition ----------

  lemma PutSwaps(a: seq<RR>, rr: RR, b: seq<RR>)
    ensures multiset(a + [rr] + b) == multiset(a + b) + multiset{rr}
  {
  }

  lemma {:induction false} ConcatPut(parts: seq<seq<RR>>, j: nat, rr: RR)
    requires j < |parts|
    ensures multiset(Concat(parts[j := parts[j] + [rr]])) == multiset(Concat(parts)) + multiset{rr}
  {
    var put, rest := parts[j := parts[j] + [rr]], parts[1..];
    if j == 0 {
      assert put[1..] == rest;
      PutSwaps(parts[0], rr, Concat(rest));
    } else {
      assert put[1..] == rest[j - 1 := rest[j - 1] + [rr]];
      ConcatPut(rest, j - 1, rr);
      assert put[0] == parts[0];
    }
  }

  /** A record leaves the groups of every other RRset alone. */
  lemma OtherGroups(rrs: seq<RR>, rr: RR, keys: seq<SetKey>)
    requires Signable(rr) ==> KeyOf(rr) !in keys
    ensures Groups(rrs + [rr], keys) == Groups(rrs, keys)
  {
    forall i | 0 <= i < |keys|
      ensures Group(rrs + [rr], keys[i]) == Group(rrs, keys[i])
    {
      assert keys[i] in keys;
      GroupSnoc(rrs, rr, keys[i]);
    }
  }

  lemma GroupsKnown(rrs: seq<RR>, rr: RR, j: nat)
    requires Signable(rr) && j < |Order(rrs)| && Order(rrs)[j] == KeyOf(rr)
    ensures var g := Groups(rrs, Order(rrs));
            Order(rrs + [rr]) == Order(rrs) && Groups(rrs + [rr], Order(rrs)) == g[j := g[j] + [rr]]
  {
    OrderSnoc(rrs, rr);
    DistinctElements(KeysOf(rrs));
    var keys := Order(rrs);
    var g := Groups(rrs, keys);
    forall i | 0 <= i < |keys|
      ensures Groups(rrs + [rr], keys)[i] == g[j := g[j] + [rr]][i]
    {
      GroupSnoc(rrs, rr, keys[i]);
    }
  }

  lemma GroupsNew(rrs: seq<RR>, rr: RR)
    requires Signable(rr) && KeyOf(rr) !in Order(rrs)
    ensures Order(rrs + [rr]) == Order(rrs) + [KeyOf(rr)]
    ensures Groups(rrs + [rr], Order(rrs + [rr])) == Groups(rrs, Order(rrs)) + [[rr]]
  {
    var keys, k := Order(rrs), KeyOf(rr);
    OrderSnoc(rrs, rr);
    OtherGroups(rrs, rr, keys);
    StrangerGroup(rrs, k);
    GroupSnoc(rrs, rr, k);
    assert Group(rrs + [rr], k) == [rr];
    GroupsSnoc(rrs + [rr], keys, k);
  }

  lemma GroupsSnoc(rrs: seq<RR>, keys: seq<SetKey>, k: SetKey)
    ensures Groups(rrs, keys + [k]) == Groups(rrs, keys) + [Group(rrs, k)]
  {
  }

  /** Grouping loses nothing and repeats nothing: the groups together hold exactly the signable records. */
  lemma {:induction false} GroupsPartition(rrs: seq<RR>)
    ensures multiset(Concat(Groups(rrs, Order(rrs)))) == multiset(SignableOf(rrs))
  {
    if rrs != [] {
      var init, rr := rrs[..|rrs| - 1], rrs[|rrs| - 1];
      assert rrs == init + [rr];
      GroupsPartition(init);
      if !Signable(rr) {
        OrderSnoc(init, rr);
        OtherGroups(init, rr, Order(init));
      } else if KeyOf(rr) in Order(init) {
        var j :| 0 <= j < |Order(init)| && Order(init)[j] == KeyOf(rr);
        GroupsKnown(init, rr, j);
        ConcatPut(Groups(init, Order(init)), j, rr);
      } else {
        GroupsNew(init, rr);
        ConcatSnoc(Groups(init, Order(init)), [rr]);
      }
    }
  }

  /** The primitive succeeds on every RRset of the section. */
  predicate SignsAll(s: Signer, now: nat, ttl: uint32, rrs: seq<RR>) {
    forall k :: k in Order(rrs) ==> SignatureOf(s, now, ttl, k, Group(rrs, k)).Some?
  }

  lemma {:induction false} SignaturesInOrder(s: Signer, now: nat, ttl: uint32, rrs: seq<RR>, keys: seq<SetKey>)
    requires forall k :: k in keys ==> SignatureOf(s, now, ttl, k, Group(rrs, k)).Some?
    ensures |Signatures(s, now, ttl, rrs, keys)| == |keys|
    ensures forall i :: 0 <= i < |keys| ==>
              SignatureOf(s, now, ttl, keys[i], Group(rrs, keys[i])) == Some(Signatures(s, now, ttl, rrs, keys)[i])
  {
    if keys != [] {
      assert keys[|keys| - 1] in keys;
      SignaturesInOrder(s, now, ttl, rrs, keys[..|keys| - 1]);
    }
  }

  /** When the primitive succeeds on every RRset, a signed section is the section followed by one RRSIG per distinct
      RRset, in order of first appearance, each made over exactly the records of that RRset; and the RRsets partition
      the signable records. */
  lemma SigningIsPartition(s: Signer, now: nat, ttl: uint32, rrs: seq<RR>)
    requires SignsAll(s, now, ttl, rrs)
    ensures var out, keys := SignSection(s, now, ttl, rrs), Order(rrs);
            && |out| == |rrs| + |keys|
            && out[..|rrs|] == rrs
            && (forall i, j :: 0 <= i < j < |keys| ==> keys[i] != keys[j])
            && (forall i :: 0 <= i < |keys| ==>
                  && Group(rrs, keys[i]) != []
                  && SignatureOf(s, now, ttl, keys[i], Group(rrs, keys[i])) == Some(out[|rrs| + i]))
            && multiset(Concat(Groups(rrs, keys))) == multiset(SignableOf(rrs))
  {
    KeysAndGroups(rrs);
    SignaturesInOrder(s, now, ttl, rrs, Order(rrs));
    GroupsPartition(rrs);
    assert forall i :: 0 <= i < |Order(rrs)| ==> Order(rrs)[i] in Order(rrs);
  }

  // ---------- what a signature covers ----------

  /** Signing passes over EDNS, TSIG and RRSIG records only. */
  predicate Covered(rr: RR) {
    rr.Type() !in [TYPE_OPT, TYPE_TSIG, TYPE_RRSIG]
  }

  lemma {:induction false} GroupIs(rrs: seq<RR>, k: SetKey)
    ensures forall r :: r in Group(rrs, k) <==>
                        r in rrs && Covered(r) && ToLower(r.name) == k.name && r.Type() == k.rtype
  {
    if rrs != [] {
      var init, last := rrs[..|rrs| - 1], rrs[|rrs| - 1];
      assert rrs == init + [last];
      GroupIs(init, k);
    }
  }

  lemma KeysOccur(rrs: seq<RR>, k: SetKey)
    ensures k in Order(rrs) <==> exists p :: 0 <= p < |rrs| && Signable(rrs[p]) && KeyOf(rrs[p]) == k
  {
    KeysAndGroups(rrs);
    GroupIs(rrs, k);
    if k in Order(rrs) {
      var r := Group(rrs, k)[0];
      assert r in Group(rrs, k);
      var p :| 0 <= p < |rrs| && rrs[p] == r;
      assert Signable(rrs[p]) && KeyOf(rrs[p]) == k;
    }
    if p :| 0 <= p < |rrs| && Signable(rrs[p]) && KeyOf(rrs[p]) == k {
      assert rrs[p] in Group(rrs, k);
    }
  }

  /** RRsets are signed in the order in which they first appear. */
  lemma {:induction false} OrderOfAppearance(rrs: seq<RR>, i: nat, j: nat)
    requires i < j < |Order(rrs)|
    ensures exists p :: 0 <= p < |rrs| && Signable(rrs[p]) && KeyOf(rrs[p]) == Order(rrs)[i] &&
                        forall q :: 0 <= q <= p && Signable(rrs[q]) ==> KeyOf(rrs[q]) != Order(rrs)[j]
  {
    var init, last := rrs[..|rrs| - 1], rrs[|rrs| - 1];
    assert rrs == init + [last];
    OrderSnoc(init, last);
    if j < |Order(init)| {
      OrderOfAppearance(init, i, j);
      var p :| 0 <= p < |init| && Signable(init[p]) && KeyOf(init[p]) == Order(init)[i] &&
               forall q :: 0 <= q <= p && Signable(init[q]) ==> KeyOf(init[q]) != Order(init)[j];
      assert rrs[p] == init[p];
      assert forall q :: 0 <= q <= p ==> rrs[q] == init[q];
    } else {
      KeysOccur(init, Order(init)[i]);
      KeysOccur(init, KeyOf(last));
      var p :| 0 <= p < |init| && Signable(init[p]) && KeyOf(init[p]) == Order(init)[i];
      assert rrs[p] == init[p];
      assert forall q :: 0 <= q <= p ==> rrs[q] == init[q];
    }
  }

  /** Two covered records are signed together exactly when they have the same type and, up to letter case, the same
      owner name. */
  lemma SignedTogether(rrs: seq<RR>, a: RR, b: RR)
    requires a in rrs && b in rrs && Covered(a) && Covered(b)
    ensures (exists k :: k in Order(rrs) && a in Group(rrs, k) && b in Group(rrs, k)) <==>
            EqualFold(a.name, b.name) && a.Type() == b.Type()
  {
    KeysAndGroups(rrs);
    forall k
      ensures a in Group(rrs, k) <==> ToLower(a.name) == k.name && a.Type() == k.rtype
      ensures b in Group(rrs, k) <==> ToLower(b.name) == k.name && b.Type() == k.rtype
    {
      GroupIs(rrs, k);
    }
    if EqualFold(a.name, b.name) && a.Type() == b.Type() {
      var k := SetKey(ToLower(a.name), a.Type());
      assert a in Group(rrs, k) && b in Group(rrs, k);
      assert k in Order(rrs);
    }
  }

  /** Each signature, when all can be made: it stands at the owner of its first record, names their type, keeps the
      first record's TTL or, when that is zero, the response's, and is made over exactly the section's covered records
      with its owner name, up to letter case, and its type. */
  lemma SignatureCovers(s: Signer, now: nat, ttl: uint32, rrs: seq<RR>, i: nat)
    requires SignsAll(s, now, ttl, rrs) && i < |Order(rrs)|
    ensures |SignSection(s, now, ttl, rrs)| == |rrs| + |Order(rrs)|
    ensures var sig, over := SignSection(s, now, ttl, rrs)[|rrs| + i], Group(rrs, Order(rrs)[i]);
            && over != []
            && sig.RRSIG?
            && sig.name == over[0].name
            && sig.covered == over[0].Type()
            && sig.ttl == sig.origTtl == (if over[0].ttl == 0 then ttl else over[0].ttl)
            && s.primitive(now, sig.origTtl, over) == Some(sig.signature)
            && forall r :: r in over <==>
                           r in rrs && Covered(r) && EqualFold(r.name, sig.name) && r.Type() == sig.covered
  {
    SigningIsPartition(s, now, ttl, rrs);
    var k := Order(rrs)[i];
    var over := Group(rrs, k);
    GroupIs(rrs, k);
    assert over[0] in over;
  }

  // ---------- signing a response ----------

  function FirstSoaTtl(ns: seq<RR>): uint32 {
    if ns == [] then DEFAULT_TTL
    else if ns[0].SOA? then if ns[0].minttl > 0 then ns[0].minttl else ns[0].ttl
    else FirstSoaTtl(ns[1..])
  }

  method ResponseTtl(ns: seq<RR>) returns (ttl: uint32)
    ensures ttl == FirstSoaTtl(ns)
  {
    for i := 0 to |ns|
      invariant FirstSoaTtl(ns) == FirstSoaTtl(ns[i..])
    {
      assert ns[i..][1..] == ns[i + 1..];
      if ns[i].SOA? {
        if ns[i].minttl > 0 {
          return ns[i].minttl;
        }
        return ns[i].ttl;
      }
    }
    ttl := DEFAULT_TTL;
  }

  function ApexNsec(s: Signer, ttl: uint32): RR {
    NSEC(s.zone, ttl, s.zone, [TYPE_NS, TYPE_SOA, TYPE_TXT, TYPE_RRSIG, TYPE_NSEC, TYPE_DNSKEY])
  }

  function NodataNsec(s: Signer, qname: Str, ttl: uint32): RR {
    NSEC(qname, ttl, s.zone, [TYPE_TXT, TYPE_RRSIG, TYPE_NSEC])
  }

  /** The TTL of what signing adds: from the first SOA, its minimum unless that is zero. */
  lemma {:induction false} FirstSoaTtlIs(ns: seq<RR>, i: nat)
    requires forall j :: 0 <= j < i && j < |ns| ==> !ns[j].SOA?
    requires i < |ns| ==> ns[i].SOA?
    ensures FirstSoaTtl(ns) == if i >= |ns| then 300 else if ns[i].minttl != 0 then ns[i].minttl else ns[i].ttl
  {
    if ns != [] && i > 0 {
      FirstSoaTtlIs(ns[1..], i - 1);
    }
  }

  predicate HasRrsig(rrs: seq<RR>) {
    exists i :: 0 <= i < |rrs| && rrs[i].Type() == TYPE_RRSIG
  }

  /** Signing does anything at all: the client asked and no signature is there yet. */
  predicate Engages(req: SignRequest, resp: Sections) {
    req.dnssecOk && !HasRrsig(resp.answer + resp.ns)
  }

  /** The response with the denial record and the apex key that signing adds before it signs. */
  function Extended(s: Signer, req: SignRequest, resp: Sections): Sections {
    var ttl := FirstSoaTtl(resp.ns);
    var ns := if resp.rcode == NXDOMAIN then resp.ns + [ApexNsec(s, ttl)]
              else if resp.rcode == NOERROR && resp.answer == [] && req.qname.Some?
              then resp.ns + [NodataNsec(s, req.qname.value, ttl)]
              else resp.ns;
    var answer := if req.qname.Some? && ToLower(req.qname.value) == s.zone then resp.answer + [DNSKEY(s.zone, ttl)]
                  else resp.answer;
    Sections(resp.rcode, answer, ns)
  }

  /** What signing adds before it signs: one denial to a negative answer, at the apex or at the name itself, its types
      in ascending order (section 4.1.2 of RFC 4034), and the key to an answer at the apex. */
  lemma ExtendedExactly(s: Signer, req: SignRequest, resp: Sections)
    ensures var e, ttl := Extended(s, req, resp), FirstSoaTtl(resp.ns);
            && e.rcode == resp.rcode
            && e.ns == resp.ns +
                 (if resp.rcode == NXDOMAIN then [NSEC(s.zone, ttl, s.zone, [2, 6, 16, 46, 47, 48])]
                  else if resp.rcode == NOERROR && resp.answer == [] && req.qname.Some?
                  then [NSEC(req.qname.value, ttl, s.zone, [16, 46, 47])]
                  else [])
            && e.answer == resp.answer +
                 (if req.qname.Some? && ToLower(req.qname.value) == s.zone then [DNSKEY(s.zone, ttl)] else [])
  {
    assert resp.answer + [] == resp.answer && resp.ns + [] == resp.ns;
  }

  function Signed(s: Signer, now: nat, req: SignRequest, resp: Sections): Sections {
    if !Engages(req, resp) then resp
    else
      var ttl, e := FirstSoaTtl(resp.ns), Extended(s, req, resp);
      Sections(e.rcode, SignSection(s, now, ttl, e.answer), SignSection(s, now, ttl, e.ns))
  }

  /** Signing leaves a response alone when the client did not ask, or a signature is already in either section; and
      otherwise signs both sections of the extended response. */
  lemma SignedExactly(s: Signer, now: nat, req: SignRequest, resp: Sections)
    ensures var once, e, ttl := Signed(s, now, req, resp), Extended(s, req, resp), FirstSoaTtl(resp.ns);
            if !req.dnssecOk || (exists r :: r in resp.answer + resp.ns && r.Type() == TYPE_RRSIG) then once == resp
            else once == Sections(resp.rcode, SignSection(s, now, ttl, e.answer), SignSection(s, now, ttl, e.ns))
  {
    var all := resp.answer + resp.ns;
    assert HasRrsig(all) <==> exists r :: r in all && r.Type() == TYPE_RRSIG;
  }

  /** A response message, changed in place by signing. */
  class Message {
    const rcode: Rcode
    var answer: seq<RR>
    var ns: seq<RR>

    constructor (rcode: Rcode, answer: seq<RR>, ns: seq<RR>)
      ensures Value() == Sections(rcode, answer, ns)
    {
      this.rcode, this.answer, this.ns := rcode, answer, ns;
    }

    ghost function Value(): Sections
      reads this
    {
      Sections(rcode, answer, ns)
    }

    method Sign(s: Signer, now: nat, req: SignRequest)
      modifies this
      ensures Value() == Signed(s, now, req, old(Value()))
    {
      if !req.dnssecOk {
        return;
      }
      var all := answer + ns;
      for i := 0 to |all|
        invariant !HasRrsig(all[..i])
      {
        if all[i].Type() == TYPE_RRSIG {
          return;
        }
      }
      assert all[..|all|] == all;
      var ttl := ResponseTtl(ns);
      if rcode == NXDOMAIN {
        ns := ns + [ApexNsec(s, ttl)];
      } else if rcode == NOERROR && answer == [] && req.qname.Some? {
        ns := ns + [NodataNsec(s, req.qname.value, ttl)];
      }
      if req.qname.Some? && ToLower(req.qname.value) == s.zone {
        answer := answer + [DNSKEY(s.zone, ttl)];
      }
      answer := SignSectionByGroups(s, now, ttl, answer);
      ns := SignSectionByGroups(s, now, ttl, ns);
    }
  }

  // ---------- signing twice ----------

  /** The primitive succeeds on some RRset of the section. */
  predicate SignsSome(s: Signer, now: nat, ttl: uint32, rrs: seq<RR>) {
    exists k :: k in Order(rrs) && SignatureOf(s, now, ttl, k, Group(rrs, k)).Some?
  }

  /** Signing adds a denial or the apex key: the answer is negative, or the question is about the apex. */
  predicate Adds(s: Signer, req: SignRequest, resp: Sections) {
    || resp.rcode == NXDOMAIN
    || (resp.rcode == NOERROR && resp.answer == [] && req.qname.Some?)
    || (req.qname.Some? && ToLower(req.qname.value) == s.zone)
  }

  lemma {:induction false} SignaturesEmpty(s: Signer, now: nat, ttl: uint32, rrs: seq<RR>, keys: seq<SetKey>)
    ensures Signatures(s, now, ttl, rrs, keys) == [] <==>
            forall k :: k in keys ==> SignatureOf(s, now, ttl, k, Group(rrs, k)).None?
  {
    if keys != [] {
      var init, last := keys[..|keys| - 1], keys[|keys| - 1];
      SignaturesEmpty(s, now, ttl, rrs, init);
      SignaturesSnoc(s, now, ttl, rrs, init, last);
      assert keys == init + [last];
      assert forall k :: k in keys <==> k in init || k == last;
    }
  }

  lemma AddsExactly(s: Signer, req: SignRequest, resp: Sections)
    ensures Extended(s, req, resp) == resp <==> !Adds(s, req, resp)
  {
    var ttl, e := FirstSoaTtl(resp.ns), Extended(s, req, resp);
    assert |e.answer| == |resp.answer| + (if req.qname.Some? && ToLower(req.qname.value) == s.zone then 1 else 0);
    assert |e.ns| > |resp.ns| <==>
           resp.rcode == NXDOMAIN || (resp.rcode == NOERROR && resp.answer == [] && req.qname.Some?);
  }

  predicate SignsAny(s: Signer, now: nat, ttl: uint32, e: Sections) {
    SignsSome(s, now, ttl, e.answer) || SignsSome(s, now, ttl, e.ns)
  }

  lemma {:induction false} SignaturesAreRrsigs(s: Signer, now: nat, ttl: uint32, rrs: seq<RR>, keys: seq<SetKey>)
    ensures forall i :: 0 <= i < |Signatures(s, now, ttl, rrs, keys)| ==> Signatures(s, now, ttl, rrs, keys)[i].RRSIG?
  {
    if keys != [] {
      SignaturesAreRrsigs(s, now, ttl, rrs, keys[..|keys| - 1]);
    }
  }

  lemma SignedSectionHasRrsig(s: Signer, now: nat, ttl: uint32, rrs: seq<RR>)
    requires !HasRrsig(rrs)
    ensures HasRrsig(SignSection(s, now, ttl, rrs)) <==> SignsSome(s, now, ttl, rrs)
    ensures !SignsSome(s, now, ttl, rrs) ==> SignSection(s, now, ttl, rrs) == rrs
  {
    SignaturesAreRrsigs(s, now, ttl, rrs, Order(rrs));
    SignaturesEmpty(s, now, ttl, rrs, Order(rrs));
    var sigs := Signatures(s, now, ttl, rrs, Order(rrs));
    if sigs != [] {
      assert SignSection(s, now, ttl, rrs)[|rrs|] == sigs[0];
    }
  }

  lemma HasRrsigConcat(a: seq<RR>, b: seq<RR>)
    ensures HasRrsig(a + b) <==> HasRrsig(a) || HasRrsig(b)
  {
    if HasRrsig(b) {
      var i :| 0 <= i < |b| && b[i].Type() == TYPE_RRSIG;
      assert (a + b)[|a| + i] == b[i];
    }
    if HasRrsig(a) {
      var i :| 0 <= i < |a| && a[i].Type() == TYPE_RRSIG;
      assert (a + b)[i] == a[i];
    }
  }

  /** After signing, either a signature is there or the response is only extended. */
  lemma AfterSigning(s: Signer, now: nat, req: SignRequest, resp: Sections)
    requires Engages(req, resp)
    ensures var ttl, e, once := FirstSoaTtl(resp.ns), Extended(s, req, resp), Signed(s, now, req, resp);
            && !HasRrsig(e.answer) && !HasRrsig(e.ns)
            && (Engages(req, once) <==> !SignsAny(s, now, ttl, e))
            && (!SignsAny(s, now, ttl, e) ==> once == e)
  {
    var ttl, e := FirstSoaTtl(resp.ns), Extended(s, req, resp);
    HasRrsigConcat(resp.answer, resp.ns);
    HasRrsigConcat(resp.answer, [DNSKEY(s.zone, ttl)]);
    HasRrsigConcat(resp.ns, [ApexNsec(s, ttl)]);
    if req.qname.Some? {
      HasRrsigConcat(resp.ns, [NodataNsec(s, req.qname.value, ttl)]);
    }
    SignedSectionHasRrsig(s, now, ttl, e.answer);
    SignedSectionHasRrsig(s, now, ttl, e.ns);
    HasRrsigConcat(SignSection(s, now, ttl, e.answer), SignSection(s, now, ttl, e.ns));
  }

  /** A second pass, at any time, changes nothing exactly when the first had nothing to do, or signed some RRset, or
      had no record to add and the second cannot sign any RRset either. */
  lemma SignTwiceExactly(s: Signer, now: nat, later: nat, req: SignRequest, resp: Sections)
    ensures var ttl, e, once := FirstSoaTtl(resp.ns), Extended(s, req, resp), Signed(s, now, req, resp);
            Signed(s, later, req, once) == once <==>
            !Engages(req, resp) || SignsAny(s, now, ttl, e) || (!Adds(s, req, resp) && !SignsAny(s, later, ttl, resp))
  {
    AddsExactly(s, req, resp);
    var ttl, e, once := FirstSoaTtl(resp.ns), Extended(s, req, resp), Signed(s, now, req, resp);
    if Engages(req, resp) {
      AfterSigning(s, now, req, resp);
      if !SignsAny(s, now, ttl, e) {
        AfterSigning(s, later, req, e);
        ExtendingGrows(s, later, req, e);
        ExtendingAgain(s, req, resp);
      }
    }
  }

  /** Extending an extended response adds again whenever the first extension did. */
  lemma ExtendingAgain(s: Signer, req: SignRequest, resp: Sections)
    ensures var e := Extended(s, req, resp); Extended(s, req, e) == e <==> e == resp
    ensures FirstSoaTtl(resp.ns) == FirstSoaTtl(Extended(s, req, resp).ns)
  {
    var ttl, e := FirstSoaTtl(resp.ns), Extended(s, req, resp);
    if e.ns != resp.ns {
      TtlUnchanged(resp.ns, e.ns[|resp.ns|]);
      assert e.ns == resp.ns + [e.ns[|resp.ns|]];
      assert |Extended(s, req, e).ns| > |e.ns| || |e.answer| > |resp.answer|;
    }
    if e.answer != resp.answer {
      assert |Extended(s, req, e).answer| > |e.answer|;
    }
  }

  lemma {:induction false} TtlUnchanged(ns: seq<RR>, rr: RR)
    requires !rr.SOA?
    ensures FirstSoaTtl(ns + [rr]) == FirstSoaTtl(ns)
  {
    if ns == [] {
      assert (ns + [rr])[1..] == [];
    } else {
      TtlUnchanged(ns[1..], rr);
      assert (ns + [rr])[1..] == ns[1..] + [rr];
    }
  }

  lemma ExtendingGrows(s: Signer, now: nat, req: SignRequest, resp: Sections)
    requires Engages(req, resp)
    ensures var ttl, e := FirstSoaTtl(resp.ns), Extended(s, req, resp);
            Signed(s, now, req, resp) == resp <==> e == resp && !SignsAny(s, now, ttl, e)
  {
    var ttl, e, once := FirstSoaTtl(resp.ns), Extended(s, req, resp), Signed(s, now, req, resp);
    AfterSigning(s, now, req, resp);
    assert |once.answer| >= |e.answer| >= |resp.answer| && |once.ns| >= |e.ns| >= |resp.ns|;
    assert e.answer != resp.answer ==> |e.answer| > |resp.answer|;
    assert e.ns != resp.ns ==> |e.ns| > |resp.ns|;
  }

  /** Signing is idempotent whenever the primitive succeeds on every RRset presented to the first pass. */
  lemma SignIdempotent(s: Signer, now: nat, later: nat, req: SignRequest, resp: Sections)
    requires var ttl, e := FirstSoaTtl(resp.ns), Extended(s, req, resp);
             SignsAll(s, now, ttl, e.answer) && SignsAll(s, now, ttl, e.ns)
    ensures Signed(s, later, req, Signed(s, now, req, resp)) == Signed(s, now, req, resp)
  {
    SignTwiceExactly(s, now, later, req, resp);
    AddsExactly(s, req, resp);
    var ttl, e := FirstSoaTtl(resp.ns), Extended(s, req, resp);
    SectionDone(s, now, later, ttl, e.answer);
    SectionDone(s, now, later, ttl, e.ns);
    ExtrasAreSignable(s, req, resp);
  }

  predicate AnySignable(rrs: seq<RR>) {
    exists i :: 0 <= i < |rrs| && Signable(rrs[i])
  }

  lemma SectionDone(s: Signer, now: nat, later: nat, ttl: uint32, rrs: seq<RR>)
    requires SignsAll(s, now, ttl, rrs)
    ensures SignsSome(s, now, ttl, rrs) <==> AnySignable(rrs)
    ensures SignsSome(s, later, ttl, rrs) ==> AnySignable(rrs)
  {
    KeysAndGroups(rrs);
    NoKeys(rrs);
    DistinctElements(KeysOf(rrs));
    if KeysOf(rrs) != [] {
      assert KeysOf(rrs)[0] in Order(rrs);
    }
  }

  lemma ExtrasAreSignable(s: Signer, req: SignRequest, resp: Sections)
    ensures var e := Extended(s, req, resp);
            (e.answer != resp.answer ==> AnySignable(e.answer)) && (e.ns != resp.ns ==> AnySignable(e.ns))
  {
    var e := Extended(s, req, resp);
    if e.answer != resp.answer {
      assert Signable(e.answer[|resp.answer|]);
    }
    if e.ns != resp.ns {
      assert Signable(e.ns[|resp.ns|]);
    }
  }

  lemma {:induction false} NoKeys(rrs: seq<RR>)
    ensures KeysOf(rrs) == [] <==> forall i :: 0 <= i < |rrs| ==> !Signable(rrs[i])
  {
    if rrs != [] {
      NoKeys(rrs[..|rrs| - 1]);
    }
  }

  /** With a primitive that always fails, a second pass changes exactly the responses the first one adds a record to. */
  lemma FailingSignerStacks(s: Signer, now: nat, later: nat, req: SignRequest, resp: Sections)
    requires forall n, ttl, rrset :: s.primitive(n, ttl, rrset) == None
    requires Engages(req, resp)
    ensures Signed(s, later, req, Signed(s, now, req, resp)) != Signed(s, now, req, resp) <==> Adds(s, req, resp)
  {
    var ttl, e := FirstSoaTtl(resp.ns), Extended(s, req, resp);
    SignTwiceExactly(s, now, later, req, resp);
    NoneSigned(s, now, ttl, e.answer);
    NoneSigned(s, now, ttl, e.ns);
    NoneSigned(s, later, ttl, resp.answer);
    NoneSigned(s, later, ttl, resp.ns);
  }

  /** One of them is the server's answer to a question about a missing name. */
  lemma NegativeAnswerStacks(s: Signer, now: nat, later: nat, qname: Str, soa: RR)
    requires forall n, ttl, rrset :: s.primitive(n, ttl, rrset) == None
    requires soa.SOA?
    ensures var req, resp := SignRequest(true, Some(qname)), Sections(NXDOMAIN, [], [soa]);
            Signed(s, later, req, Signed(s, now, req, resp)) != Signed(s, now, req, resp)
  {
    var req, resp := SignRequest(true, Some(qname)), Sections(NXDOMAIN, [], [soa]);
    assert resp.answer + resp.ns == [soa];
    FailingSignerStacks(s, now, later, req, resp);
  }

  lemma NoneSigned(s: Signer, now: nat, ttl: uint32, rrs: seq<RR>)
    requires forall n, t, rrset :: s.primitive(n, t, rrset) == None
    ensures !SignsSome(s, now, ttl, rrs)
  {
  }
}
