/** Cutting a record stream into messages: batchRRs and the buffer/flush loop of transfer.go. */
module Batch {
  import opened Strings
  import opened Collections
  import opened Dns

  const MAX_RRS_PER_MSG := 500
  const OVERHEAD_PER_MSG := 512

  function Sum(size: RR -> nat, rrs: seq<RR>): nat {
    if rrs == [] then 0 else Sum(size, rrs[..|rrs| - 1]) + size(rrs[|rrs| - 1])
  }

  /** A message may hold these records: a lone record always, more only within both limits. */
  predicate Fits(size: RR -> nat, cap: int, rrs: seq<RR>) {
    |rrs| <= 1 || (|rrs| <= MAX_RRS_PER_MSG && OVERHEAD_PER_MSG + Sum(size, rrs) <= cap)
  }

  /** The messages closed, and the one left open, after feeding records to an open message. */
  datatype Fed = Fed(out: seq<seq<RR>>, cur: seq<RR>)

  function Feed(size: RR -> nat, cap: int, cur: seq<RR>, rrs: seq<RR>): Fed {
    if rrs == [] then Fed([], cur)
    else Push(size, cap, Feed(size, cap, cur, rrs[..|rrs| - 1]), rrs[|rrs| - 1])
  }

  function Push(size: RR -> nat, cap: int, f: Fed, rr: RR): Fed {
    if Fits(size, cap, f.cur + [rr]) then Fed(f.out, f.cur + [rr]) else Fed(f.out + [f.cur], [rr])
  }

  function Flush(f: Fed): seq<seq<RR>> {
    if f.cur == [] then f.out else f.out + [f.cur]
  }

  function Batches(size: RR -> nat, cap: int, rrs: seq<RR>): seq<seq<RR>> {
    Flush(Feed(size, cap, [], rrs))
  }

  /** What a batching loop keeps: messages closed, the one open, and its length. */
  ghost predicate Buffered(size: RR -> nat, cap: int, fed: seq<RR>, out: seq<seq<RR>>, cur: seq<RR>, curLen: int) {
    && Fed(out, cur) == Feed(size, cap, [], fed)
    && curLen == OVERHEAD_PER_MSG + Sum(size, cur)
    && |cur| <= MAX_RRS_PER_MSG
  }

  lemma BufferedStep(size: RR -> nat, cap: int, fed: seq<RR>, out: seq<seq<RR>>, cur: seq<RR>, curLen: int, rr: RR)
    requires Buffered(size, cap, fed, out, cur, curLen)
    ensures var l := size(rr);
            if |cur| > 0 && (|cur| + 1 > MAX_RRS_PER_MSG || curLen + l > cap)
            then Buffered(size, cap, fed + [rr], out + [cur], [rr], OVERHEAD_PER_MSG + l)
            else Buffered(size, cap, fed + [rr], out, cur + [rr], curLen + l)
  {
    assert (fed + [rr])[..|fed|] == fed;
    assert (cur + [rr])[..|cur|] == cur;
    assert [rr][..0] == [];
  }

  method BatchRRs(size: RR -> nat, cap: int, rrs: seq<RR>) returns (out: seq<seq<RR>>)
    ensures out == Batches(size, cap, rrs)
  {
    out := [];
    var cur: seq<RR> := [];
    var curLen := OVERHEAD_PER_MSG;
    for i := 0 to |rrs|
      invariant Buffered(size, cap, rrs[..i], out, cur, curLen)
    {
      var l := size(rrs[i]);
      BufferedStep(size, cap, rrs[..i], out, cur, curLen, rrs[i]);
      assert rrs[..i + 1] == rrs[..i] + [rrs[i]];
      if |cur| > 0 && (|cur| + 1 > MAX_RRS_PER_MSG || curLen + l > cap) {
        out := out + [cur];
        cur := [];
        curLen := OVERHEAD_PER_MSG;
      }
      cur := cur + [rrs[i]];
      curLen := curLen + l;
    }
    assert rrs[..|rrs|] == rrs;
    if |cur| > 0 {
      out := out + [cur];
    }
  }

  // ---------- lossless and bounded ----------

  predicate GoodParts(size: RR -> nat, cap: int, parts: seq<seq<RR>>) {
    forall i :: 0 <= i < |parts| ==> parts[i] != [] && Fits(size, cap, parts[i])
  }

  predicate GoodSplit(size: RR -> nat, cap: int, rrs: seq<RR>, parts: seq<seq<RR>>) {
    Concat(parts) == rrs && GoodParts(size, cap, parts)
  }

  predicate HoldsSplit(size: RR -> nat, cap: int, f: Fed, rrs: seq<RR>) {
    && Concat(f.out) + f.cur == rrs
    && (f.cur == [] ==> f.out == [])
    && Fits(size, cap, f.cur)
    && GoodParts(size, cap, f.out)
  }

  lemma PushSplits(size: RR -> nat, cap: int, f: Fed, rrs: seq<RR>, rr: RR)
    requires HoldsSplit(size, cap, f, rrs)
    ensures HoldsSplit(size, cap, Push(size, cap, f, rr), rrs + [rr])
  {
    ConcatSnoc(f.out, f.cur);
    assert Concat(f.out) + (f.cur + [rr]) == rrs + [rr];
  }

  lemma {:induction false} FeedSplits(size: RR -> nat, cap: int, rrs: seq<RR>)
    ensures HoldsSplit(size, cap, Feed(size, cap, [], rrs), rrs)
  {
    if rrs == [] {
      assert Concat<RR>([]) + [] == [];
    } else {
      FeedSplits(size, cap, rrs[..|rrs| - 1]);
      PushSplits(size, cap, Feed(size, cap, [], rrs[..|rrs| - 1]), rrs[..|rrs| - 1], rrs[|rrs| - 1]);
      assert rrs == rrs[..|rrs| - 1] + [rrs[|rrs| - 1]];
    }
  }

  /** The messages hold exactly the records in order, none is empty, and each keeps both limits. */
  lemma BatchesSplit(size: RR -> nat, cap: int, rrs: seq<RR>)
    ensures GoodSplit(size, cap, rrs, Batches(size, cap, rrs))
  {
    FeedSplits(size, cap, rrs);
    var f := Feed(size, cap, [], rrs);
    ConcatSnoc(f.out, f.cur);
  }

  // ---------- optimal ----------

  lemma {:induction false} SumAppend(size: RR -> nat, a: seq<RR>, b: seq<RR>)
    ensures Sum(size, a + b) == Sum(size, a) + Sum(size, b)
  {
    if b == [] {
      assert a + b == a;
    } else {
      SumAppend(size, a, b[..|b| - 1]);
      assert (a + b)[..|a + b| - 1] == a + b[..|b| - 1];
    }
  }

  /** Any contiguous part of a message that fits, fits. */
  lemma FitsPart(size: RR -> nat, cap: int, a: seq<RR>, b: seq<RR>, c: seq<RR>)
    requires Fits(size, cap, a + b + c)
    ensures Fits(size, cap, b)
  {
    SumAppend(size, a + b, c);
    SumAppend(size, a, b);
  }

  predicate EndsWith(s: seq<RR>, suffix: seq<RR>) {
    |suffix| <= |s| && s[|s| - |suffix|..] == suffix
  }

  /** Greedy is not behind a split of n messages ending in `last`: fewer messages so far, or as many with its open one
      starting no earlier. */
  predicate NotBehind(f: Fed, n: nat, last: seq<RR>) {
    |f.out| + 1 < n || (|f.out| + 1 == n && EndsWith(last, f.cur))
  }

  lemma NotBehindNewPart(size: RR -> nat, cap: int, f: Fed, n: nat, last: seq<RR>, rr: RR)
    requires NotBehind(f, n, last)
    ensures NotBehind(Push(size, cap, f, rr), n + 1, [rr])
  {
  }

  lemma SuffixGrows(last: seq<RR>, cur: seq<RR>, rr: RR)
    requires EndsWith(last, cur)
    ensures EndsWith(last + [rr], cur + [rr]) && EndsWith(last + [rr], [rr])
  {
  }

  lemma SuffixFits(size: RR -> nat, cap: int, last: seq<RR>, cur: seq<RR>, rr: RR)
    requires EndsWith(last, cur) && Fits(size, cap, last + [rr])
    ensures Fits(size, cap, cur + [rr])
  {
    var l := last[..|last| - |cur|];
    assert last == l + cur;
    assert last + [rr] == l + (cur + [rr]) + [];
    FitsPart(size, cap, l, cur + [rr], []);
  }

  lemma NotBehindSamePart(size: RR -> nat, cap: int, f: Fed, n: nat, last: seq<RR>, rr: RR)
    requires NotBehind(f, n, last) && Fits(size, cap, last + [rr])
    ensures NotBehind(Push(size, cap, f, rr), n, last + [rr])
  {
    if |f.out| + 1 == n {
      SuffixFits(size, cap, last, f.cur, rr);
      SuffixGrows(last, f.cur, rr);
    } else {
      SuffixGrows(last, [], rr);
    }
  }

  lemma FitsInit(size: RR -> nat, cap: int, part: seq<RR>)
    requires part != [] && Fits(size, cap, part)
    ensures Fits(size, cap, part[..|part| - 1])
  {
    assert [] + part[..|part| - 1] + [part[|part| - 1]] == part;
    FitsPart(size, cap, [], part[..|part| - 1], [part[|part| - 1]]);
  }

  /** The last record of a good split: what is left without it is a good split of the rest. */
  lemma SplitLast(size: RR -> nat, cap: int, rrs: seq<RR>, alt: seq<seq<RR>>)
    requires rrs != [] && GoodSplit(size, cap, rrs, alt)
    ensures alt != [] && alt[|alt| - 1] != []
    ensures var parts, last := alt[..|alt| - 1], alt[|alt| - 1];
            var rest := last[..|last| - 1];
            && last == rest + [rrs[|rrs| - 1]]
            && Concat(parts) + rest == rrs[..|rrs| - 1]
            && GoodParts(size, cap, parts)
            && Fits(size, cap, rest)
  {
    var parts, last := alt[..|alt| - 1], alt[|alt| - 1];
    assert alt == parts + [last];
    ConcatSnoc(parts, last);
    FitsInit(size, cap, last);
    DropLast(Concat(parts), last);
  }

  lemma DropLast(a: seq<RR>, b: seq<RR>)
    requires b != []
    ensures var s := a + b;
            b == b[..|b| - 1] + [s[|s| - 1]] && a + b[..|b| - 1] == s[..|s| - 1]
  {
  }

  lemma {:induction false} GreedyNotBehind(size: RR -> nat, cap: int, rrs: seq<RR>, alt: seq<seq<RR>>)
    requires rrs != [] && GoodSplit(size, cap, rrs, alt)
    ensures NotBehind(Feed(size, cap, [], rrs), |alt|, alt[|alt| - 1])
  {
    SplitLast(size, cap, rrs, alt);
    var init, rr, parts, last := rrs[..|rrs| - 1], rrs[|rrs| - 1], alt[..|alt| - 1], alt[|alt| - 1];
    var rest := last[..|last| - 1];
    assert alt == parts + [rest + [rr]];
    if init == [] {
      PartsEmpty(size, cap, parts);
      assert alt == [[rr]];
    } else if rest == [] {
      GreedyNotBehind(size, cap, init, parts);
      NotBehindNewPart(size, cap, Feed(size, cap, [], init), |parts|, parts[|parts| - 1], rr);
    } else {
      ConcatSnoc(parts, rest);
      GreedyNotBehind(size, cap, init, parts + [rest]);
      NotBehindSamePart(size, cap, Feed(size, cap, [], init), |alt|, rest, rr);
    }
  }

  lemma PartsEmpty(size: RR -> nat, cap: int, parts: seq<seq<RR>>)
    requires Concat(parts) == [] && GoodParts(size, cap, parts)
    ensures parts == []
  {
  }

  /** No contiguous split of the same records within the same limits uses fewer messages. */
  lemma BatchesOptimal(size: RR -> nat, cap: int, rrs: seq<RR>, alt: seq<seq<RR>>)
    requires GoodSplit(size, cap, rrs, alt)
    ensures |Batches(size, cap, rrs)| <= |alt|
  {
    if rrs != [] {
      GreedyNotBehind(size, cap, rrs, alt);
      FeedSplits(size, cap, rrs);
    }
  }

  // ---------- the limits, spelled out ----------

  lemma SumOne(size: RR -> nat, rr: RR)
    ensures Sum(size, [rr]) == size(rr)
  {
    assert [rr][..0] == [];
  }

  /** Every message is a lone record, or at most 500 records that with 512 bytes of overhead stay within the cap, the
      cap itself allowed; and a message is closed only when the next record would break one of these. */
  lemma LimitsExactly(size: RR -> nat, cap: int, rrs: seq<RR>, next: RR)
    requires rrs != []
    ensures Fits(size, cap, rrs + [next]) <==> |rrs| < 500 && 512 + Sum(size, rrs) + size(next) <= cap
    ensures Sum(size, rrs + [next]) == Sum(size, rrs) + size(next) && Fits(size, cap, [next])
  {
    SumOne(size, next);
    SumAppend(size, rrs, [next]);
  }
}
