/** Byte strings and the handful of `strings` package operations the server relies on. */
module Strings {

  /** A Go string is a sequence of bytes; a byte is written as the character with that code. */
  type octet = c: char | c as int < 256 witness 'a'

  type Str = seq<octet>

  function Lower(c: octet): octet {
    if 'A' <= c <= 'Z' then (c as int + 32) as char else c
  }

  function Upper(c: octet): octet {
    if 'a' <= c <= 'z' then (c as int - 32) as char else c
  }

  function ToLower(s: Str): (r: Str)
    ensures |r| == |s|
  {
    seq(|s|, i requires 0 <= i < |s| => Lower(s[i]))
  }

  function ToUpper(s: Str): (r: Str)
    ensures |r| == |s|
  {
    seq(|s|, i requires 0 <= i < |s| => Upper(s[i]))
  }

  predicate EqualFold(a: Str, b: Str) {
    ToLower(a) == ToLower(b)
  }

  predicate HasSuffix(s: Str, suffix: Str) {
    |suffix| <= |s| && s[|s| - |suffix|..] == suffix
  }

  function Repeat(c: octet, n: nat): Str {
    seq(n, _ => c)
  }

  /** Splits at every dot. The result is never empty: a string without dots is its own only part. */
  function Split(s: Str): (parts: seq<Str>)
    ensures |parts| >= 1
  {
    if s == [] then [[]]
    else
      var rest := Split(s[1..]);
      if s[0] == '.' then [[]] + rest else [[s[0]] + rest[0]] + rest[1..]
  }

  function Join(parts: seq<Str>): Str {
    if parts == [] then []
    else if |parts| == 1 then parts[0]
    else parts[0] + "." + Join(parts[1..])
  }

  lemma ToLowerConcat(a: Str, b: Str)
    ensures ToLower(a + b) == ToLower(a) + ToLower(b)
  {
  }

  lemma {:induction false} JoinSplit(s: Str)
    ensures Join(Split(s)) == s
  {
    if s != [] {
      JoinSplit(s[1..]);
      var rest := Split(s[1..]);
      if s[0] == '.' {
        assert ([[]] + rest)[1..] == rest;
        assert Join([[]] + rest) == [] + "." + Join(rest);
      } else {
        var parts := [[s[0]] + rest[0]] + rest[1..];
        assert parts[1..] == rest[1..];
        assert [s[0]] + s[1..] == s;
        if |rest| > 1 {
          assert Join(rest) == rest[0] + "." + Join(rest[1..]);
          assert Join(parts) == [s[0]] + rest[0] + "." + Join(rest[1..]);
        }
      }
    }
  }

  /** The first part of a split: everything before the first dot. */
  lemma {:induction false} SplitFirst(head: Str, tail: Str)
    requires '.' !in head
    ensures Split(head) == [head]
    ensures Split(head + "." + tail) == [head] + Split(tail)
  {
    var s := head + "." + tail;
    if head == [] {
      assert s[1..] == tail;
    } else {
      SplitFirst(head[1..], tail);
      assert s[1..] == head[1..] + "." + tail;
      assert [head[0]] + head[1..] == head;
    }
  }

  lemma {:induction false} SplitPartsHaveNoDots(s: Str)
    ensures forall i :: 0 <= i < |Split(s)| ==> '.' !in Split(s)[i]
  {
    if s != [] {
      SplitPartsHaveNoDots(s[1..]);
    }
  }

  // ---------- lexicographic order on byte strings, as used by sort.Strings ----------

  predicate Leq(a: Str, b: Str) {
    a == [] || (b != [] && (a[0] < b[0] || (a[0] == b[0] && Leq(a[1..], b[1..]))))
  }

  lemma {:induction false} LeqTotal(a: Str, b: Str)
    ensures Leq(a, b) || Leq(b, a)
  {
    if a != [] && b != [] && a[0] == b[0] {
      LeqTotal(a[1..], b[1..]);
    }
  }

  lemma {:induction false} LeqAntisymmetric(a: Str, b: Str)
    requires Leq(a, b) && Leq(b, a)
    ensures a == b
  {
    if a != [] {
      LeqAntisymmetric(a[1..], b[1..]);
      assert a == [a[0]] + a[1..] && b == [b[0]] + b[1..];
    }
  }

  lemma {:induction false} LeqTransitive(a: Str, b: Str, c: Str)
    requires Leq(a, b) && Leq(b, c)
    ensures Leq(a, c)
  {
    if a != [] && a[0] == b[0] == c[0] {
      LeqTransitive(a[1..], b[1..], c[1..]);
    }
  }

  lemma SameStart(a: Str, b: Str, n: nat)
    requires 0 < n <= |a| && n <= |b| && a[..n] == b[..n]
    ensures a[0] == b[0]
  {
    assert a[..n][0] == b[..n][0];
  }

  /** The order is that of the first differing byte, a prefix coming first. */
  lemma {:induction false} LeqExactly(a: Str, b: Str)
    ensures Leq(a, b) <==> a <= b || exists i :: 0 <= i < |a| && i < |b| && a[..i] == b[..i] && a[i] < b[i]
  {
    if a != [] && b != [] && a[0] == b[0] {
      var x, y := a[1..], b[1..];
      LeqExactly(x, y);
      assert a == [a[0]] + x && b == [b[0]] + y;
      if i :| 0 <= i < |x| && i < |y| && x[..i] == y[..i] && x[i] < y[i] {
        assert a[..i + 1] == [a[0]] + x[..i] && b[..i + 1] == [b[0]] + y[..i];
        assert a[i + 1] < b[i + 1];
      }
      if i :| 0 <= i < |a| && i < |b| && a[..i] == b[..i] && a[i] < b[i] {
        assert i > 0;
        assert x[..i - 1] == a[..i][1..] && y[..i - 1] == b[..i][1..];
        assert x[i - 1] < y[i - 1];
      }
    } else if a != [] && b != [] {
      assert a[..0] == b[..0];
      forall i | 0 <= i < |a| && i < |b| && a[..i] == b[..i]
        ensures i == 0
      {
        if i > 0 {
          SameStart(a, b, i);
        }
      }
    }
  }

  /** Folding identifies exactly the two cases of each ASCII letter. */
  lemma FoldsExactly(a: Str, b: Str)
    ensures EqualFold(a, b) <==>
            |a| == |b| &&
            forall i :: 0 <= i < |a| ==>
              || a[i] == b[i]
              || ('a' <= a[i] <= 'z' && a[i] as int == b[i] as int + 32)
              || ('a' <= b[i] <= 'z' && b[i] as int == a[i] as int + 32)
  {
    assert EqualFold(a, b) ==> |ToLower(a)| == |ToLower(b)|;
    if EqualFold(a, b) {
      forall i | 0 <= i < |a|
        ensures Lower(a[i]) == Lower(b[i])
      {
        assert ToLower(a)[i] == ToLower(b)[i];
      }
    }
  }
}
