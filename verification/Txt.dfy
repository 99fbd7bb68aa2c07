/** TXT character strings: chunkBytes of server.go and decodeTXTStrings of update.go. */
module Txt {
  import opened Wrappers
  import opened Strings
  import opened Collections

  const MAX_TXT_CHUNK := 255

  // ---------- cutting into character strings ----------

  function Chunks(b: Str, n: nat): seq<Str>
    requires n > 0
  {
    if b == [] then []
    else if |b| <= n then [b]
    else [b[..n]] + Chunks(b[n..], n)
  }

  method ChunkBytes(bytes: Str, n: nat) returns (out: seq<Str>)
    requires n > 0
    ensures out == Chunks(bytes, n)
  {
    out := [];
    var b := bytes;
    while |b| > 0
      invariant Chunks(bytes, n) == out + Chunks(b, n)
    {
      var c := b;
      if |c| > n {
        c := c[..n];
      }
      out := out + [c];
      b := b[|c|..];
    }
  }

  /** What a chunking has to be: it rejoins, all parts but the last are full, the last is not empty. */
  predicate IsChunking(parts: seq<Str>, b: Str, n: nat) {
    && Concat(parts) == b
    && (forall i :: 0 <= i < |parts| - 1 ==> |parts[i]| == n)
    && (parts != [] ==> 1 <= |parts[|parts| - 1]| <= n)
  }

  /** Chunks is the one and only chunking. */
  lemma ChunksAreTheChunking(b: Str, n: nat, parts: seq<Str>)
    requires n > 0
    ensures IsChunking(parts, b, n) <==> parts == Chunks(b, n)
  {
    ChunksChunk(b, n);
    if IsChunking(parts, b, n) {
      ChunkingUnique(b, n, parts, Chunks(b, n));
    }
  }

  /** An item takes ceil(length / 255) character strings. */
  lemma {:induction false} ChunkCount(b: Str)
    ensures |Chunks(b, MAX_TXT_CHUNK)| == (|b| + MAX_TXT_CHUNK - 1) / MAX_TXT_CHUNK
  {
    if |b| > MAX_TXT_CHUNK {
      ChunkCount(b[MAX_TXT_CHUNK..]);
    }
  }

  lemma {:induction false} ChunksChunk(b: Str, n: nat)
    requires n > 0
    ensures IsChunking(Chunks(b, n), b, n)
  {
    if |b| > n {
      ChunksChunk(b[n..], n);
      var c, rest := Chunks(b, n), Chunks(b[n..], n);
      assert c[1..] == rest;
      assert forall i :: 1 <= i < |c| ==> c[i] == rest[i - 1];
    } else if b != [] {
      assert Concat([b]) == b;
    }
  }

  lemma {:induction false} ChunkingUnique(b: Str, n: nat, p: seq<Str>, q: seq<Str>)
    requires n > 0 && IsChunking(p, b, n) && IsChunking(q, b, n)
    ensures p == q
    decreases |p|
  {
    if p == [] || q == [] {
      EmptyChunking(p);
      EmptyChunking(q);
    } else {
      assert |p| == 1 ==> Concat(p[1..]) == [];
      assert |q| == 1 ==> Concat(q[1..]) == [];
      if |p| > 1 {
        NonEmptyTail(p[1..]);
      }
      if |q| > 1 {
        NonEmptyTail(q[1..]);
      }
      assert p[0] == b[..|p[0]|] && q[0] == b[..|q[0]|];
      assert |p[0]| == |q[0]|;
      ChunkingUnique(b[|p[0]|..], n, p[1..], q[1..]);
      assert p == [p[0]] + p[1..] && q == [q[0]] + q[1..];
    }
  }

  lemma {:induction false} NonEmptyTail(p: seq<Str>)
    requires p != [] && p[|p| - 1] != []
    ensures Concat(p) != []
  {
    if |p| > 1 {
      NonEmptyTail(p[1..]);
    }
  }

  lemma EmptyChunking(p: seq<Str>)
    requires p != [] ==> p[|p| - 1] != []
    ensures Concat(p) == [] <==> p == []
  {
    if p != [] {
      NonEmptyTail(p);
    }
  }

  // ---------- presentation escapes: section 5.1 of RFC 1035 ----------

  predicate IsDigit(c: octet) {
    '0' <= c <= '9'
  }

  predicate IsTriple(s: Str) {
    |s| >= 3 && IsDigit(s[0]) && IsDigit(s[1]) && IsDigit(s[2])
  }

  function TripleValue(s: Str): nat
    requires IsTriple(s)
  {
    (s[0] as int - '0' as int) * 100 + (s[1] as int - '0' as int) * 10 + (s[2] as int - '0' as int)
  }

  function Prepend(s: Str, r: Option<Str>): Option<Str> {
    if r.None? then None else Some(s + r.value)
  }

  function DecodeChunk(s: Str): Option<Str> {
    if s == [] then Some([])
    else if s[0] != '\\' then Prepend([s[0]], DecodeChunk(s[1..]))
    else if |s| == 1 then None
    else if IsTriple(s[1..]) then
      var n := TripleValue(s[1..]);
      if n > 255 then None else Prepend([n as char], DecodeChunk(s[4..]))
    else Prepend([s[1]], DecodeChunk(s[2..]))
  }

  function DecodeStrings(chunks: seq<Str>): Option<Str> {
    if chunks == [] then Some([])
    else
      var first := DecodeChunk(chunks[0]);
      if first.None? then None else Prepend(first.value, DecodeStrings(chunks[1..]))
  }

  lemma PrependConcat(a: Str, b: Str, r: Option<Str>)
    ensures Prepend(a, Prepend(b, r)) == Prepend(a + b, r)
    ensures Prepend([], r) == r
  {
    if r.Some? {
      assert a + (b + r.value) == a + b + r.value;
      assert [] + r.value == r.value;
    }
  }

  method DecodeTxtStrings(chunks: seq<Str>) returns (r: Option<Str>)
    ensures r == DecodeStrings(chunks)
  {
    var out: Str := [];
    PrependConcat([], [], DecodeStrings(chunks));
    for c := 0 to |chunks|
      invariant DecodeStrings(chunks) == Prepend(out, DecodeStrings(chunks[c..]))
    {
      var chunk := chunks[c];
      ghost var before := out;
      ghost var mine: Str := [];
      assert chunks[c..][1..] == chunks[c + 1..];
      PrependConcat([], [], DecodeChunk(chunk));
      var i := 0;
      while i < |chunk|
        invariant 0 <= i <= |chunk|
        invariant out == before + mine
        invariant DecodeChunk(chunk) == Prepend(mine, DecodeChunk(chunk[i..]))
      {
        var rest := chunk[i..];
        if rest[0] != '\\' {
          assert rest[1..] == chunk[i + 1..];
          PrependConcat(mine, [rest[0]], DecodeChunk(rest[1..]));
          out, mine := out + [rest[0]], mine + [rest[0]];
          i := i + 1;
          continue;
        }
        if i + 1 == |chunk| {
          return None;
        }
        if i + 3 < |chunk| && IsDigit(chunk[i + 1]) && IsDigit(chunk[i + 2]) && IsDigit(chunk[i + 3]) {
          var n := TripleValue(chunk[i + 1..i + 4]);
          assert n == TripleValue(rest[1..]);
          if n > 255 {
            return None;
          }
          assert rest[4..] == chunk[i + 4..];
          PrependConcat(mine, [n as char], DecodeChunk(rest[4..]));
          out, mine := out + [n as char], mine + [n as char];
          i := i + 4;
          continue;
        }
        assert rest[2..] == chunk[i + 2..];
        PrependConcat(mine, [rest[1]], DecodeChunk(rest[2..]));
        out, mine := out + [chunk[i + 1]], mine + [chunk[i + 1]];
        i := i + 2;
      }
      assert chunk[i..] == [] && mine + [] == mine;
      PrependConcat(before, mine, DecodeStrings(chunks[c + 1..]));
    }
    assert chunks[|chunks|..] == [] && out + [] == out;
    r := Some(out);
  }

  function Triple(n: nat): Str
    requires n < 256
  {
    [('0' as int + n / 100) as char, ('0' as int + n / 10 % 10) as char, ('0' as int + n % 10) as char]
  }

  /** How an unpacked byte is presented: quotes and backslashes escaped, unprintable bytes in decimal. */
  function EscapeByte(c: octet): Str {
    if c == '"' || c == '\\' then ['\\', c]
    else if c < ' ' || c > '~' then "\\" + Triple(c as int)
    else [c]
  }

  function Escape(s: Str): Str {
    if s == [] then [] else EscapeByte(s[0]) + Escape(s[1..])
  }

  lemma DecodeDecimal(c: octet, tail: Str)
    ensures DecodeChunk("\\" + Triple(c as int) + tail) == Prepend([c], DecodeChunk(tail))
  {
    var e := "\\" + Triple(c as int) + tail;
    assert e[1..][0] == Triple(c as int)[0] && e[1..][1] == Triple(c as int)[1] && e[1..][2] == Triple(c as int)[2];
    assert TripleValue(e[1..]) == c as int;
    assert e[4..] == tail;
  }

  lemma DecodeQuoted(c: octet, tail: Str)
    requires !IsDigit(c)
    ensures DecodeChunk(['\\', c] + tail) == Prepend([c], DecodeChunk(tail))
  {
    var e := ['\\', c] + tail;
    assert e[1..][0] == c;
    assert e[2..] == tail;
  }

  lemma {:induction false} DecodeEscape(s: Str)
    ensures DecodeChunk(Escape(s)) == Some(s)
  {
    if s != [] {
      var c, tail := s[0], Escape(s[1..]);
      DecodeEscape(s[1..]);
      assert [c] + s[1..] == s;
      if c == '"' || c == '\\' {
        DecodeQuoted(c, tail);
      } else if c < ' ' || c > '~' {
        DecodeDecimal(c, tail);
      } else {
        assert ([c] + tail)[1..] == tail;
      }
    }
  }

  /** Decoding goes on after what has been presented. */
  lemma {:induction false} DecodeAfter(s: Str, t: Str)
    ensures DecodeChunk(Escape(s) + t) == Prepend(s, DecodeChunk(t))
  {
    if s == [] {
      assert Escape(s) + t == t;
      PrependConcat([], [], DecodeChunk(t));
    } else {
      var c, tail := s[0], Escape(s[1..]) + t;
      DecodeAfter(s[1..], t);
      PrependConcat([c], s[1..], DecodeChunk(t));
      assert [c] + s[1..] == s;
      assert Escape(s) + t == EscapeByte(c) + tail;
      if c == '"' || c == '\\' {
        DecodeQuoted(c, tail);
      } else if c < ' ' || c > '~' {
        DecodeDecimal(c, tail);
      } else {
        assert ([c] + tail)[1..] == tail;
      }
    }
  }

  /** What is refused, wherever it stands: a backslash at the end, and a number over 255. A backslash before anything
      but three digits stands for the next character, be that an escaped one or not. */
  lemma EscapesExactly(s: Str, t: Str)
    ensures t == "\\" ==> DecodeChunk(Escape(s) + t) == None
    ensures |t| > 1 && t[0] == '\\' && IsTriple(t[1..]) ==>
              DecodeChunk(Escape(s) + t) ==
              if TripleValue(t[1..]) > 255 then None
              else Prepend(s + [TripleValue(t[1..]) as char], DecodeChunk(t[4..]))
    ensures |t| > 1 && t[0] == '\\' && !IsTriple(t[1..]) ==>
              DecodeChunk(Escape(s) + t) == Prepend(s + [t[1]], DecodeChunk(t[2..]))
  {
    DecodeAfter(s, t);
    if |t| > 1 && t[0] == '\\' {
      if !IsTriple(t[1..]) {
        PrependConcat(s, [t[1]], DecodeChunk(t[2..]));
      } else if TripleValue(t[1..]) <= 255 {
        PrependConcat(s, [TripleValue(t[1..]) as char], DecodeChunk(t[4..]));
      }
    }
  }

  function EscapeAll(chunks: seq<Str>): (r: seq<Str>)
    ensures |r| == |chunks|
  {
    seq(|chunks|, i requires 0 <= i < |chunks| => Escape(chunks[i]))
  }

  /** Reading the presented form of any list of character strings gives back all of their bytes in order. */
  lemma {:induction false} TxtRoundTrip(chunks: seq<Str>)
    ensures DecodeStrings(EscapeAll(chunks)) == Some(Concat(chunks))
  {
    if chunks != [] {
      DecodeEscape(chunks[0]);
      TxtRoundTrip(chunks[1..]);
      assert EscapeAll(chunks)[1..] == EscapeAll(chunks[1..]);
    }
  }

  // ---------- reading a value over the wire ----------

  /** The bytes sent for a character string held in presentation form; a dangling backslash is dropped. */
  function Wire(s: Str): Str {
    if s == [] then []
    else if s[0] != '\\' then [s[0]] + Wire(s[1..])
    else if |s| == 1 then []
    else if IsTriple(s[1..]) then [(TripleValue(s[1..]) % 256) as char] + Wire(s[4..])
    else [s[1]] + Wire(s[2..])
  }

  function WireAll(chunks: seq<Str>): (r: seq<Str>)
    ensures |r| == |chunks|
  {
    seq(|chunks|, i requires 0 <= i < |chunks| => Wire(chunks[i]))
  }

  lemma {:induction false} WireLength(s: Str)
    ensures |Wire(s)| <= |s|
    ensures |Wire(s)| == |s| <==> '\\' !in s
    ensures '\\' !in s ==> Wire(s) == s
  {
    if s != [] {
      assert s == [s[0]] + s[1..];
      if s[0] != '\\' {
        WireLength(s[1..]);
      } else if |s| > 1 && IsTriple(s[1..]) {
        WireLength(s[4..]);
      } else if |s| > 1 {
        WireLength(s[2..]);
      }
    }
  }

  lemma {:induction false} WireAllLength(chunks: seq<Str>)
    ensures |Concat(WireAll(chunks))| <= |Concat(chunks)|
    ensures |Concat(WireAll(chunks))| == |Concat(chunks)| <==> '\\' !in Concat(chunks)
    ensures '\\' !in Concat(chunks) ==> Concat(WireAll(chunks)) == Concat(chunks)
  {
    if chunks != [] {
      WireLength(chunks[0]);
      WireAllLength(chunks[1..]);
      assert WireAll(chunks)[1..] == WireAll(chunks[1..]);
    }
  }

  /** What a client that copies a TXT answer into a prerequisite makes the server compare with. */
  function ReadBack(blob: Str): Option<Str> {
    DecodeStrings(EscapeAll(WireAll(Chunks(blob, MAX_TXT_CHUNK))))
  }

  /** A value read over the wire equals the stored JSON exactly when that JSON has no backslash. */
  lemma ReadBackExactly(blob: Str)
    ensures ReadBack(blob) == Some(blob) <==> '\\' !in blob
  {
    var chunks := Chunks(blob, MAX_TXT_CHUNK);
    TxtRoundTrip(WireAll(chunks));
    ChunksAreTheChunking(blob, MAX_TXT_CHUNK, chunks);
    WireAllLength(chunks);
  }
}
