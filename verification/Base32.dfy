/** Standard base32 with padding: section 6 of RFC 4648. */
module Base32 {
  import opened Wrappers
  import opened Strings

  type digit = x: int | 0 <= x < 32

  function Symbol(d: digit): octet {
    if d < 26 then ('A' as int + d) as char else ('2' as int + d - 26) as char
  }

  predicate IsSymbol(c: octet) {
    'A' <= c <= 'Z' || '2' <= c <= '7'
  }

  function Value(c: octet): digit
    requires IsSymbol(c)
  {
    if 'A' <= c <= 'Z' then c as int - 'A' as int else c as int - '2' as int + 26
  }

  /** How many symbols carry n bytes; the rest of the 8-symbol quantum is padding. */
  function SymbolCount(n: nat): nat
    requires 1 <= n <= 5
  {
    match n case 1 => 2 case 2 => 4 case 3 => 5 case 4 => 7 case _ => 8
  }

  /** The bytes carried by n symbols, where n is a legal count. */
  function ByteCount(n: nat): nat {
    match n case 2 => 1 case 4 => 2 case 5 => 3 case 7 => 4 case 8 => 5 case _ => 0
  }

  /** The k-th 5-bit group of a 5-byte quantum. */
  function Group(q: Str, k: nat): digit
    requires |q| == 5 && k < 8
  {
    match k
    case 0 => q[0] as int / 8
    case 1 => q[0] as int % 8 * 4 + q[1] as int / 64
    case 2 => q[1] as int / 2 % 32
    case 3 => q[1] as int % 2 * 16 + q[2] as int / 16
    case 4 => q[2] as int % 16 * 2 + q[3] as int / 128
    case 5 => q[3] as int / 4 % 32
    case 6 => q[3] as int % 4 * 8 + q[4] as int / 32
    case _ => q[4] as int % 32
  }

  function ZeroPad(s: Str): (q: Str)
    requires |s| <= 5
    ensures |q| == 5
  {
    s + Repeat(0 as char, 5 - |s|)
  }

  function EncodeQuantum(s: Str): (q: Str)
    requires 1 <= |s| <= 5
    ensures |q| == 8
  {
    seq(8, k requires 0 <= k < 8 => if k < SymbolCount(|s|) then Symbol(Group(ZeroPad(s), k)) else '=')
  }

  function Encode(s: Str): (e: Str)
    ensures |e| % 8 == 0
  {
    if s == [] then []
    else if |s| <= 5 then EncodeQuantum(s)
    else EncodeQuantum(s[..5]) + Encode(s[5..])
  }

  /** Where the symbols of a quantum end. Padding is recognised from position 2 on, in a final quantum only. */
  function SymbolsEnd(q: Str, final: bool, k: nat): (end: nat)
    requires |q| == 8 && k <= 8
    ensures k <= end <= 8
    decreases 8 - k
  {
    if k == 8 || (final && k >= 2 && q[k] == '=') then k else SymbolsEnd(q, final, k + 1)
  }

  /** The values of the first `end` symbols; absent symbols read as zero. */
  function ValuesOf(q: Str, end: nat): (v: seq<digit>)
    requires |q| == 8 && end <= 8
    requires forall i :: 0 <= i < end ==> IsSymbol(q[i])
    ensures |v| == 8
  {
    seq(8, k requires 0 <= k < 8 => if k < end then Value(q[k]) else 0)
  }

  /** The k-th byte spelled by eight 5-bit values. */
  function SpelledByte(v: seq<digit>, k: nat): (b: int)
    requires |v| == 8
    ensures 0 <= b < 256
  {
    match k
    case 0 => v[0] as int * 8 + v[1] as int / 4
    case 1 => v[1] as int % 4 * 64 + v[2] as int * 2 + v[3] as int / 16
    case 2 => v[3] as int % 16 * 16 + v[4] as int / 2
    case 3 => v[4] as int % 2 * 128 + v[5] as int * 4 + v[6] as int / 8
    case _ => v[6] as int % 8 * 32 + v[7] as int
  }

  function Spelled(v: seq<digit>): (b: Str)
    requires |v| == 8
    ensures |b| == 5
  {
    seq(5, k requires 0 <= k < 5 => SpelledByte(v, k) as char)
  }

  function DecodeQuantum(q: Str, final: bool): Option<Str>
    requires |q| == 8
  {
    var end := SymbolsEnd(q, final, 0);
    if (exists i :: 0 <= i < end && !IsSymbol(q[i])) || (exists i :: end <= i < 8 && q[i] != '=')
       || end == 3 || end == 6 then None
    else Some(Spelled(ValuesOf(q, end))[..ByteCount(end)])
  }

  function DecodeQuanta(s: Str): Option<Str> {
    if s == [] then Some([])
    else if |s| < 8 then None
    else if |s| == 8 then DecodeQuantum(s, true)
    else
      var first := DecodeQuantum(s[..8], false);
      var rest := DecodeQuanta(s[8..]);
      if first.None? || rest.None? then None else Some(first.value + rest.value)
  }

  /** The decoder skips carriage returns and line feeds wherever they stand. */
  function StripNewlines(s: Str): Str {
    if s == [] then []
    else if s[0] == '\r' || s[0] == '\n' then StripNewlines(s[1..])
    else [s[0]] + StripNewlines(s[1..])
  }

  function Decode(s: Str): Option<Str> {
    DecodeQuanta(StripNewlines(s))
  }

  lemma SymbolRoundTrip(d: digit)
    ensures IsSymbol(Symbol(d)) && Value(Symbol(d)) == d
  {
  }

  /** Decoding a quantum undoes encoding it, padded or not. */
  lemma QuantumRoundTrip(s: Str, final: bool)
    requires 1 <= |s| <= 5 && (final || |s| == 5)
    ensures DecodeQuantum(EncodeQuantum(s), final) == Some(s)
  {
    var q, n, z := EncodeQuantum(s), SymbolCount(|s|), ZeroPad(s);
    forall k | 0 <= k < n
      ensures IsSymbol(q[k]) && Value(q[k]) == Group(z, k)
    {
      SymbolRoundTrip(Group(z, k));
    }
    SymbolsEndIs(q, final, 0, n);
    GroupsSpell(s, q);
  }

  lemma {:induction false} SymbolsEndIs(q: Str, final: bool, k: nat, n: nat)
    requires |q| == 8 && k <= n <= 8
    requires forall i :: k <= i < n ==> q[i] != '='
    requires n == 8 || (final && n >= 2 && q[n] == '=')
    ensures SymbolsEnd(q, final, k) == n
    decreases n - k
  {
    if k < n {
      SymbolsEndIs(q, final, k + 1, n);
    }
  }

  /** The bit arithmetic: eight 5-bit groups put back together are the original bytes. */
  lemma FirstByte(a: int, b: int)
    requires 0 <= a < 256 && 0 <= b < 256
    ensures a / 8 * 8 + (a % 8 * 4 + b / 64) / 4 == a
  {
  }

  lemma SecondByte(a: int, b: int, c: int)
    requires 0 <= a < 256 && 0 <= b < 256 && 0 <= c < 256
    ensures (a % 8 * 4 + b / 64) % 4 * 64 + b / 2 % 32 * 2 + (b % 2 * 16 + c / 16) / 16 == b
  {
    assert (a % 8 * 4 + b / 64) % 4 == b / 64;
    assert (b % 2 * 16 + c / 16) / 16 == b % 2;
  }

  lemma ThirdByte(b: int, c: int, d: int)
    requires 0 <= b < 256 && 0 <= c < 256 && 0 <= d < 256
    ensures (b % 2 * 16 + c / 16) % 16 * 16 + (c % 16 * 2 + d / 128) / 2 == c
  {
  }

  lemma FourthByte(c: int, d: int, e: int)
    requires 0 <= c < 256 && 0 <= d < 256 && 0 <= e < 256
    ensures (c % 16 * 2 + d / 128) % 2 * 128 + d / 4 % 32 * 4 + (d % 4 * 8 + e / 32) / 8 == d
  {
    assert (c % 16 * 2 + d / 128) % 2 == d / 128;
    assert (d % 4 * 8 + e / 32) / 8 == d % 4;
  }

  lemma FifthByte(d: int, e: int)
    requires 0 <= d < 256 && 0 <= e < 256
    ensures (d % 4 * 8 + e / 32) % 8 * 32 + e % 32 == e
  {
  }

  function GroupsOf(z: Str): (v: seq<digit>)
    requires |z| == 5
    ensures |v| == 8
  {
    seq(8, k requires 0 <= k < 8 => Group(z, k))
  }

  /** Groups past the encoded bytes are zero, which is also how an absent symbol reads. */
  lemma GroupsSpell(s: Str, q: Str)
    requires 1 <= |s| <= 5 && |q| == 8
    requires forall k :: 0 <= k < SymbolCount(|s|) ==> IsSymbol(q[k]) && Value(q[k]) == Group(ZeroPad(s), k)
    ensures Spelled(ValuesOf(q, SymbolCount(|s|)))[..|s|] == s
  {
    AbsentGroupsAreZero(s);
    assert ValuesOf(q, SymbolCount(|s|)) == GroupsOf(ZeroPad(s));
    SpelledGroups(ZeroPad(s));
  }

  lemma AbsentGroupsAreZero(s: Str)
    requires 1 <= |s| <= 5
    ensures forall k :: SymbolCount(|s|) <= k < 8 ==> Group(ZeroPad(s), k) == 0
  {
    var z := ZeroPad(s);
    assert forall i :: |s| <= i < 5 ==> z[i] as int == 0;
  }

  lemma ByteRejoins(z: Str, k: nat)
    requires |z| == 5 && k < 5
    ensures SpelledByte(GroupsOf(z), k) == z[k] as int
  {
    match k
    case 0 => FirstByte(z[0] as int, z[1] as int);
    case 1 => SecondByte(z[0] as int, z[1] as int, z[2] as int);
    case 2 => ThirdByte(z[1] as int, z[2] as int, z[3] as int);
    case 3 => FourthByte(z[2] as int, z[3] as int, z[4] as int);
    case _ => FifthByte(z[3] as int, z[4] as int);
  }

  lemma SpelledGroups(z: Str)
    requires |z| == 5
    ensures Spelled(GroupsOf(z)) == z
  {
    forall k | 0 <= k < 5
      ensures Spelled(GroupsOf(z))[k] == z[k]
    {
      ByteRejoins(z, k);
    }
  }

  lemma {:induction false} EncodedShape(s: Str)
    ensures var e := Encode(s); forall i :: 0 <= i < |e| ==> IsSymbol(e[i]) || e[i] == '='
    ensures var e := Encode(s); s != [] ==> |e| >= 8 && e[|e| - 7] != '='
  {
    if |s| > 5 {
      EncodedShape(s[5..]);
    }
    if s != [] {
      var head := if |s| <= 5 then s else s[..5];
      forall k | 0 <= k < SymbolCount(|head|)
        ensures IsSymbol(EncodeQuantum(head)[k])
      {
        SymbolRoundTrip(Group(ZeroPad(head), k));
      }
    }
  }

  lemma {:induction false} StripNothing(s: Str)
    requires '\r' !in s && '\n' !in s
    ensures StripNewlines(s) == s
  {
    if s != [] {
      StripNothing(s[1..]);
    }
  }

  lemma {:induction false} QuantaRoundTrip(s: Str)
    ensures DecodeQuanta(Encode(s)) == Some(s)
  {
    if s == [] {
    } else if |s| <= 5 {
      QuantumRoundTrip(s, true);
    } else {
      QuantumRoundTrip(s[..5], false);
      QuantaRoundTrip(s[5..]);
      EncodedShape(s[5..]);
      var e := Encode(s);
      assert e[..8] == EncodeQuantum(s[..5]) && e[8..] == Encode(s[5..]);
      assert s[..5] + s[5..] == s;
    }
  }

  /** Every byte string survives a trip through base32. */
  lemma RoundTrip(s: Str)
    ensures Decode(Encode(s)) == Some(s)
  {
    EncodedShape(s);
    StripNothing(Encode(s));
    QuantaRoundTrip(s);
  }

  function Symbols(s: Str): nat {
    if s == [] then 0 else (if s[0] == '=' then 0 else 1) + Symbols(s[1..])
  }

  lemma {:induction false} SymbolsConcat(a: Str, b: Str)
    ensures Symbols(a + b) == Symbols(a) + Symbols(b)
  {
    if a == [] {
      assert a + b == b;
    } else {
      SymbolsConcat(a[1..], b);
      assert (a + b)[1..] == a[1..] + b;
    }
  }

  lemma {:induction false} SymbolsBound(s: Str)
    ensures Symbols(s) <= |s|
    ensures (forall i :: 0 <= i < |s| ==> s[i] == '=') ==> Symbols(s) == 0
    ensures '=' !in s ==> Symbols(s) == |s|
  {
    if s != [] {
      SymbolsBound(s[1..]);
    }
  }

  lemma QuantumLength(q: Str, final: bool)
    requires |q| == 8
    ensures DecodeQuantum(q, final).Some? ==> 8 * |DecodeQuantum(q, final).value| <= 5 * Symbols(q)
  {
    var end := SymbolsEnd(q, final, 0);
    if DecodeQuantum(q, final).Some? {
      assert '=' !in q[..end];
      assert q == q[..end] + q[end..];
      SymbolsConcat(q[..end], q[end..]);
      SymbolsBound(q[..end]);
      assert Symbols(q) >= end;
    }
  }

  /** Eight symbols carry at most five bytes; padding and skipped newlines carry nothing. */
  lemma {:induction false} DecodedLength(s: Str)
    ensures DecodeQuanta(s).Some? ==> 8 * |DecodeQuanta(s).value| <= 5 * Symbols(s)
  {
    if |s| == 8 {
      QuantumLength(s, true);
    } else if |s| > 8 {
      QuantumLength(s[..8], false);
      DecodedLength(s[8..]);
      assert s == s[..8] + s[8..];
      SymbolsConcat(s[..8], s[8..]);
    }
  }

  lemma {:induction false} StripShrinks(s: Str)
    ensures Symbols(StripNewlines(s)) <= Symbols(s)
  {
    if s != [] {
      StripShrinks(s[1..]);
      var t := StripNewlines(s);
      if s[0] != '\r' && s[0] != '\n' {
        assert t[1..] == StripNewlines(s[1..]);
      }
    }
  }

  /** A quantum decodes exactly when a legal number of symbols is followed by padding only, and padding is allowed
      only in the final one. */
  lemma QuantumDecodesExactly(q: Str, final: bool)
    requires |q| == 8
    ensures DecodeQuantum(q, final).Some? <==>
            exists n :: n in [2, 4, 5, 7, 8] && (final || n == 8) &&
                        (forall i :: 0 <= i < n ==> IsSymbol(q[i])) && (forall i :: n <= i < 8 ==> q[i] == '=')
  {
    var end := SymbolsEnd(q, final, 0);
    SymbolsEndLegal(q, final, 0);
    if n :| n in [2, 4, 5, 7, 8] && (final || n == 8) &&
            (forall i :: 0 <= i < n ==> IsSymbol(q[i])) && (forall i :: n <= i < 8 ==> q[i] == '=') {
      SymbolsEndIs(q, final, 0, n);
    }
    if DecodeQuantum(q, final).Some? {
      assert end in [2, 4, 5, 7, 8];
    }
  }

  lemma {:induction false} SymbolsEndLegal(q: Str, final: bool, k: nat)
    requires |q| == 8 && k <= 8
    ensures var end := SymbolsEnd(q, final, k); end == 8 || (final && end >= 2)
    decreases 8 - k
  {
    if k < 8 && !(final && k >= 2 && q[k] == '=') {
      SymbolsEndLegal(q, final, k + 1);
    }
  }

  lemma {:induction false} EncodingGrows(s: Str)
    ensures |Encode(s)| >= |s|
  {
    if |s| > 5 {
      EncodingGrows(s[5..]);
    }
  }
}
