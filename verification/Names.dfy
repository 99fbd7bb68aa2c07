/** Owner names and partition keys: parseKey and itemName of server.go. */
module Names {
  import opened Wrappers
  import opened Strings
  import Base32

  predicate SafePart(part: Str) {
    && part != []
    && |part| <= 63
    && (forall i :: 0 <= i < |part| ==> 'a' <= part[i] <= 'z' || '0' <= part[i] <= '9' || part[i] == '-')
    && part[0] != '-'
    && part[|part| - 1] != '-'
  }

  /** Keys that survive DNS label rules unchanged. */
  predicate Safe(key: Str) {
    forall i :: 0 <= i < |Split(key)| ==> SafePart(Split(key)[i])
  }

  /** Safe keys in the namespace that parseKey reads as base32. */
  predicate Reserved(key: Str) {
    Safe(key) && "k-" <= key
  }

  function PadTo8(raw: Str): Str {
    if |raw| % 8 == 0 then raw else raw + Repeat('=', 8 - |raw| % 8)
  }

  function ParseKey(zone: Str, qname: Str): Option<Str> {
    if !HasSuffix(ToLower(qname), "." + zone) then None
    else
      var rest := qname[..|qname| - |zone| - 1];
      if rest == [] then None
      else
        var first := Split(rest)[0];
        if "k-" <= first then Base32.Decode(PadTo8(ToUpper(first[2..])))
        else Some(rest)
  }

  /** The base32 form of a key, in the lower case it is printed in. */
  function BaseForm(key: Str): Str {
    "k-" + ToLower(Base32.Encode(key))
  }

  function ItemName(zone: Str, key: Str): Str {
    if key == [] then zone
    else if Safe(key) then key + "." + zone
    else BaseForm(key) + "." + zone
  }

  /** itemName as written: scan the parts, stop at the first bad character, then pick a form. */
  method ItemNameByScan(zone: Str, key: Str) returns (name: Str)
    ensures name == ItemName(zone, key)
  {
    if key == [] {
      return zone;
    }
    var safe := true;
    var parts := Split(key);
    for i := 0 to |parts|
      invariant safe && forall j :: 0 <= j < i ==> SafePart(parts[j])
    {
      var part := parts[i];
      if part == [] || |part| > 63 {
        safe := false;
        break;
      }
      for j := 0 to |part|
        invariant safe
        invariant forall m :: 0 <= m < j ==> 'a' <= part[m] <= 'z' || '0' <= part[m] <= '9' || part[m] == '-'
        invariant j > 0 ==> part[0] != '-' && part[|part| - 1] != '-'
      {
        var r := part[j];
        if !('a' <= r <= 'z' || '0' <= r <= '9' || r == '-') || part[0] == '-' || part[|part| - 1] == '-' {
          safe := false;
          break;
        }
      }
      if !safe {
        break;
      }
    }
    if safe {
      return key + "." + zone;
    }
    name := BaseForm(key) + "." + zone;
  }

  // ---------- the two printed forms and what parsing makes of them ----------

  /** Any text below the zone, in any letter case of the zone, is seen by the parser as written. */
  lemma ParseBelowZone(zone: Str, rest: Str, suffix: Str)
    requires rest != [] && ToLower(suffix) == zone
    ensures ParseKey(zone, rest + "." + suffix) ==
            (if "k-" <= Split(rest)[0] then Base32.Decode(PadTo8(ToUpper(Split(rest)[0][2..]))) else Some(rest))
  {
    var q := rest + "." + suffix;
    assert ToLower(q) == ToLower(rest) + "." + zone;
    assert ToLower(q)[|q| - |zone| - 1..] == "." + zone;
    assert q[..|q| - |zone| - 1] == rest;
  }

  lemma BelowZone(head: Str, zone: Str)
    ensures var name := head + "." + zone;
            HasSuffix(name, "." + zone) && |name| - |zone| - 1 == |head| && name[..|head|] == head
  {
    var name := head + "." + zone;
    assert name == head + ("." + zone);
  }

  lemma UpperUndoesLower(e: Str)
    requires forall i :: 0 <= i < |e| ==> Base32.IsSymbol(e[i]) || e[i] == '='
    ensures ToUpper(ToLower(e)) == e
  {
  }

  function Unpadded(e: Str): (u: Str)
    ensures |u| <= |e| && u == e[..|u|]
    ensures forall i :: |u| <= i < |e| ==> e[i] == '='
    ensures u != [] ==> u[|u| - 1] != '='
  {
    if e != [] && e[|e| - 1] == '=' then Unpadded(e[..|e| - 1]) else e
  }

  lemma RepadUnpadded(key: Str)
    requires key != []
    ensures PadTo8(Unpadded(Base32.Encode(key))) == Base32.Encode(key)
  {
    Base32.EncodedShape(key);
    var e := Base32.Encode(key);
    var u := Unpadded(e);
    var k := |e| - |u|;
    assert 0 <= k < 7;
    assert e == u + Repeat('=', k);
    PadWidth(|u|, k);
  }

  lemma PadWidth(n: nat, k: nat)
    requires (n + k) % 8 == 0 && k < 7
    ensures k == if n % 8 == 0 then 0 else 8 - n % 8
  {
  }

  /** Every spelling of the base32 form names the same key: padded or not, in any letter case. */
  lemma BaseFormAnySpelling(zone: Str, key: Str, text: Str, suffix: Str)
    requires key != [] && ToLower(suffix) == zone
    requires ToUpper(text) == Base32.Encode(key) || ToUpper(text) == Unpadded(Base32.Encode(key))
    ensures ParseKey(zone, "k-" + text + "." + suffix) == Some(key)
  {
    SpellingDecodes(key, text);
    var first := "k-" + text;
    SplitFirst(first, []);
    ParseBelowZone(zone, first, suffix);
    assert first[2..] == text;
  }

  /** Every spelling of a key's base32 is one label and decodes to the key. */
  lemma SpellingDecodes(key: Str, text: Str)
    requires key != [] && (ToUpper(text) == Base32.Encode(key) || ToUpper(text) == Unpadded(Base32.Encode(key)))
    ensures '.' !in text && Base32.Decode(PadTo8(ToUpper(text))) == Some(key)
  {
    Base32.EncodedShape(key);
    var e := Base32.Encode(key);
    forall i | 0 <= i < |text|
      ensures text[i] != '.'
    {
      assert ToUpper(text)[i] == e[i];
    }
    RepadUnpadded(key);
    Base32.RoundTrip(key);
  }

  lemma SafeIsLowerCase(key: Str)
    requires Safe(key)
    ensures ToLower(key) == key && '=' !in key
  {
    forall i | 0 <= i < |key|
      ensures !('A' <= key[i] <= 'Z') && key[i] != '='
    {
      if key[i] != '.' {
        InSomePart(key, key[i]);
      }
    }
  }

  lemma {:induction false} InSomePart(s: Str, c: octet)
    requires c in s && c != '.'
    ensures exists i :: 0 <= i < |Split(s)| && c in Split(s)[i]
  {
    var parts, rest := Split(s), Split(s[1..]);
    if s[0] == c {
      assert c in parts[0];
    } else {
      assert s == [s[0]] + s[1..];
      InSomePart(s[1..], c);
      var i :| 0 <= i < |rest| && c in rest[i];
      if s[0] == '.' {
        assert parts[i + 1] == rest[i];
      } else if i == 0 {
        assert parts[0] == [s[0]] + rest[0];
      } else {
        assert parts[i] == rest[i];
      }
    }
  }

  lemma DecodedShorter(raw: Str)
    requires '=' !in raw
    ensures var d := Base32.Decode(PadTo8(raw)); d.Some? ==> 8 * |d.value| <= 5 * |raw|
  {
    var padded := PadTo8(raw);
    Base32.SymbolsBound(raw);
    if |raw| % 8 != 0 {
      var pad := Repeat('=', 8 - |raw| % 8);
      Base32.SymbolsConcat(raw, pad);
      Base32.SymbolsBound(pad);
    }
    Base32.StripShrinks(padded);
    Base32.DecodedLength(Base32.StripNewlines(padded));
  }

  /** A reserved key is printed literally but parsed as base32, which can never give it back. */
  lemma ReservedNeverReturns(zone: Str, key: Str)
    requires ToLower(zone) == zone && Reserved(key)
    ensures ParseKey(zone, ItemName(zone, key)) != Some(key)
  {
    ParseBelowZone(zone, key, zone);
    FirstPart(key);
    SafeIsLowerCase(key);
    var raw := ToUpper(Split(key)[0][2..]);
    assert '=' !in raw;
    DecodedShorter(raw);
  }

  lemma {:induction false} FirstPart(s: Str)
    ensures Split(s)[0] <= s
    ensures |s| >= 2 && s[0] != '.' && s[1] != '.' ==> |Split(s)[0]| >= 2
  {
    if s != [] && s[0] != '.' {
      FirstPart(s[1..]);
      assert s == [s[0]] + s[1..];
      if |s| >= 2 && s[1] != '.' {
        var r := Split(s[1..]);
        assert s[1..][0] == s[1];
      }
    }
  }

  /** Printing then parsing is the identity on exactly the non-empty keys outside the reserved namespace. */
  lemma RoundTripExactly(zone: Str, key: Str)
    requires ToLower(zone) == zone
    ensures ParseKey(zone, ItemName(zone, key)) == Some(key) <==> key != [] && !Reserved(key)
  {
    if key == [] {
    } else if Reserved(key) {
      ReservedNeverReturns(zone, key);
    } else if Safe(key) {
      ParseBelowZone(zone, key, zone);
      FirstPart(key);
    } else {
      Base32.EncodedShape(key);
      UpperUndoesLower(Base32.Encode(key));
      BaseFormAnySpelling(zone, key, ToLower(Base32.Encode(key)), zone);
    }
  }

  /** Owner names are lower case, so any case variant of one reaches the same key once lower-cased. */
  lemma CaseInsensitive(zone: Str, key: Str, qname: Str)
    requires ToLower(zone) == zone && key != [] && !Reserved(key)
    requires EqualFold(qname, ItemName(zone, key))
    ensures ParseKey(zone, ToLower(qname)) == Some(key)
  {
    NamesAreLowerCase(zone, key);
    RoundTripExactly(zone, key);
  }

  lemma NamesAreLowerCase(zone: Str, key: Str)
    requires ToLower(zone) == zone
    ensures ToLower(ItemName(zone, key)) == ItemName(zone, key)
  {
    if key != [] {
      if Safe(key) {
        SafeIsLowerCase(key);
        ToLowerConcat(key + ".", zone);
        ToLowerConcat(key, ".");
      } else {
        var e := ToLower(Base32.Encode(key));
        assert ToLower(e) == e;
        ToLowerConcat("k-" + e + ".", zone);
        ToLowerConcat("k-" + e, ".");
        ToLowerConcat("k-", e);
      }
    }
  }

  /** `literal` is a reserved key spelling the base32 form of the unsafe key `key`. */
  predicate Shadows(literal: Str, key: Str) {
    Reserved(literal) && key != [] && !Safe(key) && literal == BaseForm(key)
  }

  lemma EncodingInjective(a: Str, b: Str)
    requires ToLower(Base32.Encode(a)) == ToLower(Base32.Encode(b))
    ensures a == b
  {
    Base32.EncodedShape(a);
    Base32.EncodedShape(b);
    UpperUndoesLower(Base32.Encode(a));
    UpperUndoesLower(Base32.Encode(b));
    Base32.RoundTrip(a);
    Base32.RoundTrip(b);
  }

  /** Exactly when two keys print as the same owner name. */
  lemma CollideExactly(zone: Str, a: Str, b: Str)
    ensures ItemName(zone, a) == ItemName(zone, b) <==> a == b || Shadows(a, b) || Shadows(b, a)
  {
    if a != [] && b != [] {
      var fa := if Safe(a) then a else BaseForm(a);
      var fb := if Safe(b) then b else BaseForm(b);
      assert ItemName(zone, a) == fa + "." + zone && ItemName(zone, b) == fb + "." + zone;
      assert (fa + "." + zone)[..|fa|] == fa && (fb + "." + zone)[..|fb|] == fb;
      assert ItemName(zone, a) == ItemName(zone, b) <==> fa == fb;
      if fa == fb && !Safe(a) && !Safe(b) {
        assert fa[2..] == ToLower(Base32.Encode(a)) && fb[2..] == ToLower(Base32.Encode(b));
        EncodingInjective(a, b);
      }
    }
  }

  /** Outside the reserved namespace, distinct keys have distinct owner names. */
  lemma UnreservedInjective(zone: Str, a: Str, b: Str)
    requires !Reserved(a) && !Reserved(b)
    ensures ItemName(zone, a) == ItemName(zone, b) ==> a == b
  {
    CollideExactly(zone, a, b);
  }

  /** The one other key, if any, that is printed as this key's owner name. */
  function Twin(key: Str): Option<Str> {
    if key != [] && !Safe(key) && Safe(BaseForm(key)) then Some(BaseForm(key))
    else if Reserved(key) then
      var spelled := Base32.Decode(ToUpper(key[2..]));
      if spelled.Some? && Shadows(key, spelled.value) then spelled else None
    else None
  }

  lemma ShadowedIsTwin(literal: Str, key: Str)
    requires Shadows(literal, key)
    ensures Twin(literal) == Some(key) && Twin(key) == Some(literal)
  {
    Base32.EncodedShape(key);
    UpperUndoesLower(Base32.Encode(key));
    assert literal[2..] == ToLower(Base32.Encode(key));
    Base32.RoundTrip(key);
  }

  /** Twins are exactly the distinct keys with one owner name; a key has at most one. */
  lemma TwinExactly(zone: Str, a: Str, b: Str)
    ensures Twin(a) == Some(b) <==> a != b && ItemName(zone, a) == ItemName(zone, b)
  {
    CollideExactly(zone, a, b);
    if Shadows(a, b) {
      ShadowedIsTwin(a, b);
    } else if Shadows(b, a) {
      ShadowedIsTwin(b, a);
    }
  }

  /** The collision is real: an unsafe key and a safe key with one owner name. */
  lemma CollisionExample(zone: Str)
    ensures ItemName(zone, "HELLO") == ItemName(zone, "k-jbcuytcp")
  {
    HelloIsShadowed();
    CollideExactly(zone, "k-jbcuytcp", "HELLO");
  }

  lemma SingleLabelSafe(key: Str)
    requires '.' !in key
    ensures Safe(key) <==> SafePart(key)
  {
    SplitFirst(key, []);
    assert Split(key)[0] == key;
  }

  lemma HelloIsShadowed()
    ensures Shadows("k-jbcuytcp", "HELLO")
  {
    SingleLabelSafe("HELLO");
    SingleLabelSafe("k-jbcuytcp");
    HelloIsUnsafe();
    LiteralIsSafe();
    HelloInBase32();
    LoweredHello();
  }

  lemma HelloIsUnsafe()
    ensures !SafePart("HELLO")
  {
    var key: Str := "HELLO";
    assert key[0] == 'H';
  }

  lemma LoweredHello()
    ensures "k-" + ToLower("JBCUYTCP") == "k-jbcuytcp"
  {
    var u: Str := "JBCUYTCP";
    var l: Str := "jbcuytcp";
    assert forall i :: 0 <= i < 8 ==> ToLower(u)[i] == l[i];
  }

  lemma LiteralIsSafe()
    ensures SafePart("k-jbcuytcp")
  {
  }

  lemma HelloInBase32()
    ensures Base32.Encode("HELLO") == "JBCUYTCP"
  {
    var z := Base32.ZeroPad("HELLO");
    assert z == "HELLO";
    assert Base32.Group(z, 0) == 9 && Base32.Group(z, 1) == 1 && Base32.Group(z, 2) == 2 && Base32.Group(z, 3) == 20;
    assert Base32.Group(z, 4) == 24 && Base32.Group(z, 5) == 19 && Base32.Group(z, 6) == 2 && Base32.Group(z, 7) == 15;
    assert Base32.EncodeQuantum("HELLO") == "JBCUYTCP";
  }

  // ---------- which names are in the zone, and which form is printed ----------

  /** Only names below the zone, in any letter case, have a key; when what stands before the zone does not start with
      "k-", it is the key. */
  lemma ParsedExactly(zone: Str, qname: Str)
    ensures ParseKey(zone, qname).Some? ==>
              exists rest: Str, suffix: Str :: rest != [] && ToLower(suffix) == zone && qname == rest + "." + suffix
    ensures forall rest: Str, suffix: Str ::
              rest != [] && ToLower(suffix) == zone && qname == rest + "." + suffix && !("k-" <= rest) ==>
                ParseKey(zone, qname) == Some(rest)
  {
    if ParseKey(zone, qname).Some? {
      var n := |qname| - |zone| - 1;
      var rest, suffix := qname[..n], qname[n + 1..];
      assert ToLower(qname)[n..] == "." + zone;
      assert ToLower(qname)[n] == '.';
      assert ToLower(suffix) == ToLower(qname)[n..][1..];
      assert qname == rest + "." + suffix;
    }
    forall rest: Str, suffix: Str |
      rest != [] && ToLower(suffix) == zone && qname == rest + "." + suffix && !("k-" <= rest)
      ensures ParseKey(zone, qname) == Some(rest)
    {
      ParseBelowZone(zone, rest, suffix);
      FirstPart(rest);
    }
  }

  /** Otherwise the key is what the rest of the first label spells; further labels do not matter. */
  lemma ParsedBase(zone: Str, text: Str, more: Str, suffix: Str)
    requires ToLower(suffix) == zone && '.' !in text && (more == [] || more[0] == '.')
    ensures ParseKey(zone, "k-" + text + more + "." + suffix) == Base32.Decode(PadTo8(ToUpper(text)))
  {
    var first := "k-" + text;
    if more == [] {
      SplitFirst(first, []);
      assert first + more == first;
    } else {
      SplitFirst(first, more[1..]);
      assert first + more == first + "." + more[1..];
    }
    ParseBelowZone(zone, first + more, suffix);
    assert Split(first + more)[0] == first && first[2..] == text;
  }

  predicate PlainChar(c: octet) {
    'a' <= c <= 'z' || '0' <= c <= '9' || c == '-' || c == '.'
  }

  /** A dot with a dot or hyphen beside it. */
  predicate Clash(a: octet, b: octet) {
    a in ".-" && b in ".-" && (a == '.' || b == '.')
  }

  predicate DotWithin64(s: Str, i: nat) {
    exists j :: i <= j < i + 64 && j < |s| && s[j] == '.'
  }

  /** Keys printed as they are, told from their characters. */
  predicate PlainKey(key: Str) {
    && key != []
    && (forall i :: 0 <= i < |key| ==> PlainChar(key[i]))
    && key[0] !in ".-" && key[|key| - 1] !in ".-"
    && (forall i :: 0 <= i < |key| - 1 ==> !Clash(key[i], key[i + 1]))
    && (forall i :: 0 <= i <= |key| - 64 ==> DotWithin64(key, i))
  }

  lemma PlainLabel(part: Str)
    requires '.' !in part
    ensures PlainKey(part) <==> SafePart(part)
  {
    assert !DotWithin64(part, 0);
  }

  lemma PlainHead(key: Str, n: nat)
    requires PlainKey(key) && n < |key| && key[n] == '.' && '.' !in key[..n]
    ensures PlainKey(key[..n])
  {
    var head := key[..n];
    assert n > 0;
    assert !Clash(key[n - 1], key[n]);
    forall i | 0 <= i < n - 1
      ensures !Clash(head[i], head[i + 1])
    {
      assert !Clash(key[i], key[i + 1]);
    }
    assert forall i :: 0 <= i < n ==> key[i] == head[i];
    assert |key| >= 64 ==> DotWithin64(key, 0);
    assert n < 64;
  }

  lemma PlainTail(key: Str, n: nat)
    requires PlainKey(key) && n < |key| && key[n] == '.'
    ensures PlainKey(key[n + 1..])
  {
    var tail := key[n + 1..];
    assert key[|key| - 1] != '.';
    assert !Clash(key[n], key[n + 1]);
    forall i | 0 <= i < |tail| - 1
      ensures !Clash(tail[i], tail[i + 1])
    {
      assert !Clash(key[n + 1 + i], key[n + 1 + i + 1]);
    }
    forall i | 0 <= i <= |tail| - 64
      ensures DotWithin64(tail, i)
    {
      assert DotWithin64(key, n + 1 + i);
      var j :| n + 1 + i <= j < n + 1 + i + 64 && j < |key| && key[j] == '.';
      assert tail[j - n - 1] == '.';
    }
  }

  lemma PlainJoined(head: Str, tail: Str)
    requires PlainKey(head) && PlainKey(tail) && '.' !in head
    ensures PlainKey(head + "." + tail)
  {
    var key, n := head + "." + tail, |head|;
    assert n >= 64 ==> DotWithin64(head, 0);
    assert n < 64;
    forall i | 0 <= i <= |key| - 64
      ensures DotWithin64(key, i)
    {
      if i <= n {
        assert key[n] == '.';
      } else {
        assert DotWithin64(tail, i - n - 1);
        var j :| i - n - 1 <= j < i - n - 1 + 64 && j < |tail| && tail[j] == '.';
        assert key[n + 1 + j] == '.';
      }
    }
    forall i | 0 <= i < |key| - 1
      ensures !Clash(key[i], key[i + 1])
    {
      if i < n - 1 {
        assert !Clash(head[i], head[i + 1]);
      } else if i > n {
        assert !Clash(tail[i - n - 1], tail[i - n]);
      }
    }
  }

  /** Splitting into labels and testing each comes to the same. */
  lemma {:induction false} SafeExactly(key: Str)
    ensures Safe(key) <==> PlainKey(key)
    decreases |key|
  {
    if '.' in key {
      var n := FirstDot(key);
      var head, tail := key[..n], key[n + 1..];
      assert key == head + "." + tail;
      SplitFirst(head, tail);
      PlainLabel(head);
      SafeExactly(tail);
      SafeTail(head, tail);
      if PlainKey(key) {
        PlainHead(key, n);
        PlainTail(key, n);
      } else if PlainKey(head) && PlainKey(tail) {
        PlainJoined(head, tail);
      }
    } else {
      SplitFirst(key, []);
      assert Split(key)[0] == key;
      PlainLabel(key);
    }
  }

  lemma {:induction false} FirstDot(s: Str) returns (n: nat)
    requires '.' in s
    ensures n < |s| && s[n] == '.' && '.' !in s[..n]
  {
    n := 0;
    if s[0] != '.' {
      assert s == [s[0]] + s[1..];
      var m := FirstDot(s[1..]);
      n := m + 1;
      assert s[..n] == [s[0]] + s[1..][..m];
    }
  }

  lemma SafeTail(head: Str, tail: Str)
    requires '.' !in head
    ensures Safe(head + "." + tail) <==> SafePart(head) && Safe(tail)
  {
    SplitFirst(head, tail);
    var parts, rest := Split(head + "." + tail), Split(tail);
    assert parts == [head] + rest;
    if Safe(head + "." + tail) {
      assert parts[0] == head;
      forall i | 0 <= i < |rest|
        ensures SafePart(rest[i])
      {
        assert rest[i] == parts[i + 1];
      }
    }
  }

  /** Which form a key is printed in: as it is exactly when it is made of lower-case letters, digits, hyphens and dots,
      neither dot nor hyphen is at an end, no dot has a dot or hyphen beside it, and no 64 characters in a row lack a
      dot; and otherwise in lower-case base32. */
  lemma PrintedExactly(zone: Str, key: Str)
    requires key != []
    ensures ItemName(zone, key) == key + "." + zone <==> PlainKey(key)
    ensures !PlainKey(key) ==> ItemName(zone, key) == "k-" + ToLower(Base32.Encode(key)) + "." + zone
  {
    SafeExactly(key);
    Base32.EncodingGrows(key);
    assert |BaseForm(key) + "." + zone| > |key + "." + zone|;
  }
}
