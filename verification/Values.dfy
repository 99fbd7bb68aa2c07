/** DynamoDB attribute values and plain JSON-ready values: flatten and unflatten of store.go. */
module Values {
  import opened Wrappers
  import opened Strings

  /** types.AttributeValue; Unknown is a member this program does not know. */
  datatype Attr =
    | S(s: Str)
    | N(n: Str)
    | B(b: Str)
    | BOOL(flag: bool)
    | NULL(isNull: bool)
    | SS(strings: seq<Str>)
    | NS(numbers: seq<Str>)
    | BS(blobs: seq<Str>)
    | L(items: seq<Attr>)
    | M(fields: map<Str, Attr>)
    | Unknown

  /** The Go values an item holds. Foreign is any other dynamic type. */
  datatype Value =
    | Nil
    | Text(text: Str)
    | Bool(flag: bool)
    | Float(f: real)
    | Number(literal: Str)
    | Texts(texts: seq<Str>)
    | List(elems: seq<Value>)
    | Object(fields: map<Str, Value>)
    | Foreign

  /** A stored item: a map of attributes. Go's nil map is a storable value that reads as "missing". */
  datatype Item = NilItem | Fields(attrs: map<Str, Value>)

  /** The library functions both directions use: base64 printing, float parsing, float printing. */
  datatype Codec = Codec(base64: Str -> Str, isNumber: Str -> bool, formatFloat: real -> Str)

  function Flatten(c: Codec, v: Attr): Option<Value> {
    match v
    case S(s) => Some(Text(s))
    case N(n) => JsonNumber(c, n)
    case B(b) => Some(Text(c.base64(b)))
    case BOOL(flag) => Some(Bool(flag))
    case NULL(_) => Some(Nil)
    case SS(ss) => Some(Texts(ss))
    case NS(ns) =>
      if forall i | 0 <= i < |ns| :: JsonNumber(c, ns[i]).Some?
      then Some(List(seq(|ns|, i requires 0 <= i < |ns| => JsonNumber(c, ns[i]).value)))
      else None
    case BS(bs) => Some(Texts(seq(|bs|, i requires 0 <= i < |bs| => c.base64(bs[i]))))
    case L(l) =>
      if forall i | 0 <= i < |l| :: Flatten(c, l[i]).Some?
      then Some(List(seq(|l|, i requires 0 <= i < |l| => Flatten(c, l[i]).value)))
      else None
    case M(m) =>
      if forall k | k in m :: Flatten(c, m[k]).Some?
      then Some(Object(map k | k in m :: Flatten(c, m[k]).value))
      else None
    case Unknown => None
  }

  function JsonNumber(c: Codec, n: Str): (r: Option<Value>) {
    if c.isNumber(n) then Some(Number(n)) else None
  }

  function Unflatten(c: Codec, v: Value): Option<Attr> {
    match v
    case Nil => Some(NULL(true))
    case Text(t) => Some(S(t))
    case Bool(flag) => Some(BOOL(flag))
    case Float(f) => Some(N(c.formatFloat(f)))
    case Number(lit) => Some(N(lit))
    case Texts(ts) => Some(SS(ts))
    case List(es) =>
      if forall i | 0 <= i < |es| :: Unflatten(c, es[i]).Some?
      then Some(L(seq(|es|, i requires 0 <= i < |es| => Unflatten(c, es[i]).value)))
      else None
    case Object(m) =>
      if forall k | k in m :: Unflatten(c, m[k]).Some?
      then Some(M(map k | k in m :: Unflatten(c, m[k]).value))
      else None
    case Foreign => None
  }

  /** The tree a read followed by a write leaves in the table. */
  function Normal(c: Codec, v: Attr): Attr {
    match v
    case B(b) => S(c.base64(b))
    case NULL(_) => NULL(true)
    case NS(ns) => L(seq(|ns|, i requires 0 <= i < |ns| => N(ns[i])))
    case BS(bs) => SS(seq(|bs|, i requires 0 <= i < |bs| => c.base64(bs[i])))
    case L(l) => L(seq(|l|, i requires 0 <= i < |l| => Normal(c, l[i])))
    case M(m) => M(map k | k in m :: Normal(c, m[k]))
    case _ => v
  }

  /** Trees built only from strings, numbers, booleans, NULL(true), string sets, lists and maps, and from members this
      program does not know, which have no other form (and cannot be read). */
  predicate Reversible(v: Attr) {
    match v
    case S(_) | N(_) | BOOL(_) | SS(_) | Unknown => true
    case NULL(isNull) => isNull
    case L(l) => forall i :: 0 <= i < |l| ==> Reversible(l[i])
    case M(m) => forall k :: k in m ==> Reversible(m[k])
    case B(_) | NS(_) | BS(_) => false
  }

  /** Writing back what was read always succeeds and stores the normal form. */
  lemma {:induction false} ReadThenWrite(c: Codec, v: Attr)
    requires Flatten(c, v).Some?
    ensures Unflatten(c, Flatten(c, v).value) == Some(Normal(c, v))
  {
    match v
    case L(l) =>
      var flat := Flatten(c, v).value;
      forall i | 0 <= i < |l|
        ensures Unflatten(c, flat.elems[i]) == Some(Normal(c, l[i]))
      {
        ReadThenWrite(c, l[i]);
      }
      assert Unflatten(c, flat).value.items == Normal(c, v).items;
    case M(m) =>
      var flat := Flatten(c, v).value;
      forall k | k in m
        ensures Unflatten(c, flat.fields[k]) == Some(Normal(c, m[k]))
      {
        ReadThenWrite(c, m[k]);
      }
      assert Unflatten(c, flat).value.fields == Normal(c, v).fields;
    case NS(ns) =>
      var flat := Flatten(c, v).value;
      assert forall i :: 0 <= i < |ns| ==> Unflatten(c, flat.elems[i]) == Some(N(ns[i]));
      assert Unflatten(c, flat).value.items == Normal(c, v).items;
    case _ =>
  }

  lemma SameElements(c: Codec, n: seq<Attr>, l: seq<Attr>)
    requires |n| == |l| && forall i :: 0 <= i < |l| ==> Flatten(c, n[i]) == Flatten(c, l[i])
    ensures Flatten(c, L(n)) == Flatten(c, L(l))
  {
    if forall i | 0 <= i < |l| :: Flatten(c, l[i]).Some? {
      assert Flatten(c, L(n)).value.elems == Flatten(c, L(l)).value.elems;
    } else {
      var i :| 0 <= i < |l| && Flatten(c, l[i]).None?;
      assert Flatten(c, n[i]).None?;
    }
  }

  lemma SameFields(c: Codec, n: map<Str, Attr>, m: map<Str, Attr>)
    requires n.Keys == m.Keys && forall k :: k in m ==> Flatten(c, n[k]) == Flatten(c, m[k])
    ensures Flatten(c, M(n)) == Flatten(c, M(m))
  {
    if forall k | k in m :: Flatten(c, m[k]).Some? {
      assert Flatten(c, M(n)).value.fields == Flatten(c, M(m)).value.fields;
    } else {
      var k :| k in m && Flatten(c, m[k]).None?;
      assert k in n && Flatten(c, n[k]).None?;
    }
  }

  lemma SameNumbers(c: Codec, ns: seq<Str>)
    ensures Flatten(c, L(seq(|ns|, i requires 0 <= i < |ns| => N(ns[i])))) == Flatten(c, NS(ns))
  {
    var n := seq(|ns|, i requires 0 <= i < |ns| => N(ns[i]));
    assert forall i :: 0 <= i < |ns| ==> Flatten(c, n[i]) == JsonNumber(c, ns[i]);
    if forall i | 0 <= i < |ns| :: JsonNumber(c, ns[i]).Some? {
      assert Flatten(c, L(n)).value.elems == Flatten(c, NS(ns)).value.elems;
    } else {
      var i :| 0 <= i < |ns| && JsonNumber(c, ns[i]).None?;
      assert Flatten(c, n[i]).None?;
    }
  }

  /** Reading the normal form succeeds exactly when reading the original does, with the same value. */
  lemma {:induction false} NormalReadsTheSame(c: Codec, v: Attr)
    ensures Flatten(c, Normal(c, v)) == Flatten(c, v)
  {
    match v
    case L(l) =>
      forall i | 0 <= i < |l|
        ensures Flatten(c, Normal(c, l[i])) == Flatten(c, l[i])
      {
        NormalReadsTheSame(c, l[i]);
      }
      SameElements(c, Normal(c, v).items, l);
    case M(m) =>
      forall k | k in m
        ensures Flatten(c, Normal(c, m[k])) == Flatten(c, m[k])
      {
        NormalReadsTheSame(c, m[k]);
      }
      SameFields(c, Normal(c, v).fields, m);
    case NS(ns) =>
      SameNumbers(c, ns);
    case _ =>
  }

  lemma {:induction false} NormalIsReversible(c: Codec, v: Attr)
    ensures Reversible(Normal(c, v))
  {
    match v
    case L(l) =>
      forall i | 0 <= i < |l|
        ensures Reversible(Normal(c, v).items[i])
      {
        NormalIsReversible(c, l[i]);
      }
    case M(m) =>
      forall k | k in m
        ensures Reversible(Normal(c, v).fields[k])
      {
        NormalIsReversible(c, m[k]);
      }
    case _ =>
  }

  /** The normal form is the tree itself exactly for the reversible trees. */
  lemma {:induction false} FixedExactly(c: Codec, v: Attr)
    ensures Normal(c, v) == v <==> Reversible(v)
  {
    match v
    case L(l) =>
      var n := Normal(c, v).items;
      forall i | 0 <= i < |l|
        ensures n[i] == l[i] <==> Reversible(l[i])
      {
        FixedExactly(c, l[i]);
      }
      if Reversible(v) {
        assert n == l;
      } else {
        var i :| 0 <= i < |l| && !Reversible(l[i]);
        assert n[i] != l[i];
      }
    case M(m) =>
      var n := Normal(c, v).fields;
      forall k | k in m
        ensures n[k] == m[k] <==> Reversible(m[k])
      {
        FixedExactly(c, m[k]);
      }
      if Reversible(v) {
        assert n == m;
      } else {
        var k :| k in m && !Reversible(m[k]);
        assert n[k] != m[k];
      }
    case _ =>
  }

  /** Read, write, read again: the write succeeds, the second read gives the same value,
      a second round changes nothing, and the first changes nothing exactly for reversible trees. */
  lemma ReadWriteReadStable(c: Codec, v: Attr)
    requires Flatten(c, v).Some?
    ensures var w := Unflatten(c, Flatten(c, v).value);
            && w.Some?
            && Flatten(c, w.value) == Flatten(c, v)
            && Unflatten(c, Flatten(c, w.value).value) == w
            && (w.value == v <==> Reversible(v))
  {
    ReadThenWrite(c, v);
    NormalReadsTheSame(c, v);
    FixedExactly(c, v);
  }

  // ---------- what can be read, what can be written ----------

  /** Every number of the tree parses, and the program knows every member. */
  predicate Readable(c: Codec, v: Attr) {
    match v
    case N(n) => c.isNumber(n)
    case NS(ns) => forall i :: 0 <= i < |ns| ==> c.isNumber(ns[i])
    case L(l) => forall i :: 0 <= i < |l| ==> Readable(c, l[i])
    case M(m) => forall k :: k in m ==> Readable(c, m[k])
    case Unknown => false
    case _ => true
  }

  /** Reading fails exactly on a number that does not parse or a member the program does not know, at any depth. */
  lemma {:induction false} FlattenExactly(c: Codec, v: Attr)
    ensures Flatten(c, v).Some? <==> Readable(c, v)
  {
    match v
    case L(l) =>
      forall i | 0 <= i < |l|
        ensures Flatten(c, l[i]).Some? <==> Readable(c, l[i])
      {
        FlattenExactly(c, l[i]);
      }
    case M(m) =>
      forall k | k in m
        ensures Flatten(c, m[k]).Some? <==> Readable(c, m[k])
      {
        FlattenExactly(c, m[k]);
      }
    case NS(ns) =>
      assert forall i :: 0 <= i < |ns| ==> (JsonNumber(c, ns[i]).Some? <==> c.isNumber(ns[i]));
    case _ =>
  }

  /** Some part of the value has a type the program cannot write. */
  predicate HasForeign(v: Value) {
    match v
    case List(es) => exists i :: 0 <= i < |es| && HasForeign(es[i])
    case Object(m) => exists k :: k in m && HasForeign(m[k])
    case Foreign => true
    case _ => false
  }

  /** Writing fails exactly on values with such a part. */
  lemma {:induction false} UnflattenExactly(c: Codec, v: Value)
    ensures Unflatten(c, v).None? <==> HasForeign(v)
  {
    match v
    case List(es) =>
      forall i | 0 <= i < |es|
        ensures Unflatten(c, es[i]).None? <==> HasForeign(es[i])
      {
        UnflattenExactly(c, es[i]);
      }
    case Object(m) =>
      forall k | k in m
        ensures Unflatten(c, m[k]).None? <==> HasForeign(m[k])
      {
        UnflattenExactly(c, m[k]);
      }
    case _ =>
  }

  /** What a value becomes in the table: each float the number its printed form spells. */
  function Printed(c: Codec, v: Value): Value {
    match v
    case Float(f) => Number(c.formatFloat(f))
    case List(es) => List(seq(|es|, i requires 0 <= i < |es| => Printed(c, es[i])))
    case Object(m) => Object(map k | k in m :: Printed(c, m[k]))
    case _ => v
  }

  /** The printed form of every float, and every literal, parses as a number. */
  predicate NumbersParse(c: Codec, v: Value) {
    match v
    case Float(f) => c.isNumber(c.formatFloat(f))
    case Number(lit) => c.isNumber(lit)
    case List(es) => forall i :: 0 <= i < |es| ==> NumbersParse(c, es[i])
    case Object(m) => forall k :: k in m ==> NumbersParse(c, m[k])
    case _ => true
  }

  lemma ListWritten(c: Codec, es: seq<Value>, l: seq<Attr>)
    requires |l| == |es|
    requires forall i :: 0 <= i < |es| ==>
               Flatten(c, l[i]) == if NumbersParse(c, es[i]) then Some(Printed(c, es[i])) else None
    ensures Flatten(c, L(l)) == if NumbersParse(c, List(es)) then Some(Printed(c, List(es))) else None
  {
    if NumbersParse(c, List(es)) {
      assert forall i :: 0 <= i < |l| ==> Flatten(c, l[i]).Some?;
      assert Flatten(c, L(l)).value.elems == Printed(c, List(es)).elems;
    } else {
      var i :| 0 <= i < |es| && !NumbersParse(c, es[i]);
      assert Flatten(c, l[i]).None?;
    }
  }

  lemma ObjectWritten(c: Codec, m: map<Str, Value>, w: map<Str, Attr>)
    requires w.Keys == m.Keys
    requires forall k :: k in m ==> Flatten(c, w[k]) == if NumbersParse(c, m[k]) then Some(Printed(c, m[k])) else None
    ensures Flatten(c, M(w)) == if NumbersParse(c, Object(m)) then Some(Printed(c, Object(m))) else None
  {
    if NumbersParse(c, Object(m)) {
      assert forall k :: k in w ==> Flatten(c, w[k]).Some?;
      assert Flatten(c, M(w)).value.fields == Printed(c, Object(m)).fields;
    } else {
      var k :| k in m && !NumbersParse(c, m[k]);
      assert k in w && Flatten(c, w[k]).None?;
    }
  }

  /** Write, then read: it succeeds exactly when every number parses, and gives the value back with each float turned
      into the number its printed form spells. */
  lemma {:induction false} WriteThenRead(c: Codec, v: Value)
    requires Unflatten(c, v).Some?
    ensures Flatten(c, Unflatten(c, v).value) == if NumbersParse(c, v) then Some(Printed(c, v)) else None
  {
    match v
    case List(es) =>
      var l := Unflatten(c, v).value.items;
      forall i | 0 <= i < |es|
        ensures Flatten(c, l[i]) == if NumbersParse(c, es[i]) then Some(Printed(c, es[i])) else None
      {
        WriteThenRead(c, es[i]);
      }
      ListWritten(c, es, l);
    case Object(m) =>
      var w := Unflatten(c, v).value.fields;
      forall k | k in m
        ensures Flatten(c, w[k]) == if NumbersParse(c, m[k]) then Some(Printed(c, m[k])) else None
      {
        WriteThenRead(c, m[k]);
      }
      ObjectWritten(c, m, w);
    case _ =>
  }
}
