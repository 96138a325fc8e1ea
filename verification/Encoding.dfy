/** The order-preserving byte encoding of typed tuples (src/encoding/order_preserving.cpp). */
module OrderPreserving {
  import opened Bytes

  const SIGN_BIT: int := 0x8000_0000_0000_0000

  type Int64 = x: int | -0x8000_0000_0000_0000 <= x < 0x8000_0000_0000_0000

  datatype Type = INT_64 | BYTES | ERROR

  datatype Value = Int(n: Int64) | Str(s: Key) | Err
  {
    function Type(): Type
    {
      match this
      case Int(_) => INT_64
      case Str(_) => BYTES
      case Err => ERROR
    }
  }

  datatype Option<T> = None | Some(value: T)

  // ------------------------------------------------------------ diverging codes

  /** a and b differ before either ends, and a's byte there is the smaller. */
  predicate Diverges(a: Key, b: Key)
  {
    |a| > 0 && |b| > 0 && (a[0] < b[0] || (a[0] == b[0] && Diverges(a[1..], b[1..])))
  }

  /** Whatever follows two codes that diverge, they order the same way. */
  lemma {:induction false} DivergesLt(a: Key, b: Key, x: Key, y: Key)
    requires Diverges(a, b)
    ensures Lt(a + x, b + y) && Diverges(a + x, b + y)
  {
    assert (a + x)[0] == a[0] && (b + y)[0] == b[0];
    if a[0] == b[0] {
      DivergesLt(a[1..], b[1..], x, y);
      assert (a + x)[1..] == a[1..] + x && (b + y)[1..] == b[1..] + y;
    }
  }

  lemma {:induction false} DivergesAfter(p: Key, a: Key, b: Key)
    requires Diverges(a, b)
    ensures Diverges(p + a, p + b)
  {
    if p == [] {
      assert p + a == a && p + b == b;
    } else {
      DivergesAfter(p[1..], a, b);
      assert (p + a)[1..] == p[1..] + a && (p + b)[1..] == p[1..] + b;
    }
  }

  /** A shared prefix does not change the order. */
  lemma {:induction false} LtAfter(p: Key, a: Key, b: Key)
    ensures Lt(p + a, p + b) <==> Lt(a, b)
  {
    if p == [] {
      assert p + a == a && p + b == b;
    } else {
      LtAfter(p[1..], a, b);
      assert (p + a)[1..] == p[1..] + a && (p + b)[1..] == p[1..] + b;
    }
  }

  // ------------------------------------------------------------ integers

  function Power(n: nat): (r: nat)
    ensures r > 0
  {
    if n == 0 then 1 else 256 * Power(n - 1)
  }

  /** The low n bytes of u, most significant first. */
  function BigEndian(u: nat, n: nat): (r: Key)
    ensures |r| == n
  {
    if n == 0 then [] else BigEndian(u / 256, n - 1) + [u % 256]
  }

  function FromBigEndian(b: Key): nat
  {
    if b == [] then 0 else FromBigEndian(b[..|b| - 1]) * 256 + b[|b| - 1]
  }

  lemma {:induction false} FromBigEndianOf(u: nat, n: nat)
    requires u < Power(n)
    ensures FromBigEndian(BigEndian(u, n)) == u
  {
    if n > 0 {
      FromBigEndianOf(u / 256, n - 1);
      assert BigEndian(u, n)[..n - 1] == BigEndian(u / 256, n - 1);
    }
  }

  lemma {:induction false} BigEndianOf(b: Key)
    ensures FromBigEndian(b) < Power(|b|) && BigEndian(FromBigEndian(b), |b|) == b
  {
    if b != [] {
      var front, last := b[..|b| - 1], b[|b| - 1];
      BigEndianOf(front);
      assert b == front + [last];
      assert FromBigEndian(b) / 256 == FromBigEndian(front) && FromBigEndian(b) % 256 == last;
    }
  }

  lemma {:induction false} BigEndianOrder(u: nat, w: nat, n: nat)
    requires u < w < Power(n)
    ensures Diverges(BigEndian(u, n), BigEndian(w, n))
  {
    if n > 0 {
      var a, b := BigEndian(u / 256, n - 1), BigEndian(w / 256, n - 1);
      if u / 256 < w / 256 {
        BigEndianOrder(u / 256, w / 256, n - 1);
        DivergesLt(a, b, [u % 256], [w % 256]);
      } else {
        assert u / 256 == w / 256 && u % 256 < w % 256;
        DivergesAfter(a, [u % 256], [w % 256]);
      }
    }
  }

  lemma Power8()
    ensures Power(8) == 0x1_0000_0000_0000_0000 == 2 * SIGN_BIT
  {
    assert Power(0) == 1 && Power(1) == 256 && Power(2) == 0x1_0000 && Power(3) == 0x100_0000;
    assert Power(4) == 0x1_0000_0000 && Power(5) == 0x100_0000_0000 && Power(6) == 0x1_0000_0000_0000;
    assert Power(7) == 0x100_0000_0000_0000;
  }

  /** Signed order as byte order: adding 2^63 makes every number a nat, which BigEndian keeps in order. */
  function IntCode(v: Int64): (r: Key)
    ensures |r| == 8
  {
    BigEndian(v + SIGN_BIT, 8)
  }

  function FromIntCode(b: Key): Int64
    requires |b| == 8
  {
    BigEndianOf(b);
    Power8();
    FromBigEndian(b) - SIGN_BIT
  }

  /** u >> 8 * k */
  function ShiftRight(u: nat, k: nat): nat
  {
    if k == 0 then u else ShiftRight(u, k - 1) / 256
  }

  lemma {:induction false} ShiftedBelow(u: nat, n: nat, k: nat)
    requires u < Power(n) && k <= n
    ensures ShiftRight(u, k) < Power(n - k)
  {
    if k > 0 {
      ShiftedBelow(u, n, k - 1);
    }
  }

  method EncodeInt64(out: Key, v: Int64) returns (r: Key)
    ensures r == out + IntCode(v)
  {
    var u := v + SIGN_BIT;
    r := out;
    Power8();
    ShiftedBelow(u, 8, 8);
    var shift := 56;
    while shift >= 0
      invariant -8 <= shift <= 56 && shift % 8 == 0
      invariant r == out + BigEndian(ShiftRight(u, shift / 8 + 1), 7 - shift / 8)
      decreases shift + 8
    {
      var byte := ShiftRight(u, shift / 8) % 256;
      r := r + [byte];
      shift := shift - 8;
    }
  }

  method DecodeInt64(data: Key, pos: nat) returns (r: Option<Int64>, next: nat)
    requires pos <= |data|
    ensures r.None? <==> |data| < pos + 8
    ensures r.Some? ==> next == pos + 8 && r.value == FromIntCode(data[pos..pos + 8])
    ensures r.None? ==> next == pos
  {
    next := pos;
    if pos + 8 > |data| {
      return None, pos;
    }
    var u := 0;
    for i := 0 to 8
      invariant u == FromBigEndian(data[pos..pos + i])
    {
      assert data[pos..pos + i + 1][..i] == data[pos..pos + i];
      u := u * 256 + data[pos + i];
    }
    next := pos + 8;
    BigEndianOf(data[pos..pos + 8]);
    Power8();
    r := Some(u - SIGN_BIT);
  }

  // ------------------------------------------------------------ strings

  /** 0 becomes 1 1 and 1 becomes 1 2, so no 0 is left to end a string early. */
  function EscapeRest(s: Key): Key
  {
    if s == [] then [] else (if s[0] <= 1 then [1, s[0] + 1] else [s[0]]) + EscapeRest(s[1..])
  }

  /** A leading 0xfe or 0xff gets a 0xfe before it, so no code starts with 0xff. */
  function EscapeHead(s: Key): Key
  {
    if s != [] && s[0] >= 0xfe then [0xfe] else []
  }

  function Escape(s: Key): Key
  {
    EscapeHead(s) + EscapeRest(s)
  }

  function UnescapeRest(s: Key): Option<Key>
  {
    if s == [] then Some([])
    else if s[0] != 1 then
      match UnescapeRest(s[1..])
      case None => None
      case Some(t) => Some([s[0]] + t)
    else if |s| == 1 || (s[1] != 1 && s[1] != 2) then None
    else
      match UnescapeRest(s[2..])
      case None => None
      case Some(t) => Some([s[1] - 1] + t)
  }

  function Unescape(s: Key): Option<Key>
  {
    if s != [] && s[0] >= 0xfe then
      if s[0] != 0xfe || |s| < 2 || s[1] < 0xfe then None else UnescapeRest(s[1..])
    else UnescapeRest(s)
  }

  lemma {:induction false} EscapeRestAppend(a: Key, b: Key)
    ensures EscapeRest(a + b) == EscapeRest(a) + EscapeRest(b)
  {
    if a == [] {
      assert a + b == b;
    } else {
      assert (a + b)[1..] == a[1..] + b;
      EscapeRestAppend(a[1..], b);
    }
  }

  method EscapeString(s: Key) returns (out: Key)
    ensures out == Escape(s)
  {
    out := [];
    if s != [] && s[0] >= 0xfe {
      out := out + [0xfe];
    }
    for i := 0 to |s|
      invariant out == EscapeHead(s) + EscapeRest(s[..i])
    {
      EscapeRestAppend(s[..i], [s[i]]);
      assert s[..i + 1] == s[..i] + [s[i]];
      assert [s[i]][1..] == [] && EscapeRest([s[i]]) == if s[i] <= 1 then [1, s[i] + 1] else [s[i]];
      if s[i] <= 1 {
        out := out + [1];
        out := out + [s[i] + 1];
      } else {
        out := out + [s[i]];
      }
    }
    assert s[..|s|] == s;
  }

  method UnescapeString(s: Key) returns (r: Option<Key>)
    ensures r == Unescape(s)
  {
    var out: Key := [];
    var i := 0;
    if s != [] && s[0] >= 0xfe {
      if s[0] != 0xfe || |s| < 2 || s[1] < 0xfe {
        return None;
      }
      i := 1;
    }
    assert forall t: Key :: out + t == t;
    while i < |s|
      invariant 0 <= i <= |s|
      invariant Unescape(s) == match UnescapeRest(s[i..]) case None => None case Some(t) => Some(out + t)
    {
      assert s[i..][1..] == s[i + 1..];
      if s[i] != 1 {
        ghost var before := out;
        out := out + [s[i]];
        assert forall t: Key :: before + ([s[i]] + t) == out + t;
        i := i + 1;
      } else {
        if i + 1 == |s| || (s[i + 1] != 1 && s[i + 1] != 2) {
          return None;
        }
        assert s[i..][2..] == s[i + 2..];
        ghost var before := out;
        out := out + [s[i + 1] - 1];
        assert forall t: Key :: before + ([s[i + 1] - 1] + t) == out + t;
        i := i + 2;
      }
    }
    assert s[i..] == [] && out + [] == out;
    r := Some(out);
  }

  /** Escaped, then a 0 at the end. */
  function StrCode(s: Key): Key
  {
    Escape(s) + [0]
  }

  predicate NoZero(s: Key)
  {
    forall i :: 0 <= i < |s| ==> s[i] != 0
  }

  lemma {:induction false} EscapeRestFacts(s: Key)
    ensures NoZero(EscapeRest(s)) && UnescapeRest(EscapeRest(s)) == Some(s)
    ensures s == [] <==> EscapeRest(s) == []
    ensures s != [] ==> EscapeRest(s)[0] == if s[0] <= 1 then 1 else s[0]
  {
    if s != [] {
      EscapeRestFacts(s[1..]);
      var e := EscapeRest(s);
      if s[0] <= 1 {
        assert e[2..] == EscapeRest(s[1..]);
      } else {
        assert e[1..] == EscapeRest(s[1..]);
      }
      assert s == [s[0]] + s[1..];
    }
  }

  lemma EscapeFacts(s: Key)
    ensures NoZero(Escape(s)) && Unescape(Escape(s)) == Some(s)
    ensures Escape(s) != [] ==> Escape(s)[0] != 0xff
  {
    EscapeRestFacts(s);
    if s != [] && s[0] >= 0xfe {
      assert Escape(s)[1..] == EscapeRest(s);
    } else {
      assert Escape(s) == EscapeRest(s);
    }
  }

  /** Nothing unescapes to s but its escape. */
  lemma {:induction false} UnescapeRestFacts(x: Key)
    requires NoZero(x) && UnescapeRest(x).Some?
    ensures EscapeRest(UnescapeRest(x).value) == x
  {
    if x != [] {
      var s := UnescapeRest(x).value;
      if x[0] != 1 {
        UnescapeRestFacts(x[1..]);
        assert s[1..] == UnescapeRest(x[1..]).value && s[0] == x[0];
        assert x == [x[0]] + x[1..];
      } else {
        UnescapeRestFacts(x[2..]);
        assert s[1..] == UnescapeRest(x[2..]).value && s[0] == x[1] - 1;
        assert x == [1, x[1]] + x[2..];
      }
    }
  }

  lemma UnescapeHead(x: Key)
    ensures x != [] && x[0] < 0xfe && UnescapeRest(x).Some? ==> UnescapeRest(x).value != [] && UnescapeRest(x).value[0] < 0xfe
    ensures x != [] && x[0] >= 0xfe && UnescapeRest(x).Some? ==> UnescapeRest(x).value != [] && UnescapeRest(x).value[0] >= 0xfe
    ensures UnescapeRest([]) == Some([])
  {
  }

  lemma UnescapeFacts(x: Key)
    requires NoZero(x) && Unescape(x).Some?
    ensures Escape(Unescape(x).value) == x
  {
    hide EscapeRest, UnescapeRest;
    UnescapeHead(x);
    if x != [] && x[0] >= 0xfe {
      UnescapeHead(x[1..]);
      UnescapeRestFacts(x[1..]);
      assert x == [0xfe] + x[1..];
    } else {
      UnescapeRestFacts(x);
      assert [] + x == x;
    }
  }

  lemma {:induction false} EscapeRestOrder(a: Key, b: Key)
    requires Lt(a, b)
    ensures Diverges(EscapeRest(a) + [0], EscapeRest(b) + [0])
  {
    EscapeRestFacts(a);
    EscapeRestFacts(b);
    var ea, eb := EscapeRest(a) + [0], EscapeRest(b) + [0];
    if a != [] {
      if a[0] < b[0] {
        assert a[0] <= 1 && b[0] <= 1 ==> ea[1] < eb[1] && ea[0] == eb[0];
      } else {
        EscapeRestOrder(a[1..], b[1..]);
        var p := if a[0] <= 1 then [1, a[0] + 1] else [a[0]];
        DivergesAfter(p, EscapeRest(a[1..]) + [0], EscapeRest(b[1..]) + [0]);
        assert ea == p + (EscapeRest(a[1..]) + [0]) && eb == p + (EscapeRest(b[1..]) + [0]);
      }
    }
  }

  lemma StrCodeParts(s: Key)
    ensures StrCode(s) == EscapeHead(s) + (EscapeRest(s) + [0])
    ensures StrCode(s)[0] == if s == [] then 0 else if s[0] >= 0xfe then 0xfe else if s[0] <= 1 then 1 else s[0]
  {
    EscapeRestFacts(s);
  }

  lemma StrCodeOrder(a: Key, b: Key)
    requires Lt(a, b)
    ensures Diverges(StrCode(a), StrCode(b))
  {
    hide StrCode, EscapeRest;
    StrCodeParts(a);
    StrCodeParts(b);
    if EscapeHead(a) == EscapeHead(b) {
      EscapeRestOrder(a, b);
      DivergesAfter(EscapeHead(a), EscapeRest(a) + [0], EscapeRest(b) + [0]);
    } else {
      assert StrCode(a)[0] < StrCode(b)[0];
    }
  }

  // ------------------------------------------------------------ tuples

  function Types(vs: seq<Value>): seq<Type>
  {
    seq(|vs|, i requires 0 <= i < |vs| => vs[i].Type())
  }

  /** The slots of a tuple that can be stored: no Err among them. */
  predicate Storable(vs: seq<Value>)
  {
    forall i :: 0 <= i < |vs| ==> !vs[i].Err?
  }

  function Code(v: Value): Key
    requires !v.Err?
  {
    match v
    case Int(n) => IntCode(n)
    case Str(s) => StrCode(s)
  }

  function Encode(vs: seq<Value>): Key
    requires Storable(vs)
  {
    if vs == [] then [] else Code(vs[0]) + Encode(vs[1..])
  }

  predicate ValueLt(a: Value, b: Value)
  {
    (a.Int? && b.Int? && a.n < b.n) || (a.Str? && b.Str? && Lt(a.s, b.s))
  }

  /** Column by column, the first difference decides; for tuples of the same types. */
  predicate TupleLt(a: seq<Value>, b: seq<Value>)
    requires |a| == |b|
  {
    a != [] && (ValueLt(a[0], b[0]) || (a[0] == b[0] && TupleLt(a[1..], b[1..])))
  }

  lemma CodeOrder(a: Value, b: Value)
    requires ValueLt(a, b)
    ensures Diverges(Code(a), Code(b))
  {
    if a.Int? {
      Power8();
      BigEndianOrder(a.n + SIGN_BIT, b.n + SIGN_BIT, 8);
    } else {
      StrCodeOrder(a.s, b.s);
    }
  }

  lemma ValuesTotal(a: Value, b: Value)
    requires a.Type() == b.Type() && !a.Err?
    ensures ValueLt(a, b) || a == b || ValueLt(b, a)
    ensures !(ValueLt(a, b) && ValueLt(b, a)) && !ValueLt(a, a)
  {
    LtIsStrictTotalOrder();
  }

  /** Smaller tuples have smaller codes. */
  lemma {:induction false} EncodeMonotone(a: seq<Value>, b: seq<Value>)
    requires Storable(a) && Storable(b) && |a| == |b| && TupleLt(a, b)
    ensures Diverges(Encode(a), Encode(b))
  {
    if ValueLt(a[0], b[0]) {
      CodeOrder(a[0], b[0]);
      DivergesLt(Code(a[0]), Code(b[0]), Encode(a[1..]), Encode(b[1..]));
    } else {
      EncodeMonotone(a[1..], b[1..]);
      DivergesAfter(Code(a[0]), Encode(a[1..]), Encode(b[1..]));
    }
  }

  lemma {:induction false} TuplesTotal(a: seq<Value>, b: seq<Value>)
    requires Types(a) == Types(b) && Storable(a)
    ensures |a| == |b| && (TupleLt(a, b) || a == b || TupleLt(b, a))
  {
    assert |Types(a)| == |Types(b)|;
    if a != [] {
      assert Types(a)[0] == Types(b)[0] && Types(a)[1..] == Types(b)[1..];
      assert Types(a[1..]) == Types(a)[1..] && Types(b[1..]) == Types(b)[1..];
      ValuesTotal(a[0], b[0]);
      TuplesTotal(a[1..], b[1..]);
      assert a == [a[0]] + a[1..] && b == [b[0]] + b[1..];
    }
  }

  lemma TypesStorable(a: seq<Value>, b: seq<Value>)
    requires Types(a) == Types(b) && Storable(a)
    ensures Storable(b)
  {
    forall i | 0 <= i < |b|
      ensures !b[i].Err?
    {
      assert Types(a)[i] == Types(b)[i];
    }
  }

  lemma DivergesIsLt(a: Key, b: Key)
    requires Diverges(a, b)
    ensures Lt(a, b)
  {
    DivergesLt(a, b, [], []);
    assert a + [] == a && b + [] == b;
  }

  /** encode_values is an order isomorphism: byte order of the codes is value order of the tuples, both ways. */
  lemma EncodeIsOrderIsomorphism(a: seq<Value>, b: seq<Value>)
    requires Types(a) == Types(b) && Storable(a)
    ensures |a| == |b| && Storable(b)
    ensures Lt(Encode(a), Encode(b)) <==> TupleLt(a, b)
    ensures Encode(a) == Encode(b) <==> a == b
  {
    hide Encode, TupleLt, Types, Diverges;
    TypesStorable(a, b);
    TuplesTotal(a, b);
    LtIsStrictTotalOrder();
    if TupleLt(a, b) {
      EncodeMonotone(a, b);
      DivergesIsLt(Encode(a), Encode(b));
      TupleIrreflexive(a, b);
    } else if TupleLt(b, a) {
      EncodeMonotone(b, a);
      DivergesIsLt(Encode(b), Encode(a));
      TupleIrreflexive(b, a);
    }
  }

  lemma {:induction false} TupleIrreflexive(a: seq<Value>, b: seq<Value>)
    requires |a| == |b| && TupleLt(a, b)
    ensures a != b
  {
    LtIsStrictTotalOrder();
    if a == b {
      TupleIrreflexive(a[1..], b[1..]);
    }
  }

  method EncodeValues(vs: seq<Value>) returns (r: Option<Key>)
    ensures r == if Storable(vs) then Some(Encode(vs)) else None
  {
    hide Code, IntCode, Escape;
    var out: Key := [];
    for i := 0 to |vs|
      invariant Storable(vs[..i]) && out == Encode(vs[..i])
    {
      EncodeAppend(vs, i);
      match vs[i] {
        case Int(n) => out := EncodeInt64(out, n);
        case Str(s) =>
          var escaped := EscapeString(s);
          out := out + escaped;
          out := out + [0];
        case Err => return None;
      }
    }
    assert vs[..|vs|] == vs;
    r := Some(out);
  }

  lemma {:induction false} EncodeConcat(a: seq<Value>, b: seq<Value>)
    requires Storable(a) && Storable(b)
    ensures Storable(a + b) && Encode(a + b) == Encode(a) + Encode(b)
  {
    if a == [] {
      assert a + b == b;
    } else {
      assert (a + b)[1..] == a[1..] + b;
      EncodeConcat(a[1..], b);
    }
  }

  lemma EncodeAppend(vs: seq<Value>, i: nat)
    requires i < |vs| && Storable(vs[..i])
    ensures !vs[i].Err? ==> Storable(vs[..i + 1]) && Encode(vs[..i + 1]) == Encode(vs[..i]) + Code(vs[i])
    ensures vs[i].Err? ==> !Storable(vs)
    ensures vs[i].Str? ==> Code(vs[i]) == Escape(vs[i].s) + [0]
    ensures vs[i].Int? ==> Code(vs[i]) == IntCode(vs[i].n)
  {
    if !vs[i].Err? {
      assert vs[..i + 1] == vs[..i] + [vs[i]];
      EncodeConcat(vs[..i], [vs[i]]);
      assert [vs[i]][1..] == [];
      assert Code(vs[i]) + [] == Code(vs[i]);
    }
  }

  // ------------------------------------------------------------ decoding

  /** The position of the first 0, or the length if there is none. */
  function FirstZero(s: Key): (n: nat)
    ensures n <= |s| && NoZero(s[..n]) && (n < |s| ==> s[n] == 0)
  {
    if s == [] || s[0] == 0 then 0
    else
      var n := FirstZero(s[1..]);
      assert s[..n + 1] == [s[0]] + s[1..][..n];
      n + 1
  }

  datatype Decoded = Bad | Good(value: Value, rest: Key)

  /** Read one value of type t off the front. */
  function DecodeOne(t: Type, data: Key): Decoded
  {
    match t
    case INT_64 => if |data| < 8 then Bad else Good(Int(FromIntCode(data[..8])), data[8..])
    case BYTES =>
      var end := FirstZero(data);
      if end == |data| then Bad
      else (match Unescape(data[..end]) case None => Bad case Some(s) => Good(Str(s), data[end + 1..]))
    case ERROR => Bad
  }

  /** Read a tuple of these types, which must use up all of data. */
  function DecodeAll(types: seq<Type>, data: Key): Option<seq<Value>>
  {
    if types == [] then if data == [] then Some([]) else None
    else
      match DecodeOne(types[0], data)
      case Bad => None
      case Good(v, rest) =>
        match DecodeAll(types[1..], rest)
        case None => None
        case Some(vs) => Some([v] + vs)
  }

  lemma {:induction false} FirstZeroIs(a: Key, rest: Key)
    requires NoZero(a)
    ensures FirstZero(a + [0] + rest) == |a|
  {
    var s := a + [0] + rest;
    if a != [] {
      assert s[1..] == a[1..] + [0] + rest && s[0] == a[0];
      FirstZeroIs(a[1..], rest);
    }
  }

  lemma DecodeOneOfCode(v: Value, rest: Key)
    requires !v.Err?
    ensures DecodeOne(v.Type(), Code(v) + rest) == Good(v, rest)
  {
    hide Unescape, Escape, BigEndian, FromBigEndian, FirstZero;
    var data := Code(v) + rest;
    match v {
      case Int(n) =>
        assert data[..8] == IntCode(n) && data[8..] == rest;
        Power8();
        FromBigEndianOf(n + SIGN_BIT, 8);
      case Str(s) =>
        EscapeFacts(s);
        assert data == Escape(s) + [0] + rest;
        FirstZeroIs(Escape(s), rest);
        assert data[..|Escape(s)|] == Escape(s) && data[|Escape(s)| + 1..] == rest;
      case Err =>
    }
  }

  lemma DecodeOneInverse(t: Type, data: Key)
    requires DecodeOne(t, data).Good?
    ensures var d := DecodeOne(t, data);
            d.value.Type() == t && !d.value.Err? && data == Code(d.value) + d.rest && |d.rest| < |data|
  {
    hide Unescape, Escape, BigEndian, FromBigEndian;
    match t {
      case INT_64 =>
        BigEndianOf(data[..8]);
        Power8();
        assert data == data[..8] + data[8..];
      case BYTES =>
        var end := FirstZero(data);
        UnescapeFacts(data[..end]);
        assert data == data[..end] + [0] + data[end + 1..];
      case ERROR =>
    }
  }

  /** decode_values undoes encode_values. */
  lemma {:induction false} DecodeEncode(vs: seq<Value>)
    requires Storable(vs)
    ensures DecodeAll(Types(vs), Encode(vs)) == Some(vs)
  {
    hide DecodeOne, Code;
    if vs != [] {
      DecodeOneOfCode(vs[0], Encode(vs[1..]));
      DecodeEncode(vs[1..]);
      assert Types(vs)[1..] == Types(vs[1..]) && Types(vs)[0] == vs[0].Type();
      assert vs == [vs[0]] + vs[1..];
    }
  }

  /** Whatever decode_values accepts is the code of what it returns, so no two byte strings decode alike. */
  lemma {:induction false} EncodeDecode(types: seq<Type>, data: Key)
    requires DecodeAll(types, data).Some?
    ensures var vs := DecodeAll(types, data).value; Types(vs) == types && Storable(vs) && Encode(vs) == data
    decreases types
  {
    hide DecodeOne, Code;
    if types != [] {
      var d := DecodeOne(types[0], data);
      DecodeOneInverse(types[0], data);
      EncodeDecode(types[1..], d.rest);
      var vs := DecodeAll(types, data).value;
      assert vs == [d.value] + vs[1..] && vs[1..] == DecodeAll(types[1..], d.rest).value;
      assert Types(vs) == [types[0]] + Types(vs[1..]);
      assert types == [types[0]] + types[1..];
    }
  }

  method DecodeBytes(data: Key, pos: nat) returns (r: Option<Key>, next: nat)
    requires pos <= |data|
    ensures pos <= next <= |data|
    ensures var d := DecodeOne(BYTES, data[pos..]);
            if r.None? then d.Bad? else d == Good(Str(r.value), data[next..])
  {
    hide Unescape;
    next := pos;
    var end := pos;
    while end < |data| && data[end] != 0
      invariant pos <= end <= |data| && NoZero(data[pos..end])
    {
      assert data[pos..end + 1] == data[pos..end] + [data[end]];
      end := end + 1;
    }
    if end == |data| {
      assert data[pos..end] == data[pos..];
      NoZeroAll(data[pos..]);
      return None, pos;
    }
    assert data[pos..] == data[pos..end] + [0] + data[end + 1..];
    FirstZeroIs(data[pos..end], data[end + 1..]);
    assert data[pos..][..end - pos] == data[pos..end] && data[pos..][end - pos + 1..] == data[end + 1..];
    r := UnescapeString(data[pos..end]);
    next := if r.None? then pos else end + 1;
  }

  lemma NoZeroAll(s: Key)
    requires NoZero(s)
    ensures FirstZero(s) == |s|
  {
  }

  method DecodeValues(data: Key, types: seq<Type>) returns (r: Option<seq<Value>>)
    ensures r == DecodeAll(types, data)
  {
    hide DecodeOne, FromIntCode;
    var pos := 0;
    var out: seq<Value> := [];
    assert data[0..] == data && types[0..] == types;
    Prepended([], DecodeAll(types, data));
    for i := 0 to |types|
      invariant 0 <= pos <= |data|
      invariant DecodeAll(types, data) == Prepend(out, DecodeAll(types[i..], data[pos..]))
    {
      assert types[i..][1..] == types[i + 1..];
      ghost var rest := data[pos..];
      DecodeSteps(types[i..], rest);
      match types[i] {
        case INT_64 =>
          IntSlot(data, pos);
          var n;
          n, pos := DecodeInt64(data, pos);
          if n.None? {
            return None;
          }
          PrependOne(out, Int(n.value), DecodeAll(types[i + 1..], data[pos..]));
          out := out + [Int(n.value)];
        case BYTES =>
          var s;
          s, pos := DecodeBytes(data, pos);
          if s.None? {
            return None;
          }
          PrependOne(out, Str(s.value), DecodeAll(types[i + 1..], data[pos..]));
          out := out + [Str(s.value)];
        case ERROR =>
          ErrorSlot(rest);
          return None;
      }
    }
    assert types[|types|..] == [];
    if pos != |data| {
      return None;
    }
    assert data[pos..] == [] && out + [] == out;
    r := Some(out);
  }

  function Prepend(vs: seq<Value>, r: Option<seq<Value>>): Option<seq<Value>>
  {
    match r
    case None => None
    case Some(ws) => Some(vs + ws)
  }

  lemma Prepended(vs: seq<Value>, r: Option<seq<Value>>)
    ensures vs == [] ==> Prepend(vs, r) == r
  {
    if r.Some? {
      assert [] + r.value == r.value;
    }
  }

  lemma PrependOne(vs: seq<Value>, v: Value, r: Option<seq<Value>>)
    ensures Prepend(vs, Prepend([v], r)) == Prepend(vs + [v], r)
  {
    if r.Some? {
      assert vs + ([v] + r.value) == vs + [v] + r.value;
    }
  }

  lemma DecodeSteps(types: seq<Type>, data: Key)
    requires types != []
    ensures DecodeOne(types[0], data).Bad? ==> DecodeAll(types, data) == None
    ensures DecodeOne(types[0], data).Good? ==>
              DecodeAll(types, data) == Prepend([DecodeOne(types[0], data).value], DecodeAll(types[1..], DecodeOne(types[0], data).rest))
  {
    hide DecodeOne;
  }

  lemma IntSlot(data: Key, pos: nat)
    requires pos <= |data|
    ensures DecodeOne(INT_64, data[pos..]) ==
            if |data| < pos + 8 then Bad else Good(Int(FromIntCode(data[pos..pos + 8])), data[pos + 8..])
  {
    hide FromIntCode;
    if |data| >= pos + 8 {
      assert data[pos..][..8] == data[pos..pos + 8] && data[pos..][8..] == data[pos + 8..];
    }
  }

  lemma ErrorSlot(data: Key)
    ensures DecodeOne(ERROR, data).Bad?
  {
  }
}
