/** Keys of tables and indexes, and the padded bounds of a range scan (src/access/row_codec.cpp). */
module RowCodec {
  import opened Bytes
  import opened OrderPreserving
  import opened Iterators

  const PREFIX_SIZE: nat := 4
  const PREFIX_LIMIT: nat := 0x1_0000_0000

  function PrefixCode(prefix: nat): (r: Key)
    ensures |r| == PREFIX_SIZE
  {
    BigEndian(prefix, PREFIX_SIZE)
  }

  /** encode_key */
  function EncodeKey(prefix: nat, vs: seq<Value>): Key
    requires Storable(vs)
  {
    PrefixCode(prefix) + Encode(vs)
  }

  const FULL_INT: Key := [0xff, 0xff, 0xff, 0xff, 0xff, 0xff, 0xff, 0xff]

  /** The greatest encoding of columns of these types: a string ends it, since no string's code starts with 0xff. */
  function Padding(types: seq<Type>): Key
  {
    if types == [] then []
    else match types[0]
      case INT_64 => FULL_INT + Padding(types[1..])
      case BYTES => [0xff]
      case ERROR => []
  }

  /** No column before the first string is an ERROR one, so padding does not throw. */
  predicate Paddable(types: seq<Type>)
  {
    types == [] || types[0] == BYTES || (types[0] == INT_64 && Paddable(types[1..]))
  }

  /** encode_key_partial: a bound on the first |vs| of an index's columns, which have these types. */
  function EncodePartial(prefix: nat, vs: seq<Value>, types: seq<Type>, cmp: Cmp): Key
    requires Storable(vs) && |vs| <= |types|
  {
    EncodeKey(prefix, vs) + if cmp.GT? || cmp.LE? then Padding(types[|vs|..]) else []
  }

  method EncodeKeyPartial(prefix: nat, vs: seq<Value>, types: seq<Type>, cmp: Cmp) returns (r: Option<Key>)
    requires |vs| <= |types|
    ensures r.Some? <==> Storable(vs) && (cmp.GT? || cmp.LE? ==> Paddable(types[|vs|..]))
    ensures r.Some? ==> r.value == EncodePartial(prefix, vs, types, cmp)
  {
    var code := EncodeValues(vs);
    if code.None? {
      return None;
    }
    var out := PrefixCode(prefix) + code.value;
    if !cmp.GT? && !cmp.LE? {
      assert out + [] == out;
      return Some(out);
    }
    var i := |vs|;
    ghost var start := out;
    assert out + Padding(types[i..]) == start + Padding(types[|vs|..]);
    while i < |types|
      invariant |vs| <= i <= |types|
      invariant out + Padding(types[i..]) == start + Padding(types[|vs|..])
      invariant Paddable(types[|vs|..]) <==> Paddable(types[i..])
    {
      assert types[i..][1..] == types[i + 1..] && types[i..][0] == types[i];
      match types[i] {
        case INT_64 =>
          ghost var before := out;
          out := out + FULL_INT;
          assert before + (FULL_INT + Padding(types[i + 1..])) == out + Padding(types[i + 1..]);
        case BYTES =>
          out := out + [0xff];
          return Some(out);
        case ERROR =>
          return None;
      }
      i := i + 1;
    }
    assert types[i..] == [] && out + [] == out;
    r := Some(out);
  }

  // ------------------------------------------------------------ bounds

  /** What a comparison of whole tuples means for a bound on their first columns. */
  predicate TupleCmp(a: seq<Value>, cmp: Cmp, b: seq<Value>)
    requires |a| == |b|
  {
    match cmp
    case GE => !TupleLt(a, b)
    case GT => TupleLt(b, a)
    case LT => TupleLt(a, b)
    case LE => !TupleLt(b, a)
  }

  lemma FullIntIsMax()
    ensures FULL_INT == BigEndian(0xffff_ffff_ffff_ffff, 8)
  {
    var a := [0xff];
    assert BigEndian(0xff, 1) == BigEndian(0, 0) + [0xff] == [0xff];
    assert BigEndian(0xffff, 2) == [0xff, 0xff];
    assert BigEndian(0xff_ffff, 3) == [0xff, 0xff, 0xff];
    assert BigEndian(0xffff_ffff, 4) == [0xff, 0xff, 0xff, 0xff];
    assert BigEndian(0xff_ffff_ffff, 5) == [0xff, 0xff, 0xff, 0xff, 0xff];
    assert BigEndian(0xffff_ffff_ffff, 6) == [0xff, 0xff, 0xff, 0xff, 0xff, 0xff];
    assert BigEndian(0xff_ffff_ffff_ffff, 7) == [0xff, 0xff, 0xff, 0xff, 0xff, 0xff, 0xff];
  }

  lemma IntBelowFull(n: Int64)
    ensures IntCode(n) == FULL_INT || Diverges(IntCode(n), FULL_INT)
  {
    FullIntIsMax();
    Power8();
    if n + SIGN_BIT < 0xffff_ffff_ffff_ffff {
      BigEndianOrder(n + SIGN_BIT, 0xffff_ffff_ffff_ffff, 8);
    }
  }

  lemma StringBelowFull(s: Key)
    ensures StrCode(s) != [] && StrCode(s)[0] < 0xff
  {
    StrCodeParts(s);
  }

  /** Padding is at least the code of every tuple of those types. */
  lemma {:induction false} PaddingIsMax(vs: seq<Value>, types: seq<Type>)
    requires Storable(vs) && Types(vs) == types
    ensures Le(Encode(vs), Padding(types))
  {
    hide IntCode, StrCode, Diverges, Lt;
    if vs != [] {
      assert types[0] == vs[0].Type() && types[1..] == Types(vs[1..]);
      PaddingIsMax(vs[1..], types[1..]);
      match vs[0] {
        case Int(n) =>
          IntBelowFull(n);
          if IntCode(n) == FULL_INT {
            LtAfter(FULL_INT, Encode(vs[1..]), Padding(types[1..]));
          } else {
            DivergesLt(IntCode(n), FULL_INT, Encode(vs[1..]), Padding(types[1..]));
          }
        case Str(s) =>
          StringBelowFull(s);
          HeadLt(StrCode(s), Encode(vs[1..]), [0xff]);
        case Err =>
      }
    }
  }

  lemma HeadLt(a: Key, x: Key, b: Key)
    requires a != [] && b != [] && a[0] < b[0]
    ensures Lt(a + x, b)
  {
  }

  lemma {:induction false} TupleAsymmetric(a: seq<Value>, b: seq<Value>)
    requires |a| == |b| && TupleLt(a, b)
    ensures !TupleLt(b, a)
  {
    LtIsStrictTotalOrder();
    if !ValueLt(a[0], b[0]) {
      TupleAsymmetric(a[1..], b[1..]);
    }
  }

  lemma CmpFromOrder(key: Key, bound: Key, cmp: Cmp)
    ensures Lt(key, bound) ==> (CmpOk(key, cmp, bound) <==> cmp.LT? || cmp.LE?)
    ensures Lt(bound, key) ==> (CmpOk(key, cmp, bound) <==> cmp.GT? || cmp.GE?)
    ensures Le(bound, key) ==> CmpOk(key, GE, bound) && !CmpOk(key, LT, bound)
    ensures Le(key, bound) ==> CmpOk(key, LE, bound) && !CmpOk(key, GT, bound)
  {
    LtIsStrictTotalOrder();
  }

  /** Codes that diverge decide the comparison of any keys that continue them. */
  lemma DivergingCmp(p: Key, a: Key, x: Key, b: Key, y: Key, cmp: Cmp)
    requires Diverges(a, b)
    ensures CmpOk(p + a + x, cmp, p + b + y) <==> cmp.LT? || cmp.LE?
    ensures CmpOk(p + b + y, cmp, p + a + x) <==> cmp.GT? || cmp.GE?
  {
    DivergesAfter(p, a, b);
    DivergesLt(p + a, p + b, x, y);
    CmpFromOrder(p + a + x, p + b + y, cmp);
    CmpFromOrder(p + b + y, p + a + x, cmp);
  }

  /** A bound with the same tuple prefix: unpadded it sorts first, padded it sorts last. */
  lemma EqualPrefixCmp(q: Key, rest: seq<Value>, types: seq<Type>, cmp: Cmp)
    requires Storable(rest) && Types(rest) == types
    ensures CmpOk(q + Encode(rest), cmp, q + if cmp.GT? || cmp.LE? then Padding(types) else []) <==> cmp.GE? || cmp.LE?
  {
    hide Encode, Padding, Lt, CmpOk;
    var pad := Padding(types);
    PaddingIsMax(rest, types);
    LtAfter(q, Encode(rest), pad);
    LtAfter(q, [], Encode(rest));
    LtIsStrictTotalOrder();
    CmpFromOrder(q + Encode(rest), q + pad, cmp);
    CmpFromOrder(q + Encode(rest), q + [], cmp);
    assert Encode(rest) == [] ==> q + Encode(rest) == q + [];
  }

  /** A partial bound cuts exactly at tuple prefixes: its byte comparison is the comparison of the first columns. */
  lemma PartialBoundCuts(prefix: nat, t: seq<Value>, vs: seq<Value>, types: seq<Type>, cmp: Cmp)
    requires Storable(t) && Types(t) == types && |vs| <= |types| && Types(vs) == types[..|vs|]
    ensures Storable(vs)
    ensures CmpOk(EncodeKey(prefix, t), cmp, EncodePartial(prefix, vs, types, cmp)) <==> TupleCmp(t[..|vs|], cmp, vs)
  {
    hide Encode, Padding, Lt, CmpOk, TupleLt, Diverges, PrefixCode;
    var k := |vs|;
    var head, rest := t[..k], t[k..];
    assert t == head + rest && Types(head) == types[..k] && Types(rest) == types[k..];
    TypesStorable(head, vs);
    EncodeConcat(head, rest);
    var p := PrefixCode(prefix);
    var pad := if cmp.GT? || cmp.LE? then Padding(types[k..]) else [];
    assert EncodeKey(prefix, t) == p + Encode(head) + Encode(rest);
    TuplesTotal(head, vs);
    if TupleLt(head, vs) {
      EncodeMonotone(head, vs);
      TupleAsymmetric(head, vs);
      DivergingCmp(p, Encode(head), Encode(rest), Encode(vs), pad, cmp);
    } else if TupleLt(vs, head) {
      EncodeMonotone(vs, head);
      TupleAsymmetric(vs, head);
      DivergingCmp(p, Encode(vs), pad, Encode(head), Encode(rest), cmp);
    } else {
      EqualPrefixCmp(p + Encode(vs), rest, types[k..], cmp);
    }
  }

  /** Keys of another table or index lie entirely on one side of a bound. */
  lemma OtherPrefixCmp(prefix: nat, other: nat, rest: Key, bound: Key, cmp: Cmp)
    requires prefix < PREFIX_LIMIT && other < PREFIX_LIMIT && other != prefix
    ensures CmpOk(PrefixCode(other) + rest, cmp, PrefixCode(prefix) + bound) <==>
            if other < prefix then cmp.LT? || cmp.LE? else cmp.GT? || cmp.GE?
  {
    hide BigEndian, CmpOk, Lt;
    assert Power(0) == 1 && Power(1) == 256 && Power(2) == 0x1_0000 && Power(3) == 0x100_0000 && Power(4) == PREFIX_LIMIT;
    var a, b := PrefixCode(other), PrefixCode(prefix);
    assert [] + a + rest == a + rest && [] + b + bound == b + bound;
    if other < prefix {
      BigEndianOrder(other, prefix, 4);
      DivergingCmp([], a, rest, b, bound, cmp);
    } else {
      BigEndianOrder(prefix, other, 4);
      DivergingCmp([], b, bound, a, rest, cmp);
    }
  }

  /** A range whose comparisons point in opposite directions holds no key of another prefix. */
  lemma RangeStaysInPrefix(prefix: nat, other: nat, rest: Key, bound1: Key, cmp1: Cmp, bound2: Key, cmp2: Cmp)
    requires prefix < PREFIX_LIMIT && other < PREFIX_LIMIT && cmp1.Forward() != cmp2.Forward()
    requires CmpOk(PrefixCode(other) + rest, cmp1, PrefixCode(prefix) + bound1)
    requires CmpOk(PrefixCode(other) + rest, cmp2, PrefixCode(prefix) + bound2)
    ensures other == prefix
  {
    hide CmpOk;
    if other != prefix {
      OtherPrefixCmp(prefix, other, rest, bound1, cmp1);
      OtherPrefixCmp(prefix, other, rest, bound2, cmp2);
      assert false;
    }
  }

  /** Keys tell tables and rows apart: no two different ones are the same bytes. */
  lemma KeysAreDistinct(p: nat, a: seq<Value>, q: nat, b: seq<Value>)
    requires p < PREFIX_LIMIT && q < PREFIX_LIMIT && Storable(a) && Storable(b) && (p == q ==> Types(a) == Types(b))
    ensures EncodeKey(p, a) == EncodeKey(q, b) <==> p == q && a == b
  {
    hide Encode, BigEndian;
    assert Power(0) == 1 && Power(1) == 256 && Power(2) == 0x1_0000 && Power(3) == 0x100_0000 && Power(4) == PREFIX_LIMIT;
    FromBigEndianOf(p, 4);
    FromBigEndianOf(q, 4);
    var x, y := EncodeKey(p, a), EncodeKey(q, b);
    assert x[..4] == PrefixCode(p) && y[..4] == PrefixCode(q) && x[4..] == Encode(a) && y[4..] == Encode(b);
    if p == q {
      EncodeIsOrderIsomorphism(a, b);
    }
  }

  /** decode_key: the inverse of encode_key, past the prefix. */
  method DecodeKey(key: Key, types: seq<Type>) returns (r: Option<seq<Value>>)
    ensures |key| < PREFIX_SIZE ==> r == None
    ensures |key| >= PREFIX_SIZE ==> r == DecodeAll(types, key[PREFIX_SIZE..])
  {
    if |key| < PREFIX_SIZE {
      return None;
    }
    r := DecodeValues(key[PREFIX_SIZE..], types);
  }

  lemma DecodeKeyOfEncodeKey(prefix: nat, vs: seq<Value>)
    requires Storable(vs)
    ensures |EncodeKey(prefix, vs)| >= PREFIX_SIZE
    ensures DecodeAll(Types(vs), EncodeKey(prefix, vs)[PREFIX_SIZE..]) == Some(vs)
  {
    DecodeEncode(vs);
    assert EncodeKey(prefix, vs)[PREFIX_SIZE..] == Encode(vs);
  }
}
