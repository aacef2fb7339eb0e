/**
 The canonical byte encoding of signed and hashed payloads: a domain and a list
 of named fields, each preceded by its length as four big-endian bytes.
 */
module CanonicalFields {
  import opened Bytes

  const U32_LIMIT := 0x1_0000_0000

  /** A field of 2^32 bytes or more makes the original panic. */
  predicate Fits(v: Text)
  {
    |v| < U32_LIMIT
  }

  type Field = (Text, Text)

  predicate AllFit(domain: Text, fields: seq<Field>)
  {
    Fits(domain) && forall i :: 0 <= i < |fields| ==> Fits(fields[i].0) && Fits(fields[i].1)
  }

  function BigEndian(n: nat): (t: Text)
    requires n < U32_LIMIT
    ensures |t| == 4
  {
    [n / 0x100_0000, n / 0x1_0000 % 256, n / 256 % 256, n % 256]
  }

  function FromBigEndian(t: Text): nat
    requires |t| == 4
  {
    (t[0] as int) * 0x100_0000 + (t[1] as int) * 0x1_0000 + (t[2] as int) * 256 + t[3] as int
  }

  function Prefixed(v: Text): Text
    requires Fits(v)
  {
    BigEndian(|v|) + v
  }

  function EncodeFields(fields: seq<Field>): Text
    requires AllFit([], fields)
  {
    if fields == [] then []
    else Prefixed(fields[0].0) + Prefixed(fields[0].1) + EncodeFields(fields[1..])
  }

  function Encode(domain: Text, fields: seq<Field>): Text
    requires AllFit(domain, fields)
  {
    Prefixed(domain) + EncodeFields(fields)
  }

  method PushLenPrefixed(buffer: Text, value: Text) returns (out: Text)
    requires Fits(value)
    ensures out == buffer + Prefixed(value)
  {
    out := buffer + BigEndian(|value|);
    out := out + value;
    assert buffer + BigEndian(|value|) + value == buffer + (BigEndian(|value|) + value);
  }

  /** The encoder's loop, proved against the recursive specification and against the decoder. */
  method Canonical(domain: Text, fields: seq<Field>) returns (out: Text)
    requires AllFit(domain, fields)
    ensures out == Encode(domain, fields)
    ensures Decode(out) == Some((domain, fields))
  {
    out := PushLenPrefixed([], domain);
    for i := 0 to |fields|
      invariant out == Prefixed(domain) + EncodeFields(fields[..i])
    {
      ghost var before := out;
      out := PushLenPrefixed(out, fields[i].0);
      out := PushLenPrefixed(out, fields[i].1);
      EncodeSnoc(fields[..i], fields[i]);
      assert fields[..i + 1] == fields[..i] + [fields[i]];
      ghost var a, b, c := EncodeFields(fields[..i]), Prefixed(fields[i].0), Prefixed(fields[i].1);
      assert Prefixed(domain) + a + b + c == Prefixed(domain) + (a + (b + c));
    }
    assert fields[..|fields|] == fields;
    RoundTrip(domain, fields);
  }

  lemma {:induction false} EncodeSnoc(fields: seq<Field>, last: Field)
    requires AllFit([], fields) && Fits(last.0) && Fits(last.1)
    ensures EncodeFields(fields + [last]) == EncodeFields(fields) + (Prefixed(last.0) + Prefixed(last.1))
  {
    if fields == [] {
      assert [last][1..] == [];
    } else {
      assert (fields + [last])[1..] == fields[1..] + [last];
      EncodeSnoc(fields[1..], last);
    }
  }

  // ---------- the decoder ----------

  /** One length-prefixed field and the bytes after it. */
  function Take(t: Text): Option<(Text, Text)>
  {
    if |t| < 4 then None
    else
      var n := FromBigEndian(t[..4]);
      if |t| < 4 + n then None else Some((t[4..4 + n], t[4 + n..]))
  }

  function DecodeFields(t: Text): Option<seq<Field>>
    decreases |t|
  {
    if t == [] then Some([])
    else
      match Take(t)
      case None => None
      case Some((name, u)) =>
        match Take(u)
        case None => None
        case Some((value, v)) =>
          match DecodeFields(v)
          case None => None
          case Some(rest) => Some([(name, value)] + rest)
  }

  function Decode(t: Text): Option<(Text, seq<Field>)>
  {
    match Take(t)
    case None => None
    case Some((domain, u)) =>
      match DecodeFields(u)
      case None => None
      case Some(fields) => Some((domain, fields))
  }

  lemma BigEndianValue(n: nat)
    requires n < U32_LIMIT
    ensures FromBigEndian(BigEndian(n)) == n
  {
    var a, b, c := n / 256, n / 0x1_0000, n / 0x100_0000;
    assert b == a / 256 && c == b / 256;
    assert n == 256 * a + n % 256 && a == 256 * b + a % 256 && b == 256 * c + b % 256;
  }

  lemma TakePrefixed(v: Text, rest: Text)
    requires Fits(v)
    ensures Take(Prefixed(v) + rest) == Some((v, rest))
  {
    var t := Prefixed(v) + rest;
    assert t[..4] == BigEndian(|v|);
    BigEndianValue(|v|);
    assert t[4..4 + |v|] == v && t[4 + |v|..] == rest;
  }

  lemma BigEndianExact(t: Text)
    requires |t| == 4
    ensures FromBigEndian(t) < U32_LIMIT && BigEndian(FromBigEndian(t)) == t
  {
    var a, b, c, d := t[0] as int, t[1] as int, t[2] as int, t[3] as int;
    var n := FromBigEndian(t);
    assert n / 0x100_0000 == a && n / 0x1_0000 == a * 256 + b && n / 256 == (a * 256 + b) * 256 + c;
  }

  /** What a taken field was encoded from. */
  lemma TakeExact(t: Text)
    requires Take(t).Some?
    ensures Fits(Take(t).value.0) && t == Prefixed(Take(t).value.0) + Take(t).value.1
  {
    var n := FromBigEndian(t[..4]);
    BigEndianExact(t[..4]);
    assert t == t[..4] + t[4..4 + n] + t[4 + n..];
  }

  lemma {:induction false} FieldsRoundTrip(fields: seq<Field>)
    requires AllFit([], fields)
    ensures DecodeFields(EncodeFields(fields)) == Some(fields)
  {
    if fields != [] {
      var (name, value) := fields[0];
      var rest := EncodeFields(fields[1..]);
      var t := EncodeFields(fields);
      assert t == Prefixed(name) + (Prefixed(value) + rest);
      TakePrefixed(name, Prefixed(value) + rest);
      TakePrefixed(value, rest);
      FieldsRoundTrip(fields[1..]);
      assert fields == [(name, value)] + fields[1..];
    }
  }

  /** The decoder inverts the encoder. */
  lemma RoundTrip(domain: Text, fields: seq<Field>)
    requires AllFit(domain, fields)
    ensures Decode(Encode(domain, fields)) == Some((domain, fields))
  {
    TakePrefixed(domain, EncodeFields(fields));
    FieldsRoundTrip(fields);
  }

  lemma {:induction false} DecodedFieldsExact(t: Text)
    requires DecodeFields(t).Some?
    ensures AllFit([], DecodeFields(t).value) && EncodeFields(DecodeFields(t).value) == t
    decreases |t|
  {
    if t != [] {
      var (name, u) := Take(t).value;
      var (value, v) := Take(u).value;
      TakeExact(t);
      TakeExact(u);
      DecodedFieldsExact(v);
      var rest := DecodeFields(v).value;
      assert ([(name, value)] + rest)[1..] == rest;
      assert t == Prefixed(name) + Prefixed(value) + v;
    }
  }

  /** The encoder inverts the decoder: every decodable byte string is a canonical encoding. */
  lemma DecodedExact(t: Text)
    requires Decode(t).Some?
    ensures AllFit(Decode(t).value.0, Decode(t).value.1)
    ensures Encode(Decode(t).value.0, Decode(t).value.1) == t
  {
    TakeExact(t);
    DecodedFieldsExact(Take(t).value.1);
  }

  /** Equal bytes mean equal domain, number of fields, names and values. */
  lemma EncodeInjective(d: Text, f: seq<Field>, d': Text, f': seq<Field>)
    requires AllFit(d, f) && AllFit(d', f')
    ensures Encode(d, f) == Encode(d', f') <==> d == d' && f == f'
  {
    RoundTrip(d, f);
    RoundTrip(d', f');
  }

  // ---------- the layout of the bytes ----------

  /** Four length bytes, the most significant first, and the value. */
  lemma PrefixedLayout(v: Text)
    requires Fits(v)
    ensures var n := |v|; Prefixed(v) == [n / 16777216, n / 65536 % 256, n / 256 % 256, n % 256] + v
  {
  }

  lemma Regroup(a: Text, b: Text, c: Text, d: Text)
    ensures a + (b + (c + d)) == a + b + c + d
  {
  }

  /** The domain comes first, and each field adds its name and then its value. */
  lemma EncodeLayout(domain: Text, fields: seq<Field>, last: Field)
    requires AllFit(domain, fields) && Fits(last.0) && Fits(last.1)
    ensures Encode(domain, []) == Prefixed(domain)
    ensures AllFit(domain, fields + [last])
    ensures Encode(domain, fields + [last]) == Encode(domain, fields) + Prefixed(last.0) + Prefixed(last.1)
  {
    EncodeSnoc(fields, last);
    Regroup(Prefixed(domain), EncodeFields(fields), Prefixed(last.0), Prefixed(last.1));
  }

  // ---------- fields from names and values ----------

  function Named(names: seq<string>, values: seq<Text>): (fields: seq<Field>)
    requires |names| == |values|
    ensures |fields| == |names|
    ensures forall i :: 0 <= i < |fields| ==> fields[i] == (Ascii(names[i]), values[i])
  {
    seq(|names|, i requires 0 <= i < |names| => (Ascii(names[i]), values[i]))
  }

  /** Fields with the same names are equal only if their values are. */
  lemma NamedValues(names: seq<string>, v: seq<Text>, names': seq<string>, v': seq<Text>)
    requires |names| == |v| && |names'| == |v'| && Named(names, v) == Named(names', v')
    ensures v == v'
  {
    assert |v| == |Named(names, v)| == |v'|;
    forall i | 0 <= i < |v|
      ensures v[i] == v'[i]
    {
      assert Named(names, v)[i] == Named(names', v')[i];
    }
  }

  lemma NamedFit(domain: string, names: seq<string>, values: seq<Text>)
    requires |names| == |values| && |domain| < U32_LIMIT
    requires forall i :: 0 <= i < |names| ==> |names[i]| < U32_LIMIT
    requires forall v :: v in values ==> Fits(v)
    ensures AllFit(Ascii(domain), Named(names, values))
  {
    forall i | 0 <= i < |names|
      ensures Fits(Named(names, values)[i].0) && Fits(Named(names, values)[i].1)
    {
      assert values[i] in values;
    }
  }
}
