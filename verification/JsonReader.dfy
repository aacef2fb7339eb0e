/**
 A reader of flat JSON objects that knows no field names: it returns the names and
 values it finds, in order.  It says of the two envelope texts what any other reader
 of them sees.
 */
module JsonReader {

  import opened Bytes
  import opened CanonicalJson

  const COLON: byte := 58

  /** A name and its value. */
  type Pair = (Text, Arg)

  /** A string, a list of strings, or an integer, and the text after it. */
  function ReadValue(t: Text): (r: Option<(Arg, Text)>)
    ensures r.Some? ==> |r.value.1| <= |t|
  {
    if t == [] then None
    else if t[0] == QUOTE then
      match ParseString(t)
      case None => None
      case Some((s, u)) => Some((Str(s), u))
    else if t[0] == OPEN_BRACKET then
      match ParseList(t[1..])
      case None => None
      case Some((l, u)) => if u != [] && u[0] == CLOSE_BRACKET then Some((Strs(l), u[1..])) else None
    else
      match ParseInt(t)
      case None => None
      case Some((n, u)) => Some((Num(n), u))
  }

  /** Members up to the closing brace that ends the text. */
  function ReadMembers(t: Text): Option<seq<Pair>>
    decreases |t|
  {
    match ParseString(t)
    case None => None
    case Some((name, u)) =>
      if u == [] || u[0] != COLON then None
      else
        match ReadValue(u[1..])
        case None => None
        case Some((v, w)) =>
          if w == END then Some([(name, v)])
          else if w == [] || w[0] != COMMA then None
          else
            match ReadMembers(w[1..])
            case None => None
            case Some(rest) => Some([(name, v)] + rest)
  }

  function ReadObject(t: Text): Option<seq<Pair>>
  {
    if t == [] || t[0] != OPEN_BRACE then None else ReadMembers(t[1..])
  }

  // ---------- what an object looks like ----------

  function ValueText(a: Arg): Text
  {
    match a
    case Str(s) => JsonString(s)
    case Num(n) => IntText(n)
    case Strs(items) => [OPEN_BRACKET] + JoinStrings(items) + [CLOSE_BRACKET]
  }

  /** The members and the closing brace. */
  function MembersText(ps: seq<Pair>): Text
    requires ps != []
  {
    var first := JsonString(ps[0].0) + ([COLON] + ValueText(ps[0].1));
    if |ps| == 1 then first + END else first + ([COMMA] + MembersText(ps[1..]))
  }

  lemma IntLead(n: int, rest: Text)
    ensures var t := IntText(n) + rest; t != [] && (IsDigit(t[0]) || t[0] == MINUS)
  {
    var t := IntText(n) + rest;
    assert t[0] == IntText(n)[0];
    assert n >= 0 ==> IsDigit(NatText(n)[0]);
  }

  lemma NumberRead(n: int, rest: Text)
    requires rest != [] && !IsDigit(rest[0])
    ensures ReadValue(IntText(n) + rest) == Some((Num(n), rest))
  {
    IntRoundTrip(n, rest);
    IntLead(n, rest);
  }

  lemma ListRead(items: seq<Text>, rest: Text)
    ensures ReadValue([OPEN_BRACKET] + JoinStrings(items) + [CLOSE_BRACKET] + rest) == Some((Strs(items), rest))
  {
    var t, u := [OPEN_BRACKET] + JoinStrings(items) + [CLOSE_BRACKET] + rest, [CLOSE_BRACKET] + rest;
    assert t[1..] == JoinStrings(items) + u;
    ListRoundTrip(items, u);
    assert u[1..] == rest;
  }

  lemma ValueRead(a: Arg, rest: Text)
    requires rest != [] && !IsDigit(rest[0])
    ensures ReadValue(ValueText(a) + rest) == Some((a, rest))
  {
    match a
    case Str(s) => StringRoundTrip(s, rest);
    case Num(n) => NumberRead(n, rest);
    case Strs(items) => ListRead(items, rest);
  }

  /** One member, a colon between name and value, and what the reader does after it. */
  lemma MemberRead(name: Text, a: Arg, rest: Text)
    requires rest != [] && !IsDigit(rest[0])
    ensures var t := JsonString(name) + ([COLON] + ValueText(a)) + rest;
            ReadMembers(t) ==
              if rest == END then Some([(name, a)])
              else if rest[0] != COMMA then None
              else if ReadMembers(rest[1..]).None? then None
              else Some([(name, a)] + ReadMembers(rest[1..]).value)
  {
    var v := ValueText(a) + rest;
    var u := [COLON] + v;
    assert JsonString(name) + ([COLON] + ValueText(a)) + rest == JsonString(name) + u;
    StringRoundTrip(name, u);
    ValueRead(a, rest);
    assert u[0] == COLON && u[1..] == v;
  }

  /** The reader recovers every name and value. */
  lemma {:induction false} MembersRead(ps: seq<Pair>)
    requires ps != []
    ensures ReadMembers(MembersText(ps)) == Some(ps)
  {
    if |ps| == 1 {
      MemberRead(ps[0].0, ps[0].1, END);
      assert ps == [ps[0]];
    } else {
      var rest := [COMMA] + MembersText(ps[1..]);
      MemberRead(ps[0].0, ps[0].1, rest);
      MembersRead(ps[1..]);
      assert rest[1..] == MembersText(ps[1..]);
      assert ps == [ps[0]] + ps[1..];
    }
  }

  lemma ObjectRead(ps: seq<Pair>)
    requires ps != []
    ensures ReadObject([OPEN_BRACE] + MembersText(ps)) == Some(ps)
  {
    MembersRead(ps);
    assert ([OPEN_BRACE] + MembersText(ps))[1..] == MembersText(ps);
  }

  // ---------- the printed envelopes are such objects ----------

  /** Letters and underscores, which are never escaped. */
  predicate Plain(name: string)
  {
    forall i :: 0 <= i < |name| ==> name[i] == '_' || 'a' <= name[i] <= 'z'
  }

  lemma {:induction false} PlainUnescaped(name: string)
    requires Plain(name)
    ensures Escape(Ascii(name)) == Ascii(name)
  {
    if name != "" {
      PlainUnescaped(name[1..]);
      assert Ascii(name)[1..] == Ascii(name[1..]);
      PlainByte(Ascii(name)[0]);
      assert Ascii(name) == [Ascii(name)[0]] + Ascii(name)[1..];
    }
  }

  lemma PlainByte(b: byte)
    requires b == 95 || 97 <= b <= 122
    ensures EscapeByte(b) == [b]
  {
  }

  /** The literal text before a value: the bracket that closes a list, the name, the bracket that opens one. */
  function Opening(lead: byte, name: string, a: Arg, afterList: bool): Text
  {
    (if afterList then [CLOSE_BRACKET] else []) + (Key(lead, name) + if a.Strs? then [OPEN_BRACKET] else [])
  }

  lemma Regrouped(close: Text, key: Text, open: Text, arg: Text, shut: Text, rest: Text)
    ensures close + (key + open) + (arg + (shut + rest)) == close + (key + (open + arg + shut) + rest)
  {
  }

  lemma RegroupedKey(lead: Text, name: Text, colon: Text, value: Text, rest: Text)
    ensures lead + (name + colon) + value + rest == lead + (name + (colon + value) + rest)
  {
  }

  lemma KeyText(lead: byte, name: string)
    requires Plain(name)
    ensures Key(lead, name) == [lead] + (JsonString(Ascii(name)) + [COLON])
  {
    PlainUnescaped(name);
  }

  lemma ValueParts(a: Arg)
    ensures (if a.Strs? then [OPEN_BRACKET] else []) + PrintArg(a) + (if a.Strs? then [CLOSE_BRACKET] else [])
         == ValueText(a)
  {
  }

  lemma OpeningIsMember(lead: byte, name: string, a: Arg, afterList: bool, rest: Text)
    requires Plain(name)
    ensures Opening(lead, name, a, afterList) + (PrintArg(a) + ((if a.Strs? then [CLOSE_BRACKET] else []) + rest))
         == (if afterList then [CLOSE_BRACKET] else [])
            + ([lead] + (JsonString(Ascii(name)) + ([COLON] + ValueText(a)) + rest))
  {
    var open, shut := if a.Strs? then [OPEN_BRACKET] else [], if a.Strs? then [CLOSE_BRACKET] else [];
    var close, key := if afterList then [CLOSE_BRACKET] else [], Key(lead, name);
    Regrouped(close, key, open, PrintArg(a), shut, rest);
    ValueParts(a);
    KeyText(lead, name);
    RegroupedKey([lead], JsonString(Ascii(name)), [COLON], ValueText(a), rest);
  }

  /** Names as they are written in a program. */
  function Named(fs: seq<(string, Arg)>): (ps: seq<Pair>)
    ensures |ps| == |fs| && forall i :: 0 <= i < |fs| ==> ps[i] == (Ascii(fs[i].0), fs[i].1)
  {
    seq(|fs|, i requires 0 <= i < |fs| => (Ascii(fs[i].0), fs[i].1))
  }

  ghost predicate Prints(fs: seq<(string, Arg)>, ms: seq<Member>, lead: byte, afterList: bool)
  {
    && |ms| == |fs| > 0 && !fs[|fs| - 1].1.Strs?
    && (forall i :: 0 <= i < |fs| ==> ms[i].arg == fs[i].1 && Plain(fs[i].0))
    && ms[0].key == Opening(lead, fs[0].0, fs[0].1, afterList)
    && forall i :: 0 < i < |fs| ==> ms[i].key == Opening(COMMA, fs[i].0, fs[i].1, fs[i - 1].1.Strs?)
  }

  lemma {:induction false} PrintedObject(fs: seq<(string, Arg)>, ms: seq<Member>, lead: byte, afterList: bool)
    requires Prints(fs, ms, lead, afterList)
    ensures Print(ms, END) == (if afterList then [CLOSE_BRACKET] else []) + ([lead] + MembersText(Named(fs)))
  {
    var (name, a) := fs[0];
    if |fs| == 1 {
      OpeningIsMember(lead, name, a, afterList, END);
      assert [] + END == END;
    } else {
      assert ms[1..][0] == ms[1];
      assert Prints(fs[1..], ms[1..], COMMA, a.Strs?);
      PrintedObject(fs[1..], ms[1..], COMMA, a.Strs?);
      assert Named(fs)[1..] == Named(fs[1..]);
      OpeningIsMember(lead, name, a, afterList, [COMMA] + MembersText(Named(fs[1..])));
    }
  }

  lemma PrintedRead(fs: seq<(string, Arg)>, ms: seq<Member>)
    requires Prints(fs, ms, OPEN_BRACE, false)
    ensures ReadObject(Print(ms, END)) == Some(Named(fs))
  {
    PrintedObject(fs, ms, OPEN_BRACE, false);
    ObjectRead(Named(fs));
    assert [] + ([OPEN_BRACE] + MembersText(Named(fs))) == [OPEN_BRACE] + MembersText(Named(fs));
  }

  // ---------- what the envelopes say ----------

  function EnvelopeFields(e: Envelope): (fs: seq<(string, Arg)>)
    ensures |fs| == 11
  {
    [("agent_id", Str(e.agentId)), ("human_key_image", Str(e.humanKeyImage)), ("action", Str(e.action)),
     ("resource", Str(e.resource)), ("merchant_id", Str(e.merchantId)), ("amount_minor", Num(e.amountMinor)),
     ("currency", Str(e.currency)), ("nonce", Str(e.nonce)), ("expires_at", Num(e.expiresAt)),
     ("policy_hash", Str(e.policyHash)), ("ajwt_jti", Str(e.ajwtJti))]
  }

  function AnonEnvelopeFields(e: AnonEnvelope): (fs: seq<(string, Arg)>)
    ensures |fs| == 11
  {
    [("tenant_id", Str(e.tenantId)), ("ring_id", Str(e.ringId)), ("also_ring_ids", Strs(e.alsoRingIds)),
     ("action", Str(e.action)), ("resource", Str(e.resource)), ("merchant_id", Str(e.merchantId)),
     ("amount_minor", Num(e.amountMinor)), ("currency", Str(e.currency)), ("config_digest", Str(e.configDigest)),
     ("nonce", Str(e.nonce)), ("expires_at", Num(e.expiresAt))]
  }

  lemma PlainNames1()
    ensures Plain("agent_id") && Plain("human_key_image") && Plain("action") && Plain("resource")
  {
  }

  lemma PlainNames2()
    ensures Plain("merchant_id") && Plain("amount_minor") && Plain("currency") && Plain("nonce")
  {
  }

  lemma PlainNames3()
    ensures Plain("expires_at") && Plain("policy_hash") && Plain("ajwt_jti") && Plain("tenant_id")
  {
  }

  lemma PlainNames4()
    ensures Plain("ring_id") && Plain("also_ring_ids") && Plain("config_digest")
  {
  }

  lemma EnvelopePlain(e: Envelope, i: nat)
    requires i < 11
    ensures Plain(EnvelopeFields(e)[i].0)
  {
    PlainNames1();
    PlainNames2();
    PlainNames3();
  }

  lemma AnonEnvelopePlain(e: AnonEnvelope, i: nat)
    requires i < 11
    ensures Plain(AnonEnvelopeFields(e)[i].0)
  {
    PlainNames1();
    PlainNames2();
    PlainNames3();
    PlainNames4();
  }

  lemma OpeningOfKey(lead: byte, name: string, a: Arg)
    ensures !a.Strs? ==> Opening(lead, name, a, false) == Key(lead, name)
  {
  }

  lemma EnvelopeKeyAt(e: Envelope, i: nat)
    requires i < 11
    ensures EnvelopeKeys()[i] == Key(if i == 0 then OPEN_BRACE else COMMA, EnvelopeFields(e)[i].0)
    ensures EnvelopeArgs(e)[i] == EnvelopeFields(e)[i].1 && !EnvelopeFields(e)[i].1.Strs?
  {
  }

  lemma EnvelopePrints(e: Envelope)
    ensures Prints(EnvelopeFields(e), EnvelopeMembers(e), OPEN_BRACE, false)
  {
    var fs, ms := EnvelopeFields(e), EnvelopeMembers(e);
    forall i | 0 <= i < 11
      ensures ms[i].arg == fs[i].1 && Plain(fs[i].0) && !fs[i].1.Strs?
      ensures ms[i].key == Opening(if i == 0 then OPEN_BRACE else COMMA, fs[i].0, fs[i].1, false)
    {
      EnvelopePlain(e, i);
      EnvelopeKeyAt(e, i);
      OpeningOfKey(if i == 0 then OPEN_BRACE else COMMA, fs[i].0, fs[i].1);
    }
  }

  /** Every reader finds these eleven names, each with its field, in this order. */
  lemma EnvelopeRead(e: Envelope)
    ensures ReadObject(CanonicalEnvelopeJson(e)) == Some(Named(
              [("agent_id", Str(e.agentId)), ("human_key_image", Str(e.humanKeyImage)), ("action", Str(e.action)),
               ("resource", Str(e.resource)), ("merchant_id", Str(e.merchantId)), ("amount_minor", Num(e.amountMinor)),
               ("currency", Str(e.currency)), ("nonce", Str(e.nonce)), ("expires_at", Num(e.expiresAt)),
               ("policy_hash", Str(e.policyHash)), ("ajwt_jti", Str(e.ajwtJti))]))
  {
    EnvelopePrints(e);
    PrintedRead(EnvelopeFields(e), EnvelopeMembers(e));
  }

  lemma AnonEnvelopeKeyAt(e: AnonEnvelope, i: nat)
    requires i < 11
    ensures var f := AnonEnvelopeFields(e)[i];
            AnonEnvelopeKeys()[i] == Opening(if i == 0 then OPEN_BRACE else COMMA, f.0, f.1, i == 3)
    ensures AnonEnvelopeArgs(e)[i] == AnonEnvelopeFields(e)[i].1 && (AnonEnvelopeFields(e)[i].1.Strs? <==> i == 2)
  {
    OpeningOfKey(if i == 0 then OPEN_BRACE else COMMA, AnonEnvelopeFields(e)[i].0, AnonEnvelopeFields(e)[i].1);
  }

  lemma AnonEnvelopePrints(e: AnonEnvelope)
    ensures Prints(AnonEnvelopeFields(e), AnonEnvelopeMembers(e), OPEN_BRACE, false)
  {
    var fs, ms := AnonEnvelopeFields(e), AnonEnvelopeMembers(e);
    forall i | 0 <= i < 11
      ensures ms[i].arg == fs[i].1 && Plain(fs[i].0) && (fs[i].1.Strs? <==> i == 2)
      ensures ms[i].key == Opening(if i == 0 then OPEN_BRACE else COMMA, fs[i].0, fs[i].1, i == 3)
    {
      AnonEnvelopePlain(e, i);
      AnonEnvelopeKeyAt(e, i);
    }
  }

  lemma AnonEnvelopeRead(e: AnonEnvelope)
    ensures ReadObject(CanonicalAnonEnvelopeJson(e)) == Some(Named(
              [("tenant_id", Str(e.tenantId)), ("ring_id", Str(e.ringId)), ("also_ring_ids", Strs(e.alsoRingIds)),
               ("action", Str(e.action)), ("resource", Str(e.resource)), ("merchant_id", Str(e.merchantId)),
               ("amount_minor", Num(e.amountMinor)), ("currency", Str(e.currency)),
               ("config_digest", Str(e.configDigest)), ("nonce", Str(e.nonce)), ("expires_at", Num(e.expiresAt))]))
  {
    AnonEnvelopePrints(e);
    PrintedRead(AnonEnvelopeFields(e), AnonEnvelopeMembers(e));
  }

  // ---------- escapes ----------

  lemma OneByte(b: byte)
    ensures JsonString([b]) == [QUOTE] + EscapeByte(b) + [QUOTE]
  {
    assert [b][1..] == [];
    assert Escape([b]) == EscapeByte(b) + Escape([b][1..]);
    assert EscapeByte(b) + [] == EscapeByte(b);
  }

  /** What follows the backslash for a control byte: a letter if it has one, otherwise its code in hexadecimal. */
  function ControlText(b: byte): Text
    requires b < 32
  {
    if b == 8 then Ascii("b") else if b == 9 then Ascii("t") else if b == 10 then Ascii("n")
    else if b == 12 then Ascii("f") else if b == 13 then Ascii("r")
    else Ascii("u00") + [if b < 16 then 48 else 49, if b % 16 < 10 then 48 + b % 16 else 87 + b % 16]
  }

  /** The bytes of an escaped string (section 7 of RFC 8259): only quote, backslash and control bytes change. */
  lemma EscapedForms(b: byte)
    ensures b >= 32 && b != 34 && b != 92 ==> JsonString([b]) == [34, b, 34]
    ensures b == 34 || b == 92 ==> JsonString([b]) == [34, 92, b, 34]
    ensures b < 32 ==> JsonString([b]) == [34, 92] + ControlText(b) + [34]
  {
    OneByte(b);
  }
}
