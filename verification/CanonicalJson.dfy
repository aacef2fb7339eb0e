/**
 The fixed-field JSON texts that action signatures and action hashes are computed
 over, with a parser that inverts the printers.  Strings are escaped as serde_json
 escapes them, a subset of what section 7 of RFC 8259 allows.
 */
module CanonicalJson {
  import opened Bytes

  const QUOTE: byte := 34
  const BACKSLASH: byte := 92
  const COMMA: byte := 44
  const OPEN_BRACKET: byte := 91
  const CLOSE_BRACKET: byte := 93
  const OPEN_BRACE: byte := 123

  // ---------- strings ----------

  function HexDigit(n: int): byte
    requires 0 <= n < 16
  {
    if n < 10 then 48 + n else 87 + n
  }

  /** The letter after the backslash of a two-byte escape, or 0. */
  function ShortEscape(b: byte): byte
  {
    if b == 34 || b == 92 then b
    else if b == 8 then 98 else if b == 9 then 116 else if b == 10 then 110
    else if b == 12 then 102 else if b == 13 then 114 else 0
  }

  function EscapeByte(b: byte): (t: Text)
    ensures |t| > 0
  {
    if ShortEscape(b) != 0 then [BACKSLASH, ShortEscape(b)]
    else if b < 32 then [BACKSLASH, 117, 48, 48, HexDigit(b / 16), HexDigit(b % 16)]
    else [b]
  }

  function Escape(s: Text): Text
  {
    if s == [] then [] else EscapeByte(s[0]) + Escape(s[1..])
  }

  function JsonString(s: Text): (t: Text)
    ensures |t| > 0 && t[0] == QUOTE
  {
    [QUOTE] + Escape(s) + [QUOTE]
  }

  function UnhexDigit(b: byte): int
  {
    if IsDigit(b) then b - 48 else if 97 <= b <= 102 then b - 87 else -1
  }

  function ShortUnescape(b: byte): int
  {
    if b == 34 || b == 92 then b
    else if b == 98 then 8 else if b == 116 then 9 else if b == 110 then 10
    else if b == 102 then 12 else if b == 114 then 13 else -1
  }

  /** One possibly escaped byte and the text after it. */
  function ParseByte(t: Text): (r: Option<(byte, Text)>)
    ensures r.Some? ==> |r.value.1| < |t|
  {
    if t == [] then None
    else if t[0] != BACKSLASH then (if t[0] < 32 then None else Some((t[0], t[1..])))
    else if |t| < 2 then None
    else if ShortUnescape(t[1]) >= 0 then Some((ShortUnescape(t[1]), t[2..]))
    else if t[1] != 117 || |t| < 6 || t[2] != 48 || t[3] != 48 then None
    else
      var hi, lo := UnhexDigit(t[4]), UnhexDigit(t[5]);
      if hi < 0 || lo < 0 then None else Some((16 * hi + lo, t[6..]))
  }

  /** The body of a string up to its closing quote, and the text after the quote. */
  function ParseBody(t: Text): (r: Option<(Text, Text)>)
    ensures r.Some? ==> |r.value.1| < |t|
    decreases |t|
  {
    if t == [] then None
    else if t[0] == QUOTE then Some(([], t[1..]))
    else
      match ParseByte(t)
      case None => None
      case Some((b, u)) =>
        match ParseBody(u)
        case None => None
        case Some((s, v)) => Some(([b] + s, v))
  }

  function ParseString(t: Text): (r: Option<(Text, Text)>)
    ensures r.Some? ==> |r.value.1| < |t|
  {
    if t == [] || t[0] != QUOTE then None else ParseBody(t[1..])
  }

  lemma ByteRoundTrip(b: byte, rest: Text)
    ensures ParseByte(EscapeByte(b) + rest) == Some((b, rest))
    ensures (EscapeByte(b) + rest)[0] != QUOTE
  {
    var t := EscapeByte(b) + rest;
    if ShortEscape(b) != 0 {
      assert t[2..] == rest;
    } else if b < 32 {
      assert t[4] == HexDigit(b / 16) && t[5] == HexDigit(b % 16) && t[6..] == rest;
    } else {
      assert t[1..] == rest;
    }
  }

  lemma {:induction false} BodyRoundTrip(s: Text, rest: Text)
    ensures ParseBody(Escape(s) + ([QUOTE] + rest)) == Some((s, rest))
  {
    var tail := [QUOTE] + rest;
    if s == [] {
      assert Escape(s) + tail == tail && tail[1..] == rest;
    } else {
      var u := Escape(s[1..]) + tail;
      assert Escape(s) + tail == EscapeByte(s[0]) + u;
      ByteRoundTrip(s[0], u);
      BodyRoundTrip(s[1..], rest);
      assert [s[0]] + s[1..] == s;
    }
  }

  lemma StringRoundTrip(s: Text, rest: Text)
    ensures ParseString(JsonString(s) + rest) == Some((s, rest))
  {
    var t := JsonString(s) + rest;
    assert t[1..] == Escape(s) + ([QUOTE] + rest);
    BodyRoundTrip(s, rest);
  }

  // ---------- lists of strings ----------

  /** The elements of a list, joined by commas, without its brackets. */
  function JoinStrings(items: seq<Text>): Text
  {
    if items == [] then []
    else if |items| == 1 then JsonString(items[0])
    else JsonString(items[0]) + [COMMA] + JoinStrings(items[1..])
  }

  /** One or more strings separated by commas; stops before anything else. */
  function ParseItems(t: Text): (r: Option<(seq<Text>, Text)>)
    ensures r.Some? ==> |r.value.1| < |t|
    decreases |t|
  {
    match ParseString(t)
    case None => None
    case Some((s, u)) =>
      if u == [] || u[0] != COMMA then Some(([s], u))
      else
        match ParseItems(u[1..])
        case None => None
        case Some((rest, v)) => Some(([s] + rest, v))
  }

  function ParseList(t: Text): (r: Option<(seq<Text>, Text)>)
    ensures r.Some? ==> |r.value.1| <= |t|
  {
    if t != [] && t[0] == CLOSE_BRACKET then Some(([], t)) else ParseItems(t)
  }

  lemma ItemsCons(s: Text, items: seq<Text>, w: Text, rest: Text)
    requires ParseItems(w) == Some((items, rest))
    ensures ParseItems(JsonString(s) + ([COMMA] + w)) == Some(([s] + items, rest))
  {
    var u := [COMMA] + w;
    StringRoundTrip(s, u);
    assert u[0] == COMMA && u[1..] == w;
  }

  lemma ItemsLast(s: Text, rest: Text)
    requires rest != [] && rest[0] == CLOSE_BRACKET
    ensures ParseItems(JsonString(s) + rest) == Some(([s], rest))
  {
    StringRoundTrip(s, rest);
  }

  lemma JoinedTwo(a: Text, b: Text, c: Text, d: Text)
    ensures a + b + c + d == a + (b + (c + d))
  {
  }

  lemma {:induction false} ItemsRoundTrip(items: seq<Text>, rest: Text)
    requires items != [] && rest != [] && rest[0] == CLOSE_BRACKET
    ensures ParseItems(JoinStrings(items) + rest) == Some((items, rest))
  {
    if |items| == 1 {
      ItemsLast(items[0], rest);
      assert items == [items[0]];
    } else {
      ItemsRoundTrip(items[1..], rest);
      ItemsCons(items[0], items[1..], JoinStrings(items[1..]) + rest, rest);
      JoinedTwo(JsonString(items[0]), [COMMA], JoinStrings(items[1..]), rest);
      assert items == [items[0]] + items[1..];
    }
  }

  lemma JoinedLead(items: seq<Text>)
    requires items != []
    ensures JoinStrings(items) != [] && JoinStrings(items)[0] == QUOTE
  {
    assert JsonString(items[0])[0] == QUOTE;
  }

  lemma ListRoundTrip(items: seq<Text>, rest: Text)
    requires rest != [] && rest[0] == CLOSE_BRACKET
    ensures ParseList(JoinStrings(items) + rest) == Some((items, rest))
  {
    if items == [] {
      assert JoinStrings(items) + rest == rest;
    } else {
      JoinedLead(items);
      ItemsRoundTrip(items, rest);
    }
  }

  // ---------- format strings with their arguments ----------

  /** An argument of a formatted text. */
  datatype Arg = Str(s: Text) | Num(n: int) | Strs(items: seq<Text>)

  /** Literal text followed by an argument. */
  datatype Member = Member(key: Text, arg: Arg)

  function PrintArg(a: Arg): Text
  {
    match a
    case Str(s) => JsonString(s)
    case Num(n) => IntText(n)
    case Strs(items) => JoinStrings(items)
  }

  /** The members in order and then the closing text. */
  function Print(ms: seq<Member>, end: Text): Text
  {
    if ms == [] then end else ms[0].key + (PrintArg(ms[0].arg) + Print(ms[1..], end))
  }

  predicate SameKind(a: Arg, b: Arg)
  {
    (a.Str? && b.Str?) || (a.Num? && b.Num?) || (a.Strs? && b.Strs?)
  }

  /** Same literals and the same kinds of argument. */
  predicate SameShape(ms: seq<Member>, ns: seq<Member>)
  {
    |ms| == |ns| && forall i :: 0 <= i < |ms| ==> ms[i].key == ns[i].key && SameKind(ms[i].arg, ns[i].arg)
  }

  /** Text whose first byte cannot continue the argument before it. */
  predicate Ends(a: Arg, next: Text)
  {
    next != [] && (a.Num? ==> !IsDigit(next[0])) && (a.Strs? ==> next[0] == CLOSE_BRACKET)
  }

  /** The literal text that follows member i. */
  function After(ms: seq<Member>, end: Text, i: nat): Text
    requires i < |ms|
  {
    if i + 1 < |ms| then ms[i + 1].key else end
  }

  /** Every argument is followed by text that cannot be mistaken for more of it. */
  predicate Delimited(ms: seq<Member>, end: Text)
  {
    forall i :: 0 <= i < |ms| ==> Ends(ms[i].arg, After(ms, end, i))
  }

  /** Reads one argument of the same kind as `shape`. */
  function ParseArg(shape: Arg, t: Text): Option<(Arg, Text)>
  {
    match shape
    case Str(_) => (match ParseString(t) case None => None case Some((s, u)) => Some((Str(s), u)))
    case Num(_) => (match ParseInt(t) case None => None case Some((n, u)) => Some((Num(n), u)))
    case Strs(_) => (match ParseList(t) case None => None case Some((l, u)) => Some((Strs(l), u)))
  }

  /** Reads a whole text of the given shape. */
  function Parse(shape: seq<Member>, end: Text, t: Text): Option<seq<Member>>
  {
    if shape == [] then (if t == end then Some([]) else None)
    else if !(shape[0].key <= t) then None
    else
      match ParseArg(shape[0].arg, t[|shape[0].key|..])
      case None => None
      case Some((a, u)) =>
        match Parse(shape[1..], end, u)
        case None => None
        case Some(rest) => Some([Member(shape[0].key, a)] + rest)
  }

  lemma ArgRoundTrip(shape: Arg, a: Arg, rest: Text)
    requires SameKind(shape, a) && Ends(a, rest)
    ensures ParseArg(shape, PrintArg(a) + rest) == Some((a, rest))
  {
    match a
    case Str(s) => StringRoundTrip(s, rest);
    case Num(n) => IntRoundTrip(n, rest);
    case Strs(items) => ListRoundTrip(items, rest);
  }

  lemma PrintedHead(ms: seq<Member>, end: Text)
    requires ms != []
    ensures ms[0].key <= Print(ms, end)
    ensures Print(ms, end)[|ms[0].key|..] == PrintArg(ms[0].arg) + Print(ms[1..], end)
  {
  }

  lemma ParseStep(shape: seq<Member>, end: Text, t: Text, a: Arg, u: Text, rest: seq<Member>)
    requires shape != [] && shape[0].key <= t && ParseArg(shape[0].arg, t[|shape[0].key|..]) == Some((a, u))
    requires Parse(shape[1..], end, u) == Some(rest)
    ensures Parse(shape, end, t) == Some([Member(shape[0].key, a)] + rest)
  {
  }

  lemma TailFollows(ms: seq<Member>, end: Text)
    requires ms != [] && Delimited(ms, end)
    ensures Ends(ms[0].arg, Print(ms[1..], end))
  {
    assert Ends(ms[0].arg, After(ms, end, 0));
  }

  /** The parser recovers every argument of a delimited format string. */
  lemma {:induction false} FormatRoundTrip(shape: seq<Member>, ms: seq<Member>, end: Text)
    requires SameShape(shape, ms) && Delimited(ms, end)
    ensures Parse(shape, end, Print(ms, end)) == Some(ms)
  {
    if ms != [] {
      var rest := Print(ms[1..], end);
      PrintedHead(ms, end);
      TailFollows(ms, end);
      ArgRoundTrip(shape[0].arg, ms[0].arg, rest);
      TailDelimited(ms, end);
      FormatRoundTrip(shape[1..], ms[1..], end);
      ParseStep(shape, end, Print(ms, end), ms[0].arg, rest, ms[1..]);
      assert ms == [ms[0]] + ms[1..];
    }
  }

  lemma TailDelimited(ms: seq<Member>, end: Text)
    requires ms != [] && Delimited(ms, end)
    ensures Delimited(ms[1..], end)
  {
    var ns := ms[1..];
    forall i | 0 <= i < |ns|
      ensures Ends(ns[i].arg, After(ns, end, i))
    {
      assert Ends(ms[i + 1].arg, After(ms, end, i + 1));
    }
  }

  // ---------- the two envelopes ----------

  /** The literal text that introduces a member: a brace or comma, the quoted name and a colon. */
  function Key(lead: byte, name: string): (t: Text)
    ensures |t| > 2 && t[0] == lead
  {
    [lead, QUOTE] + Ascii(name) + [QUOTE, 58]
  }

  const END: Text := [125]

  function Zip(keys: seq<Text>, args: seq<Arg>): (ms: seq<Member>)
    requires |keys| == |args|
    ensures |ms| == |keys| && forall i :: 0 <= i < |ms| ==> ms[i].key == keys[i] && ms[i].arg == args[i]
  {
    seq(|keys|, i requires 0 <= i < |keys| => Member(keys[i], args[i]))
  }

  function ArgsOf(ms: seq<Member>): seq<Arg>
  {
    seq(|ms|, i requires 0 <= i < |ms| => ms[i].arg)
  }

  lemma ArgsOfZip(keys: seq<Text>, args: seq<Arg>)
    requires |keys| == |args|
    ensures ArgsOf(Zip(keys, args)) == args
  {
  }

  /** The byte each key after the first begins with: a bracket at position `list`, a comma elsewhere. */
  predicate Leads(keys: seq<Text>, list: nat)
  {
    forall i :: 1 <= i < |keys| ==> keys[i] != [] && keys[i][0] == if i == list then CLOSE_BRACKET else COMMA
  }

  /** Arguments of the same kinds, with a list exactly before position `list`. */
  predicate Alike(args: seq<Arg>, others: seq<Arg>, list: nat)
  {
    |args| == |others|
    && forall i :: 0 <= i < |args| ==> SameKind(args[i], others[i]) && (args[i].Strs? ==> i + 1 == list < |args|)
  }

  lemma ZipFormat(keys: seq<Text>, args: seq<Arg>, others: seq<Arg>, list: nat)
    requires |keys| == |args| && Leads(keys, list) && Alike(args, others, list)
    ensures SameShape(Zip(keys, others), Zip(keys, args)) && Delimited(Zip(keys, args), END)
  {
    var ms := Zip(keys, args);
    forall i | 0 <= i < |ms|
      ensures Ends(ms[i].arg, After(ms, END, i))
    {
      if i + 1 < |ms| {
        assert ms[i + 1].key == keys[i + 1];
      }
      assert SameKind(args[i], others[i]);
    }
  }

  datatype Envelope = Envelope(
    agentId: Text, humanKeyImage: Text, action: Text, resource: Text, merchantId: Text, amountMinor: int,
    currency: Text, nonce: Text, expiresAt: int, policyHash: Text, ajwtJti: Text)

  function EnvelopeKeys(): (ks: seq<Text>)
    ensures |ks| == 11
  {
    [Key(OPEN_BRACE, "agent_id"), Key(COMMA, "human_key_image"), Key(COMMA, "action"), Key(COMMA, "resource"),
     Key(COMMA, "merchant_id"), Key(COMMA, "amount_minor"), Key(COMMA, "currency"), Key(COMMA, "nonce"),
     Key(COMMA, "expires_at"), Key(COMMA, "policy_hash"), Key(COMMA, "ajwt_jti")]
  }

  function EnvelopeArgs(e: Envelope): seq<Arg>
  {
    [Str(e.agentId), Str(e.humanKeyImage), Str(e.action), Str(e.resource), Str(e.merchantId), Num(e.amountMinor),
     Str(e.currency), Str(e.nonce), Num(e.expiresAt), Str(e.policyHash), Str(e.ajwtJti)]
  }

  function EnvelopeMembers(e: Envelope): seq<Member>
  {
    Zip(EnvelopeKeys(), EnvelopeArgs(e))
  }

  function CanonicalEnvelopeJson(e: Envelope): Text
  {
    Print(EnvelopeMembers(e), END)
  }

  const BLANK := Envelope([], [], [], [], [], 0, [], [], 0, [], [])

  /** The envelope with these values. */
  function EnvelopeOf(args: seq<Arg>): Option<Envelope>
  {
    if |args| == 11 && args[0].Str? && args[1].Str? && args[2].Str? && args[3].Str? && args[4].Str?
       && args[5].Num? && args[6].Str? && args[7].Str? && args[8].Num? && args[9].Str? && args[10].Str?
    then Some(Envelope(args[0].s, args[1].s, args[2].s, args[3].s, args[4].s, args[5].n,
                       args[6].s, args[7].s, args[8].n, args[9].s, args[10].s))
    else None
  }

  /** Reads an identified envelope back from its canonical text. */
  function ParseEnvelope(t: Text): Option<Envelope>
  {
    match Parse(EnvelopeMembers(BLANK), END, t)
    case None => None
    case Some(ms) => EnvelopeOf(ArgsOf(ms))
  }

  lemma EnvelopeKeysLead()
    ensures Leads(EnvelopeKeys(), 0)
  {
  }

  lemma EnvelopeParses(e: Envelope)
    ensures Parse(EnvelopeMembers(BLANK), END, CanonicalEnvelopeJson(e)) == Some(EnvelopeMembers(e))
  {
    EnvelopeKeysLead();
    EnvelopeArgsAlike(e);
    ZipFormat(EnvelopeKeys(), EnvelopeArgs(e), EnvelopeArgs(BLANK), 0);
    FormatRoundTrip(EnvelopeMembers(BLANK), EnvelopeMembers(e), END);
  }

  lemma EnvelopeArgsAlike(e: Envelope)
    ensures Alike(EnvelopeArgs(e), EnvelopeArgs(BLANK), 0)
  {
  }

  lemma EnvelopeReadBack(e: Envelope)
    ensures EnvelopeOf(ArgsOf(EnvelopeMembers(e))) == Some(e)
  {
    ArgsOfZip(EnvelopeKeys(), EnvelopeArgs(e));
  }

  /** The parser inverts the printer, for all strings and all integers. */
  lemma EnvelopeRoundTrip(e: Envelope)
    ensures ParseEnvelope(CanonicalEnvelopeJson(e)) == Some(e)
  {
    EnvelopeParses(e);
    EnvelopeReadBack(e);
  }

  lemma EnvelopeInjective(d: Envelope, e: Envelope)
    ensures CanonicalEnvelopeJson(d) == CanonicalEnvelopeJson(e) <==> d == e
  {
    EnvelopeRoundTrip(d);
    EnvelopeRoundTrip(e);
  }

  datatype AnonEnvelope = AnonEnvelope(
    tenantId: Text, ringId: Text, alsoRingIds: seq<Text>, action: Text, resource: Text, merchantId: Text,
    amountMinor: int, currency: Text, configDigest: Text, nonce: Text, expiresAt: int)

  function AnonEnvelopeKeys(): (ks: seq<Text>)
    ensures |ks| == 11
  {
    [Key(OPEN_BRACE, "tenant_id"), Key(COMMA, "ring_id"), Key(COMMA, "also_ring_ids") + [OPEN_BRACKET],
     [CLOSE_BRACKET] + Key(COMMA, "action"), Key(COMMA, "resource"), Key(COMMA, "merchant_id"),
     Key(COMMA, "amount_minor"), Key(COMMA, "currency"), Key(COMMA, "config_digest"), Key(COMMA, "nonce"),
     Key(COMMA, "expires_at")]
  }

  function AnonEnvelopeArgs(e: AnonEnvelope): seq<Arg>
  {
    [Str(e.tenantId), Str(e.ringId), Strs(e.alsoRingIds), Str(e.action), Str(e.resource), Str(e.merchantId),
     Num(e.amountMinor), Str(e.currency), Str(e.configDigest), Str(e.nonce), Num(e.expiresAt)]
  }

  function AnonEnvelopeMembers(e: AnonEnvelope): seq<Member>
  {
    Zip(AnonEnvelopeKeys(), AnonEnvelopeArgs(e))
  }

  function CanonicalAnonEnvelopeJson(e: AnonEnvelope): Text
  {
    Print(AnonEnvelopeMembers(e), END)
  }

  const ANON_BLANK := AnonEnvelope([], [], [], [], [], [], 0, [], [], [], 0)

  /** The envelope with these values. */
  function AnonEnvelopeOf(args: seq<Arg>): Option<AnonEnvelope>
  {
    if |args| == 11 && args[0].Str? && args[1].Str? && args[2].Strs? && args[3].Str? && args[4].Str?
       && args[5].Str? && args[6].Num? && args[7].Str? && args[8].Str? && args[9].Str? && args[10].Num?
    then Some(AnonEnvelope(args[0].s, args[1].s, args[2].items, args[3].s, args[4].s, args[5].s,
                           args[6].n, args[7].s, args[8].s, args[9].s, args[10].n))
    else None
  }

  /** Reads an anonymous envelope back from its canonical text. */
  function ParseAnonEnvelope(t: Text): Option<AnonEnvelope>
  {
    match Parse(AnonEnvelopeMembers(ANON_BLANK), END, t)
    case None => None
    case Some(ms) => AnonEnvelopeOf(ArgsOf(ms))
  }

  lemma AnonEnvelopeKeysLead()
    ensures Leads(AnonEnvelopeKeys(), 3)
  {
  }

  lemma AnonEnvelopeParses(e: AnonEnvelope)
    ensures Parse(AnonEnvelopeMembers(ANON_BLANK), END, CanonicalAnonEnvelopeJson(e)) == Some(AnonEnvelopeMembers(e))
  {
    AnonEnvelopeKeysLead();
    AnonEnvelopeArgsAlike(e);
    ZipFormat(AnonEnvelopeKeys(), AnonEnvelopeArgs(e), AnonEnvelopeArgs(ANON_BLANK), 3);
    FormatRoundTrip(AnonEnvelopeMembers(ANON_BLANK), AnonEnvelopeMembers(e), END);
  }

  lemma AnonEnvelopeArgsAlike(e: AnonEnvelope)
    ensures Alike(AnonEnvelopeArgs(e), AnonEnvelopeArgs(ANON_BLANK), 3)
  {
  }

  lemma AnonEnvelopeRoundTrip(e: AnonEnvelope)
    ensures ParseAnonEnvelope(CanonicalAnonEnvelopeJson(e)) == Some(e)
  {
    AnonEnvelopeParses(e);
    AnonEnvelopeReadBack(e);
  }

  lemma AnonEnvelopeReadBack(e: AnonEnvelope)
    ensures AnonEnvelopeOf(ArgsOf(AnonEnvelopeMembers(e))) == Some(e)
  {
    ArgsOfZip(AnonEnvelopeKeys(), AnonEnvelopeArgs(e));
  }

  lemma AnonEnvelopeInjective(d: AnonEnvelope, e: AnonEnvelope)
    ensures CanonicalAnonEnvelopeJson(d) == CanonicalAnonEnvelopeJson(e) <==> d == e
  {
    AnonEnvelopeRoundTrip(d);
    AnonEnvelopeRoundTrip(e);
  }

  /** No text is the canonical form of both an identified and an anonymous envelope. */
  lemma EnvelopeKindsDisjoint(d: Envelope, e: AnonEnvelope)
    ensures CanonicalEnvelopeJson(d) != CanonicalAnonEnvelopeJson(e)
  {
    var t, u := CanonicalEnvelopeJson(d), CanonicalAnonEnvelopeJson(e);
    assert t[2] == Key(OPEN_BRACE, "agent_id")[2] == Ascii("agent_id")[0] == 97;
    assert u[2] == Key(OPEN_BRACE, "tenant_id")[2] == Ascii("tenant_id")[0] == 116;
  }
}
