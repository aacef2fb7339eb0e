/**
 Text as bytes.  A Rust `str` is its UTF-8 bytes, and every encoding modelled here
 works on those bytes.  Also decimal integers, as `to_string` prints them.
 */
module Bytes {

  type byte = x: int | 0 <= x < 256

  type Text = seq<byte>

  datatype Option<+T> = None | Some(value: T)

  /** The bytes of an ASCII literal. */
  function Ascii(s: string): (t: Text)
    ensures |t| == |s|
  {
    seq(|s|, i requires 0 <= i < |s| => (s[i] as int) % 256)
  }

  predicate IsDigit(b: byte)
  {
    48 <= b <= 57
  }

  function NatText(n: nat): (t: Text)
    ensures |t| > 0
    ensures forall i :: 0 <= i < |t| ==> IsDigit(t[i])
  {
    if n < 10 then [48 + n] else NatText(n / 10) + [48 + n % 10]
  }

  function NatValue(t: Text): nat
    requires forall i :: 0 <= i < |t| ==> IsDigit(t[i])
  {
    if t == [] then 0
    else
      assert IsDigit(t[|t| - 1]);
      10 * NatValue(t[..|t| - 1]) + (t[|t| - 1] as int - 48)
  }

  const MINUS: byte := 45

  function IntText(n: int): (t: Text)
    ensures |t| > 0
  {
    if n < 0 then [MINUS] + NatText(-n) else NatText(n)
  }

  /** The number of leading digits. */
  function DigitSpan(t: Text): (k: nat)
    ensures k <= |t|
    ensures forall i :: 0 <= i < k ==> IsDigit(t[i])
    ensures k < |t| ==> !IsDigit(t[k])
  {
    if t == [] || !IsDigit(t[0]) then 0 else 1 + DigitSpan(t[1..])
  }

  /** Reads the digits at the start and returns their value with the text after them. */
  function ParseNat(t: Text): Option<(nat, Text)>
  {
    var k := DigitSpan(t);
    if k == 0 then None else Some((NatValue(t[..k]), t[k..]))
  }

  /** Reads an integer and returns it with the text after it. */
  function ParseInt(t: Text): (r: Option<(int, Text)>)
    ensures r.Some? ==> |r.value.1| < |t|
  {
    if t != [] && t[0] == MINUS then Negated(ParseNat(t[1..])) else ParseNat(t)
  }

  function Negated(r: Option<(nat, Text)>): Option<(int, Text)>
  {
    if r.Some? then Some((-(r.value.0 as int), r.value.1)) else None
  }

  lemma {:induction false} NatRoundTrip(n: nat)
    ensures NatValue(NatText(n)) == n
  {
    if n >= 10 {
      NatRoundTrip(n / 10);
      var t := NatText(n);
      assert t[..|t| - 1] == NatText(n / 10);
    }
  }

  lemma {:induction false} SpanUnique(t: Text, k: nat)
    requires k <= |t| && (forall i :: 0 <= i < k ==> IsDigit(t[i])) && (k < |t| ==> !IsDigit(t[k]))
    ensures DigitSpan(t) == k
  {
    if k > 0 {
      SpanUnique(t[1..], k - 1);
    }
  }

  /** Digits followed by something else read as their value. */
  lemma DigitsRead(digits: Text, rest: Text)
    requires digits != [] && forall i :: 0 <= i < |digits| ==> IsDigit(digits[i])
    requires rest != [] ==> !IsDigit(rest[0])
    ensures ParseNat(digits + rest) == Some((NatValue(digits), rest))
  {
    var u := digits + rest;
    SpanUnique(u, |digits|);
    assert u[..|digits|] == digits && u[|digits|..] == rest;
  }

  lemma SignRead(digits: Text, rest: Text)
    requires digits != [] && IsDigit(digits[0])
    ensures ParseInt(digits + rest) == ParseNat(digits + rest)
    ensures ParseInt([MINUS] + digits + rest) == Negated(ParseNat(digits + rest))
  {
    assert (digits + rest)[0] == digits[0];
    assert ([MINUS] + digits + rest)[1..] == digits + rest;
  }

  /** Reading back a printed integer, whatever non-digit follows it. */
  lemma IntRoundTrip(n: int, rest: Text)
    requires rest != [] ==> !IsDigit(rest[0])
    ensures ParseInt(IntText(n) + rest) == Some((n, rest))
  {
    var m: nat := if n < 0 then -n else n;
    NatRoundTrip(m);
    DigitsRead(NatText(m), rest);
    SignRead(NatText(m), rest);
  }

  /** No leading zero, and a sign only on negative numbers. */
  lemma {:induction false} NatTextLead(n: nat)
    ensures NatText(n)[0] == 48 <==> n == 0
    ensures n == 0 ==> NatText(n) == [48]
  {
    if n >= 10 {
      NatTextLead(n / 10);
    }
  }

  const I64_LIMIT := 0x8000_0000_0000_0000

  type i64 = x: int | -I64_LIMIT <= x < I64_LIMIT

  function Pow10(k: nat): nat
  {
    if k == 0 then 1 else 10 * Pow10(k - 1)
  }

  lemma {:induction false} NatTextLength(n: nat, k: nat)
    requires k > 0 && n < Pow10(k)
    ensures |NatText(n)| <= k
  {
    if n >= 10 {
      assert k > 1 by {
        assert Pow10(1) == 10;
      }
      NatTextLength(n / 10, k - 1);
    }
  }

  /** A 64-bit integer prints in at most twenty bytes. */
  lemma I64TextLength(n: i64)
    ensures |IntText(n)| <= 20
  {
    assert Pow10(19) == 10_000_000_000_000_000_000 by {
      assert Pow10(5) == 100_000;
      assert Pow10(10) == 10_000_000_000;
      assert Pow10(15) == 1_000_000_000_000_000;
    }
    var m: int := n;
    NatTextLength(if m < 0 then -m else m, 19);
  }

  lemma IntTextInjective(m: int, n: int)
    requires IntText(m) == IntText(n)
    ensures m == n
  {
    IntRoundTrip(m, []);
    IntRoundTrip(n, []);
  }

  // ---------- the byte order of text ----------

  predicate TextLess(a: Text, b: Text)
  {
    b != [] && (a == [] || a[0] < b[0] || (a[0] == b[0] && TextLess(a[1..], b[1..])))
  }

  ghost predicate SmallerAt(a: Text, b: Text, k: nat)
  {
    k <= |a| && k < |b| && a[..k] == b[..k] && (k == |a| || a[k] < b[k])
  }

  /** The order of the first byte that differs, where the end of the text counts as smallest. */
  lemma {:induction false} TextLessIff(a: Text, b: Text)
    ensures TextLess(a, b) <==> exists k: nat :: SmallerAt(a, b, k)
  {
    if a == [] {
      assert b != [] ==> SmallerAt(a, b, 0);
    } else if b != [] && a[0] < b[0] {
      assert SmallerAt(a, b, 0);
    } else if b != [] && a[0] == b[0] {
      TextLessIff(a[1..], b[1..]);
      assert a == [a[0]] + a[1..] && b == [b[0]] + b[1..];
      if k: nat :| SmallerAt(a[1..], b[1..], k) {
        assert a[..k + 1] == [a[0]] + a[1..][..k] && b[..k + 1] == [b[0]] + b[1..][..k];
        assert SmallerAt(a, b, k + 1);
      } else if k: nat :| SmallerAt(a, b, k) {
        assert a[1..][..k - 1] == a[..k][1..] && b[1..][..k - 1] == b[..k][1..];
        assert SmallerAt(a[1..], b[1..], k - 1);
      }
    } else if b != [] {
      forall k: nat
        ensures !SmallerAt(a, b, k)
      {
        assert k > 0 && k <= |a| && k < |b| ==> a[..k][0] == a[0] && b[..k][0] == b[0];
      }
    }
  }

  lemma {:induction false} TextOrder(a: Text, b: Text, c: Text)
    ensures !TextLess(a, a)
    ensures a == b || TextLess(a, b) || TextLess(b, a)
    ensures TextLess(a, b) && TextLess(b, c) ==> TextLess(a, c)
    decreases |a| + |b| + |c|
  {
    if a != [] && b != [] {
      TextOrder(a[1..], b[1..], if c == [] then c else c[1..]);
      assert a[0] == b[0] && a[1..] == b[1..] ==> a == b by {
        assert a == [a[0]] + a[1..] && b == [b[0]] + b[1..];
      }
    } else if a != [] {
      TextOrder(a[1..], b, if c == [] then c else c[1..]);
    }
  }
}
