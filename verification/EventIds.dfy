/**
 Event ids: a byte array in the "seen" filter, a lower-case hex string in the store and
 the database. All compare them digit by digit; that is comparing the numbers they denote.
 The other modules therefore use the number.
 */
module EventIds {

  ghost predicate Digits(base: nat, ds: seq<nat>) {
    forall i | 0 <= i < |ds| :: ds[i] < base
  }

  function Power(base: nat, n: nat): nat {
    if n == 0 then 1 else base * Power(base, n - 1)
  }

  /** The number a digit string denotes, first digit most significant. */
  function Value(base: nat, ds: seq<nat>): nat {
    if ds == [] then 0 else ds[0] * Power(base, |ds| - 1) + Value(base, ds[1..])
  }

  /** Lexicographic comparison of strings of the same length. */
  predicate LexLess(a: seq<nat>, b: seq<nat>)
    requires |a| == |b|
  {
    a != [] && (a[0] < b[0] || (a[0] == b[0] && LexLess(a[1..], b[1..])))
  }

  lemma MulMono(a: nat, b: nat, c: nat)
    requires a < b
    ensures a * c + c <= b * c
  {
    assert (a + 1) * c <= b * c;
  }

  lemma {:induction false} ValueBounded(base: nat, ds: seq<nat>)
    requires Digits(base, ds)
    ensures Value(base, ds) < Power(base, |ds|)
  {
    if ds != [] {
      ValueBounded(base, ds[1..]);
      MulMono(ds[0], base, Power(base, |ds| - 1));
    }
  }

  /** Comparing digit by digit is comparing the numbers. */
  lemma {:induction false} LexIsNumeric(base: nat, a: seq<nat>, b: seq<nat>)
    requires Digits(base, a) && Digits(base, b) && |a| == |b|
    ensures LexLess(a, b) <==> Value(base, a) < Value(base, b)
    ensures a == b <==> Value(base, a) == Value(base, b)
  {
    if a != [] {
      LexIsNumeric(base, a[1..], b[1..]);
      ValueBounded(base, a[1..]);
      ValueBounded(base, b[1..]);
      assert a == [a[0]] + a[1..] && b == [b[0]] + b[1..];
      if a[0] < b[0] {
        MulMono(a[0], b[0], Power(base, |a| - 1));
      } else if b[0] < a[0] {
        MulMono(b[0], a[0], Power(base, |a| - 1));
      }
    }
  }

  /** The hex digits of a byte string, two for each byte. */
  function Hex(bytes: seq<nat>): (ds: seq<nat>)
    ensures |ds| == 2 * |bytes|
  {
    if bytes == [] then [] else [bytes[0] / 16, bytes[0] % 16] + Hex(bytes[1..])
  }

  lemma {:induction false} HexDigits(bytes: seq<nat>)
    requires Digits(256, bytes)
    ensures Digits(16, Hex(bytes))
  {
    if bytes != [] {
      HexDigits(bytes[1..]);
      assert forall i | 2 <= i < |Hex(bytes)| :: Hex(bytes)[i] == Hex(bytes[1..])[i - 2];
    }
  }

  lemma {:induction false} HexLess(a: seq<nat>, b: seq<nat>)
    requires Digits(256, a) && Digits(256, b) && |a| == |b|
    ensures LexLess(Hex(a), Hex(b)) <==> LexLess(a, b)
  {
    if a != [] {
      var ha, hb := Hex(a), Hex(b);
      HexLess(a[1..], b[1..]);
      assert ha[1..][1..] == Hex(a[1..]) && hb[1..][1..] == Hex(b[1..]);
      assert LexLess(ha[1..], hb[1..]) <==>
             ha[1] < hb[1] || (ha[1] == hb[1] && LexLess(Hex(a[1..]), Hex(b[1..])));
    }
  }

  /** The order of the "seen" filter on raw ids is the order of the database on hex strings. */
  lemma SameOrder(a: seq<nat>, b: seq<nat>)
    requires Digits(256, a) && Digits(256, b) && |a| == |b|
    ensures LexLess(Hex(a), Hex(b)) <==> Value(256, a) < Value(256, b)
    ensures LexLess(Hex(a), Hex(b)) <==> Value(16, Hex(a)) < Value(16, Hex(b))
  {
    HexLess(a, b);
    LexIsNumeric(256, a, b);
    HexDigits(a);
    HexDigits(b);
    LexIsNumeric(16, Hex(a), Hex(b));
  }
}
