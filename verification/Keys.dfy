/** The order-preserving byte encoding of scalar tuples and the byte bounds of a
    prefix group (packages/engine/src/keys.ts). */
module Keys {
  import Lex
  import opened Values
  import opened Wrappers

  const TAG_NULL: Byte := 0x00
  const TAG_BOOL: Byte := 0x01
  const TAG_NUM: Byte := 0x02
  const TAG_TEXT: Byte := 0x04

  const TWO_52: int := 0x10_0000_0000_0000
  const TWO_63: int := 0x8000_0000_0000_0000
  const TWO_64: int := 0x1_0000_0000_0000_0000

  // ---------------------------------------------------------------- encoding

  /** The big-endian 64-bit pattern `setFloat64` stores. */
  function Bits(d: Double): int {
    (if d.neg then TWO_63 else 0) + d.exp * TWO_52 + d.mant
  }

  /** Negative numbers have all bits flipped, the others the sign bit set. */
  function OrderedBits(d: Double): (v: int)
    ensures 0 <= v < TWO_64
  {
    if Bits(d) >= TWO_63 then TWO_64 - 1 - Bits(d) else Bits(d) + TWO_63
  }

  function Pow256(n: nat): (p: nat)
    ensures p >= 1
  {
    if n == 0 then 1 else 256 * Pow256(n - 1)
  }

  function BigEndian(v: nat, n: nat): (bs: Bytes)
    ensures |bs| == n
  {
    if n == 0 then [] else BigEndian(v / 256, n - 1) + [v % 256]
  }

  /** UTF-8 (section 3 of RFC 3629). */
  function Utf8(c: CodePoint): (bs: Bytes)
    ensures bs != []
  {
    if c < 0x80 then [c]
    else if c < 0x800 then [0xC0 + c / 0x40, 0x80 + c % 0x40]
    else if c < 0x10000 then [0xE0 + c / 0x1000, 0x80 + c / 0x40 % 0x40, 0x80 + c % 0x40]
    else [0xF0 + c / 0x40000, 0x80 + c / 0x1000 % 0x40, 0x80 + c / 0x40 % 0x40, 0x80 + c % 0x40]
  }

  function TextBytes(t: Text): Bytes {
    if t == [] then [] else Utf8(t[0]) + TextBytes(t[1..])
  }

  /** 0x00 becomes 0x00 0xFF. */
  function Escape(bs: Bytes): Bytes {
    if bs == [] then []
    else (if bs[0] == 0 then [0x00, 0xFF] else [bs[0]]) + Escape(bs[1..])
  }

  /** Escaped bytes and the terminator. */
  function TextCode(t: Text): Bytes {
    Escape(TextBytes(t)) + [0x00, 0x00]
  }

  function EncodeScalar(v: Scalar): (bs: Bytes)
    ensures bs != [] && bs[0] <= TAG_TEXT
  {
    match v
    case Null => [TAG_NULL]
    case Bool(b) => [TAG_BOOL, if b then 1 else 0]
    case Num(d) => [TAG_NUM] + BigEndian(OrderedBits(d), 8)
    case Str(t) => [TAG_TEXT] + TextCode(t)
  }

  function EncodeKey(k: seq<Scalar>): Bytes {
    if k == [] then [] else EncodeScalar(k[0]) + EncodeKey(k[1..])
  }

  /** The bytes of null, of true, of 1 and -2, and of a text that holds a zero and a letter of two
      bytes. */
  lemma KnownKeys()
    ensures EncodeKey([Null]) == [0x00] && EncodeKey([Bool(true)]) == [0x01, 0x01]
    ensures EncodeKey([Num(Binary64(false, 1023, 0))]) == [0x02, 0xBF, 0xF0, 0, 0, 0, 0, 0, 0]
    ensures EncodeKey([Num(Binary64(true, 1024, 0))]) == [0x02, 0x3F, 0xFF, 0xFF, 0xFF, 0xFF, 0xFF, 0xFF, 0xFF]
    ensures EncodeKey([Str([0x61, 0, 0xE9])]) == [0x04, 0x61, 0x00, 0xFF, 0xC3, 0xA9, 0x00, 0x00]
  {
    hide EncodeKey, BigEndian, OrderedBits, TextCode;
    KnownNumbers();
    KnownText();
    KeyOfOne(Null);
    KeyOfOne(Bool(true));
    KeyOfOne(Num(Binary64(false, 1023, 0)));
    KeyOfOne(Num(Binary64(true, 1024, 0)));
    KeyOfOne(Str([0x61, 0, 0xE9]));
  }

  lemma KeyOfOne(v: Scalar)
    ensures EncodeKey([v]) == EncodeScalar(v)
  {
    hide EncodeScalar;
    assert EncodeScalar(v) + [] == EncodeScalar(v);
  }

  lemma KnownNumbers()
    ensures BigEndian(OrderedBits(Binary64(false, 1023, 0)), 8) == [0xBF, 0xF0, 0, 0, 0, 0, 0, 0]
    ensures BigEndian(OrderedBits(Binary64(true, 1024, 0)), 8) == [0x3F, 0xFF, 0xFF, 0xFF, 0xFF, 0xFF, 0xFF, 0xFF]
  {
    assert OrderedBits(Binary64(false, 1023, 0)) == 0xBFF0_0000_0000_0000;
    assert OrderedBits(Binary64(true, 1024, 0)) == 0x3FFF_FFFF_FFFF_FFFF;
    assert BigEndian(0xBFF0, 2) == [0xBF, 0xF0];
    assert BigEndian(0xBFF0_0000_0000, 6) == [0xBF, 0xF0, 0, 0, 0, 0];
    assert BigEndian(0x3FFF, 2) == [0x3F, 0xFF];
    assert BigEndian(0x3FFF_FFFF_FFFF, 6) == [0x3F, 0xFF, 0xFF, 0xFF, 0xFF, 0xFF];
  }

  lemma KnownText()
    ensures TextCode([0x61, 0, 0xE9]) == [0x61, 0x00, 0xFF, 0xC3, 0xA9, 0x00, 0x00]
  {
    var t: Text := [0x61, 0, 0xE9];
    assert t[1..] == [0, 0xE9] && t[1..][1..] == [0xE9];
    assert TextBytes(t) == [0x61, 0, 0xC3, 0xA9];
    assert Escape([0xC3, 0xA9]) == [0xC3, 0xA9] && Escape([0, 0xC3, 0xA9]) == [0, 0xFF, 0xC3, 0xA9];
  }

  // ---------------------------------------------------------------- the loops of the source

  lemma {:induction false} BigEndianAt(v: nat, n: nat, i: nat)
    requires i < n
    ensures BigEndian(v, n)[i] == v / Pow256(n - 1 - i) % 256
  {
    if i == n - 1 {
    } else {
      BigEndianAt(v / 256, n - 1, i);
      var p := Pow256(n - 2 - i);
      DivDiv(v, p);
    }
  }

  lemma DivDiv(v: nat, p: nat)
    requires p >= 1
    ensures v / 256 / p == v / (256 * p)
  {
    var q := v / 256 / p;
    var r := v / 256 % p;
    assert v == 256 * (q * p + r) + v % 256;
    assert v == q * (256 * p) + (256 * r + v % 256);
    QuotientUnique(v, 256 * p, q, 256 * r + v % 256);
  }

  lemma QuotientUnique(v: int, d: int, q: int, r: int)
    requires d > 0 && v == q * d + r && 0 <= r < d
    ensures v / d == q
  {
    SameQuotient(v / d, q, d, v % d, r);
  }

  lemma SameQuotient(p: int, q: int, d: int, s: int, r: int)
    requires 0 <= r < d && 0 <= s < d && p * d + s == q * d + r
    ensures p == q
  {
    assert (p - q) * d == p * d - q * d;
    if p > q {
      ProductGrows(1, p - q, d, d);
    } else if p < q {
      ProductGrows(1, q - p, d, d);
    }
  }

  method PushUint64BE(out: Bytes, v: nat) returns (r: Bytes)
    requires v < TWO_64
    ensures r == out + BigEndian(v, 8)
  {
    r := out;
    var shift := 8;
    while shift > 0
      invariant 0 <= shift <= 8
      invariant r == out + BigEndian(v, 8)[..8 - shift]
    {
      shift := shift - 1;
      BigEndianAt(v, 8, 7 - shift);
      r := r + [v / Pow256(shift) % 256];
    }
  }

  lemma {:induction false} EscapeAppend(a: Bytes, b: Bytes)
    ensures Escape(a + b) == Escape(a) + Escape(b)
  {
    if a == [] {
      assert a + b == b;
    } else {
      EscapeAppend(a[1..], b);
      assert (a + b)[1..] == a[1..] + b;
      Lex.ConcatAssociates(if a[0] == 0 then [0x00, 0xFF] else [a[0]], Escape(a[1..]), Escape(b));
    }
  }

  method PushText(t: Text, out: Bytes) returns (r: Bytes)
    ensures r == out + ([TAG_TEXT] + TextCode(t))
  {
    r := out + [TAG_TEXT];
    var bytes := TextBytes(t);
    for i := 0 to |bytes|
      invariant r == out + [TAG_TEXT] + Escape(bytes[..i])
    {
      EscapeAppend(bytes[..i], [bytes[i]]);
      assert bytes[..i + 1] == bytes[..i] + [bytes[i]];
      r := r + [bytes[i]];
      if bytes[i] == 0 {
        r := r + [0xFF];
      }
    }
    assert bytes[..|bytes|] == bytes;
    Lex.ConcatAssociates(out + [TAG_TEXT], Escape(bytes), [0x00, 0x00]);
    Lex.ConcatAssociates(out, [TAG_TEXT], TextCode(t));
    r := r + [0x00, 0x00];
  }

  method PushScalar(v: Scalar, out: Bytes) returns (r: Bytes)
    ensures r == out + EncodeScalar(v)
  {
    match v {
      case Null => r := out + [TAG_NULL];
      case Bool(b) => r := out + [TAG_BOOL, if b then 1 else 0];
      case Num(d) => r := PushUint64BE(out + [TAG_NUM], OrderedBits(d));
      case Str(t) => r := PushText(t, out);
    }
  }

  lemma {:induction false} EncodeKeyAppend(a: seq<Scalar>, b: seq<Scalar>)
    ensures EncodeKey(a + b) == EncodeKey(a) + EncodeKey(b)
  {
    hide EncodeScalar;
    if a == [] {
      assert a + b == b;
    } else {
      EncodeKeyAppend(a[1..], b);
      assert (a + b)[1..] == a[1..] + b;
      Lex.ConcatAssociates(EncodeScalar(a[0]), EncodeKey(a[1..]), EncodeKey(b));
    }
  }

  method BuildKey(values: seq<Scalar>) returns (out: Bytes)
    ensures out == EncodeKey(values)
  {
    out := [];
    for i := 0 to |values|
      invariant out == EncodeKey(values[..i])
    {
      EncodeKeyAppend(values[..i], [values[i]]);
      assert values[..i + 1] == values[..i] + [values[i]];
      out := PushScalar(values[i], out);
    }
    assert values[..|values|] == values;
  }

  method CompareBytes(a: Bytes, b: Bytes) returns (r: int)
    ensures r == Lex.Compare(a, b)
  {
    var n := if |a| < |b| then |a| else |b|;
    for i := 0 to n
      invariant a[..i] == b[..i]
    {
      if a[i] != b[i] {
        r := if a[i] < b[i] then -1 else 1;
        Lex.CompareUnderPrefix(a[..i], a[i..], b[i..]);
        assert a[..i] + a[i..] == a && b[..i] + b[i..] == b;
        return;
      }
    }
    Lex.CompareUnderPrefix(a[..n], a[n..], b[n..]);
    assert a[..n] + a[n..] == a && b[..n] + b[n..] == b;
    r := if |a| == |b| then 0 else if |a| < |b| then -1 else 1;
  }

  // ---------------------------------------------------------------- numbers

  /** On numbers other than NaN the flipped bits order as the values do; only the two
      zeros, equal as values, are told apart. */
  lemma OrderedBitsOrder(a: Double, b: Double)
    requires !a.NaN() && !b.NaN() && a != b
    ensures a.Scaled() < b.Scaled() ==> OrderedBits(a) < OrderedBits(b)
    ensures a.Scaled() == b.Scaled() ==> (a.NegZero() <==> OrderedBits(a) < OrderedBits(b))
  {
    if a.exp < b.exp || (a.exp == b.exp && a.mant < b.mant) {
      MagnitudeOrder(a.exp, a.mant, b.exp, b.mant);
    } else if a.exp != b.exp || a.mant != b.mant {
      MagnitudeOrder(b.exp, b.mant, a.exp, a.mant);
    } else if !a.Zero() {
      MagnitudeOrder(0, 0, a.exp, a.mant);
    }
  }

  /** NaN has the greatest pattern. */
  lemma NaNLast(a: Double, b: Double)
    requires a.NaN() && !b.NaN()
    ensures OrderedBits(b) < OrderedBits(a)
  {
  }

  /** Distinct fields have distinct patterns, NaN included. */
  lemma OrderedBitsInjective(a: Double, b: Double)
    requires OrderedBits(a) == OrderedBits(b)
    ensures a == b
  {
  }

  lemma {:induction false} BigEndianOrder(v: nat, w: nat, n: nat)
    requires v < w < Pow256(n)
    ensures Lex.Below(BigEndian(v, n), BigEndian(w, n))
  {
    if v / 256 < w / 256 {
      BigEndianOrder(v / 256, w / 256, n - 1);
      Lex.BelowDecides(BigEndian(v / 256, n - 1), BigEndian(w / 256, n - 1), [v % 256], [w % 256]);
    } else {
      Lex.BelowUnderPrefix(BigEndian(v / 256, n - 1), [v % 256], [w % 256]);
    }
  }

  lemma EncodeNumberOrder(a: Double, b: Double)
    requires OrderedBits(a) < OrderedBits(b)
    ensures Lex.Below(EncodeScalar(Num(a)), EncodeScalar(Num(b)))
  {
    assert Pow256(8) == TWO_64;
    BigEndianOrder(OrderedBits(a), OrderedBits(b), 8);
    Lex.BelowUnderPrefix([TAG_NUM], BigEndian(OrderedBits(a), 8), BigEndian(OrderedBits(b), 8));
  }

  // ---------------------------------------------------------------- text

  /** The escaped code of one character; only U+0000 holds a zero byte. */
  lemma EscapedCharacter(c: CodePoint)
    ensures Escape(Utf8(c)) == if c == 0 then [0x00, 0xFF] else Utf8(c)
  {
    var bs := Utf8(c);
    assert bs[1..] != [] ==> bs[1..][1..] == bs[2..];
    EscapeNonzero(if c == 0 then [] else bs);
  }

  lemma {:induction false} EscapeNonzero(bs: Bytes)
    requires forall i :: 0 <= i < |bs| ==> bs[i] != 0
    ensures Escape(bs) == bs
  {
    if bs == [] {
    } else {
      EscapeNonzero(bs[1..]);
    }
  }

  /** Smaller code points get smaller codes, and the terminator is below them all. */
  lemma CharacterOrder(c: CodePoint, d: CodePoint)
    requires c < d
    ensures Lex.Below(Escape(Utf8(c)), Escape(Utf8(d)))
  {
    EscapedCharacter(c);
    EscapedCharacter(d);
    Utf8Order(c, d);
    if c == 0 {
      Lex.BelowAt([0x00, 0xFF], Utf8(d), 0);
    }
  }

  /** A leading byte and `n` continuation bytes of six bits each. */
  function Continued(lead: int, c: nat, n: nat): seq<int> {
    if n == 0 then [lead + c] else Continued(lead, c / 0x40, n - 1) + [0x80 + c % 0x40]
  }

  lemma {:induction false} ContinuedOrder(lead: int, c: nat, d: nat, n: nat)
    requires c < d
    ensures Lex.Below(Continued(lead, c, n), Continued(lead, d, n))
  {
    if n == 0 {
    } else {
      var x, y := Continued(lead, c / 0x40, n - 1), Continued(lead, d / 0x40, n - 1);
      if c / 0x40 < d / 0x40 {
        ContinuedOrder(lead, c / 0x40, d / 0x40, n - 1);
        Lex.BelowDecides(x, y, [0x80 + c % 0x40], [0x80 + d % 0x40]);
      } else {
        Lex.BelowUnderPrefix(x, [0x80 + c % 0x40], [0x80 + d % 0x40]);
      }
    }
  }

  lemma Utf8Continued(c: CodePoint)
    ensures Utf8(c) == if c < 0x80 then Continued(0, c, 0) else if c < 0x800 then Continued(0xC0, c, 1)
                       else if c < 0x10000 then Continued(0xE0, c, 2) else Continued(0xF0, c, 3)
  {
    assert c / 0x40 / 0x40 == c / 0x1000 && c / 0x1000 / 0x40 == c / 0x40000;
    if 0x80 <= c < 0x800 {
      assert Continued(0xC0, c, 1) == Continued(0xC0, c / 0x40, 0) + [0x80 + c % 0x40];
    } else if 0x800 <= c < 0x10000 {
      assert Continued(0xE0, c, 2) == Continued(0xE0, c / 0x1000, 0) + [0x80 + c / 0x40 % 0x40] + [0x80 + c % 0x40];
    } else if c >= 0x10000 {
      assert Continued(0xF0, c, 3) == Continued(0xF0, c / 0x40, 2) + [0x80 + c % 0x40];
      assert Continued(0xF0, c / 0x40, 2) == Continued(0xF0, c / 0x1000, 1) + [0x80 + c / 0x40 % 0x40];
      assert Continued(0xF0, c / 0x1000, 1) == Continued(0xF0, c / 0x40000, 0) + [0x80 + c / 0x1000 % 0x40];
    }
  }

  lemma Utf8Order(c: CodePoint, d: CodePoint)
    requires c < d
    ensures Lex.Below(Utf8(c), Utf8(d))
  {
    Utf8Continued(c);
    Utf8Continued(d);
    if c < 0x80 <= d || c < 0x800 <= d || c < 0x10000 <= d {
      Lex.BelowAt(Utf8(c), Utf8(d), 0);
    } else {
      ContinuedOrder(if c < 0x80 then 0 else if c < 0x800 then 0xC0 else if c < 0x10000 then 0xE0 else 0xF0,
                     c, d, if c < 0x80 then 0 else if c < 0x800 then 1 else if c < 0x10000 then 2 else 3);
    }
  }

  lemma TerminatorFirst(c: CodePoint)
    ensures Lex.Below([0x00, 0x00], Escape(Utf8(c)))
  {
    EscapedCharacter(c);
  }

  lemma TextCodeStep(t: Text)
    requires t != []
    ensures TextCode(t) == Escape(Utf8(t[0])) + TextCode(t[1..])
  {
    EscapeAppend(Utf8(t[0]), TextBytes(t[1..]));
  }

  /** Encoded text follows the order of code points, on all text. */
  lemma {:induction false} TextCodeOrder(t: Text, u: Text)
    requires Lex.Compare(t, u) < 0
    ensures Lex.Below(TextCode(t), TextCode(u))
  {
    TextCodeStep(u);
    if t == [] {
      TerminatorFirst(u[0]);
      Lex.BelowDecides([0x00, 0x00], Escape(Utf8(u[0])), [], TextCode(u[1..]));
    } else {
      TextCodeStep(t);
      if t[0] == u[0] {
        TextCodeOrder(t[1..], u[1..]);
        Lex.BelowUnderPrefix(Escape(Utf8(t[0])), TextCode(t[1..]), TextCode(u[1..]));
      } else {
        CharacterOrder(t[0], u[0]);
        Lex.BelowDecides(Escape(Utf8(t[0])), Escape(Utf8(u[0])), TextCode(t[1..]), TextCode(u[1..]));
      }
    }
  }

  /** At the first character where the texts differ, one needs a surrogate pair in UTF-16
      and the other lies above the surrogates. */
  predicate SurrogateClash(t: Text, u: Text) {
    t != [] && u != [] &&
    if t[0] == u[0] then SurrogateClash(t[1..], u[1..])
    else (t[0] >= 0x10000 && 0xE000 <= u[0] < 0x10000) || (u[0] >= 0x10000 && 0xE000 <= t[0] < 0x10000)
  }

  /** UTF-16 order is code-point order except on a surrogate clash, where it is the reverse. */
  lemma {:induction false} Utf16Order(t: Text, u: Text)
    ensures Lex.Compare(Utf16(t), Utf16(u)) ==
            if SurrogateClash(t, u) then -Lex.Compare(t, u) else Lex.Compare(t, u)
  {
    if t == [] || u == [] {
    } else {
      if t[0] == u[0] {
        Utf16Order(t[1..], u[1..]);
        Lex.CompareUnderPrefix(Units(t[0]), Utf16(t[1..]), Utf16(u[1..]));
      } else {
        var x, y := Units(t[0]), Units(u[0]);
        if x[0] < y[0] || (x[0] == y[0] && x[1] < y[1]) {
          Lex.BelowAt(x, y, if x[0] == y[0] then 1 else 0);
          Lex.BelowDecides(x, y, Utf16(t[1..]), Utf16(u[1..]));
        } else {
          Lex.BelowAt(y, x, if y[0] == x[0] then 1 else 0);
          Lex.BelowDecides(y, x, Utf16(u[1..]), Utf16(t[1..]));
        }
      }
    }
  }

  // ---------------------------------------------------------------- scalars

  predicate OppositeZeros(a: Scalar, b: Scalar) {
    a.Num? && b.Num? && a.d.Zero() && b.d.Zero() && a.d.neg != b.d.neg
  }

  /** The pairs of scalars the comparator and the encoding order alike. */
  predicate Agreeing(a: Scalar, b: Scalar) {
    !OppositeZeros(a, b) && !(a.Str? && b.Str? && SurrogateClash(a.t, b.t))
  }

  lemma AgreeingIsSymmetric(a: Scalar, b: Scalar)
    ensures Agreeing(a, b) ==> Agreeing(b, a)
  {
    if a.Str? && b.Str? {
      ClashIsSymmetric(a.t, b.t);
    }
  }

  lemma {:induction false} ClashIsSymmetric(t: Text, u: Text)
    ensures SurrogateClash(t, u) == SurrogateClash(u, t)
  {
    if t == [] || u == [] || t[0] != u[0] {
    } else {
      ClashIsSymmetric(t[1..], u[1..]);
    }
  }

  lemma TextScalarOrder(t: Text, u: Text)
    requires Lex.Compare(t, u) < 0
    ensures Lex.Below(EncodeScalar(Str(t)), EncodeScalar(Str(u)))
  {
    TextCodeOrder(t, u);
    Lex.BelowUnderPrefix([TAG_TEXT], TextCode(t), TextCode(u));
  }

  /** Scalar codes are prefix-free: two distinct scalars part inside both codes. */
  lemma ScalarsPart(a: Scalar, b: Scalar)
    requires a != b
    ensures Lex.Below(EncodeScalar(a), EncodeScalar(b)) || Lex.Below(EncodeScalar(b), EncodeScalar(a))
  {
    if a.Num? && b.Num? {
      if OrderedBits(a.d) == OrderedBits(b.d) {
        OrderedBitsInjective(a.d, b.d);
      }
      if OrderedBits(a.d) < OrderedBits(b.d) {
        EncodeNumberOrder(a.d, b.d);
      } else {
        EncodeNumberOrder(b.d, a.d);
      }
    } else if a.Str? && b.Str? {
      Lex.CompareFlips(a.t, b.t);
      if Lex.Compare(a.t, b.t) < 0 {
        TextScalarOrder(a.t, b.t);
      } else {
        TextScalarOrder(b.t, a.t);
      }
    }
  }

  lemma ScalarsAgree(a: Scalar, b: Scalar)
    requires Agreeing(a, b) && CompareScalar(a, b) < 0
    ensures Lex.Below(EncodeScalar(a), EncodeScalar(b))
  {
    if a.Num? && b.Num? {
      if b.d.NaN() {
        NaNLast(b.d, a.d);
      } else {
        OrderedBitsOrder(a.d, b.d);
      }
      EncodeNumberOrder(a.d, b.d);
    } else if a.Str? && b.Str? {
      Utf16Order(a.t, b.t);
      TextScalarOrder(a.t, b.t);
    }
  }

  lemma AgreeingEqual(a: Scalar, b: Scalar)
    requires Agreeing(a, b)
    ensures CompareScalar(a, b) == 0 <==> a == b
  {
    if a.Num? && b.Num? && !a.d.NaN() && !b.d.NaN() && a.d.Scaled() == b.d.Scaled() {
      ScaledInjective(a.d, b.d);
    }
    if a.Str? && b.Str? {
      Utf16Order(a.t, b.t);
    }
  }

  /** Scalar by scalar, byte order is the comparator's order exactly when the pair is
      neither the two zeros nor a surrogate clash. */
  lemma ScalarOrderExactly(a: Scalar, b: Scalar)
    ensures Lex.Compare(EncodeScalar(a), EncodeScalar(b)) == CompareScalar(a, b)
            <==> !OppositeZeros(a, b) && !(a.Str? && b.Str? && SurrogateClash(a.t, b.t))
  {
    var x, y := EncodeScalar(a), EncodeScalar(b);
    assert x + [] == x && y + [] == y;
    CompareScalarFlips(a, b);
    Lex.CompareFlips(x, y);
    if Agreeing(a, b) {
      AgreeingEqual(a, b);
      AgreeingIsSymmetric(a, b);
      if CompareScalar(a, b) < 0 {
        ScalarsAgree(a, b);
        Lex.BelowDecides(x, y, [], []);
      } else if CompareScalar(a, b) > 0 {
        ScalarsAgree(b, a);
        Lex.BelowDecides(y, x, [], []);
      }
    } else if OppositeZeros(a, b) {
      ScalarsPart(a, b);
      Lex.BelowDecides(if Lex.Below(x, y) then x else y, if Lex.Below(x, y) then y else x, [], []);
    } else {
      Utf16Order(a.t, b.t);
      Lex.CompareFlips(a.t, b.t);
      ClashDiffers(a.t, b.t);
      if Lex.Compare(a.t, b.t) < 0 {
        TextScalarOrder(a.t, b.t);
        Lex.BelowDecides(x, y, [], []);
      } else {
        TextScalarOrder(b.t, a.t);
        Lex.BelowDecides(y, x, [], []);
      }
    }
  }

  lemma {:induction false} ClashDiffers(t: Text, u: Text)
    requires SurrogateClash(t, u)
    ensures t != u
  {
    if t[0] != u[0] {
    } else {
      ClashDiffers(t[1..], u[1..]);
    }
  }

  /** The comparator calls -0 and 0 equal; their keys differ. */
  lemma ZerosDisagree()
    ensures var z, w := Num(Binary64(true, 0, 0)), Num(Binary64(false, 0, 0));
            CompareScalar(z, w) == 0 && Lex.Compare(EncodeScalar(z), EncodeScalar(w)) != 0
  {
    ScalarOrderExactly(Num(Binary64(true, 0, 0)), Num(Binary64(false, 0, 0)));
  }

  /** U+FFFF sorts after U+10000 in the comparator and before it in the keys. */
  lemma TextDisagrees()
    ensures var t, u := Str([0xFFFF]), Str([0x10000]);
            CompareScalar(t, u) == 1 && Lex.Compare(EncodeScalar(t), EncodeScalar(u)) == -1
  {
    Utf16Order([0xFFFF], [0x10000]);
    TextScalarOrder([0xFFFF], [0x10000]);
    Lex.BelowDecides(EncodeScalar(Str([0xFFFF])), EncodeScalar(Str([0x10000])), [], []);
    assert EncodeScalar(Str([0xFFFF])) + [] == EncodeScalar(Str([0xFFFF]));
    assert EncodeScalar(Str([0x10000])) + [] == EncodeScalar(Str([0x10000]));
  }

  // ---------------------------------------------------------------- tuples

  /** Whether the first pair of a tuple that differs is ordered alike: it is no surrogate
      clash, and if it is the two zeros then what follows happens to decide the same way. */
  predicate KeysAgree(a: seq<Scalar>, b: seq<Scalar>) {
    if a == [] || b == [] then true
    else if a[0] == b[0] then KeysAgree(a[1..], b[1..])
    else if OppositeZeros(a[0], b[0]) then CompareTuples(a[1..], b[1..]) == (if a[0].d.neg then -1 else 1)
    else !(a[0].Str? && b[0].Str? && SurrogateClash(a[0].t, b[0].t))
  }

  /** Where two tuples first differ, the codes of that pair decide their keys. */
  lemma HeadDecides(a: seq<Scalar>, b: seq<Scalar>)
    requires a != [] && b != [] && a[0] != b[0]
    ensures Lex.Compare(EncodeKey(a), EncodeKey(b)) == Lex.Compare(EncodeScalar(a[0]), EncodeScalar(b[0])) != 0
  {
    var x, y := EncodeScalar(a[0]), EncodeScalar(b[0]);
    assert x + [] == x && y + [] == y;
    ScalarsPart(a[0], b[0]);
    Lex.CompareFlips(x, y);
    Lex.CompareFlips(EncodeKey(a), EncodeKey(b));
    if Lex.Below(x, y) {
      Lex.BelowDecides(x, y, EncodeKey(a[1..]), EncodeKey(b[1..]));
      Lex.BelowDecides(x, y, [], []);
    } else {
      Lex.BelowDecides(y, x, EncodeKey(b[1..]), EncodeKey(a[1..]));
      Lex.BelowDecides(y, x, [], []);
    }
  }

  lemma ZerosOrder(a: Scalar, b: Scalar)
    requires OppositeZeros(a, b)
    ensures CompareScalar(a, b) == 0
    ensures Lex.Compare(EncodeScalar(a), EncodeScalar(b)) == if a.d.neg then -1 else 1
  {
    var x, y := EncodeScalar(a), EncodeScalar(b);
    assert x + [] == x && y + [] == y;
    Lex.CompareFlips(x, y);
    OrderedBitsOrder(a.d, b.d);
    OrderedBitsOrder(b.d, a.d);
    if a.d.neg {
      EncodeNumberOrder(a.d, b.d);
      Lex.BelowDecides(x, y, [], []);
    } else {
      EncodeNumberOrder(b.d, a.d);
      Lex.BelowDecides(y, x, [], []);
    }
  }

  lemma DifferentCompare(a: Scalar, b: Scalar)
    requires a != b && !OppositeZeros(a, b)
    ensures CompareScalar(a, b) != 0
  {
    if a.Str? && b.Str? && SurrogateClash(a.t, b.t) {
      Utf16Order(a.t, b.t);
    } else {
      AgreeingEqual(a, b);
    }
  }

  /** Main result: memcmp of the keys of two tuples, of whatever lengths and elements, is the
      lexicographic comparison of the tuples if and only if the first pair that differs is
      ordered alike. */
  lemma {:induction false} KeyOrderExactly(a: seq<Scalar>, b: seq<Scalar>)
    ensures Lex.Compare(EncodeKey(a), EncodeKey(b)) == CompareTuples(a, b) <==> KeysAgree(a, b)
  {
    hide EncodeScalar, CompareScalar, SurrogateClash;
    if a == [] || b == [] {
      EmptyKeys(a, b);
    } else if a[0] == b[0] {
      SameIsZero(a[0]);
      KeyOrderExactly(a[1..], b[1..]);
      Lex.CompareUnderPrefix(EncodeScalar(a[0]), EncodeKey(a[1..]), EncodeKey(b[1..]));
    } else {
      HeadDecides(a, b);
      if OppositeZeros(a[0], b[0]) {
        ZerosOrder(a[0], b[0]);
      } else {
        DifferentCompare(a[0], b[0]);
        ScalarOrderExactly(a[0], b[0]);
      }
    }
  }

  lemma EmptyKeys(a: seq<Scalar>, b: seq<Scalar>)
    requires a == [] || b == []
    ensures Lex.Compare(EncodeKey(a), EncodeKey(b)) == CompareTuples(a, b)
  {
  }

  lemma SameIsZero(v: Scalar)
    ensures CompareScalar(v, v) == 0
  {
  }

  lemma {:induction false} AgreeingKeys(a: seq<Scalar>, b: seq<Scalar>)
    requires forall i :: 0 <= i < |a| && i < |b| ==> Agreeing(a[i], b[i])
    ensures KeysAgree(a, b)
  {
    if a == [] || b == [] {
    } else {
      assert Agreeing(a[0], b[0]);
      forall i | 0 <= i < |a[1..]| && i < |b[1..]| ensures Agreeing(a[1..][i], b[1..][i]) {
        assert Agreeing(a[i + 1], b[i + 1]);
      }
      AgreeingKeys(a[1..], b[1..]);
    }
  }

  /** Tuples whose elements agree pairwise are ordered by their keys. */
  lemma KeyOrder(a: seq<Scalar>, b: seq<Scalar>)
    requires forall i :: 0 <= i < |a| && i < |b| ==> Agreeing(a[i], b[i])
    ensures Lex.Compare(EncodeKey(a), EncodeKey(b)) == CompareTuples(a, b)
  {
    AgreeingKeys(a, b);
    KeyOrderExactly(a, b);
  }

  lemma PlainAgreeing(a: Scalar, b: Scalar)
    requires Plain(a) && Plain(b)
    ensures Agreeing(a, b)
  {
    if a.Str? && b.Str? {
      PlainNoClash(a.t, b.t);
    }
  }

  lemma {:induction false} PlainNoClash(t: Text, u: Text)
    requires Plain(Str(t)) && Plain(Str(u))
    ensures !SurrogateClash(t, u)
  {
    if t == [] || u == [] || t[0] != u[0] {
    } else {
      assert forall i :: 0 <= i < |t[1..]| ==> t[1..][i] == t[i + 1];
      assert forall i :: 0 <= i < |u[1..]| ==> u[1..][i] == u[i + 1];
      PlainNoClash(t[1..], u[1..]);
    }
  }

  lemma PlainKeyOrder(a: seq<Scalar>, b: seq<Scalar>)
    requires PlainTuple(a) && PlainTuple(b)
    ensures Lex.Compare(EncodeKey(a), EncodeKey(b)) == CompareTuples(a, b)
  {
    forall i | 0 <= i < |a| && i < |b| ensures Agreeing(a[i], b[i]) {
      PlainAgreeing(a[i], b[i]);
    }
    KeyOrder(a, b);
  }

  /** One key is a byte prefix of another exactly when its tuple is a prefix of the other's. */
  lemma {:induction false} KeyPrefix(p: seq<Scalar>, k: seq<Scalar>)
    ensures EncodeKey(p) <= EncodeKey(k) <==> p <= k
  {
    hide EncodeScalar;
    if p == [] || k == [] {
    } else {
      var x, y := EncodeScalar(p[0]), EncodeScalar(k[0]);
      if p[0] == k[0] {
        KeyPrefix(p[1..], k[1..]);
        PrefixUnderPrefix([p[0]], p[1..], k[1..]);
        assert p == [p[0]] + p[1..] && k == [p[0]] + k[1..];
        PrefixUnderPrefix(x, EncodeKey(p[1..]), EncodeKey(k[1..]));
      } else {
        ScalarsPart(p[0], k[0]);
        if Lex.Below(x, y) {
          BelowNotPrefix(x, y, EncodeKey(p[1..]), EncodeKey(k[1..]));
        } else {
          BelowNotPrefix(y, x, EncodeKey(k[1..]), EncodeKey(p[1..]));
        }
      }
    }
  }

  lemma PrefixUnderPrefix<T>(x: seq<T>, a: seq<T>, b: seq<T>)
    ensures x + a <= x + b <==> a <= b
  {
    assert (x + a)[|x|..] == a && (x + b)[|x|..] == b;
    if x + a <= x + b {
      assert a == (x + b)[|x|..|x| + |a|] == b[..|a|];
    }
  }

  lemma {:induction false} BelowNotPrefix(x: Bytes, y: Bytes, r: Bytes, s: Bytes)
    requires Lex.Below(x, y)
    ensures !(x + r <= y + s) && !(y + s <= x + r)
  {
    if x[0] == y[0] {
      BelowNotPrefix(x[1..], y[1..], r, s);
      assert x + r == [x[0]] + (x[1..] + r) && y + s == [x[0]] + (y[1..] + s);
      PrefixUnderPrefix([x[0]], x[1..] + r, y[1..] + s);
      PrefixUnderPrefix([x[0]], y[1..] + s, x[1..] + r);
    } else {
      assert (x + r)[0] != (y + s)[0];
    }
  }

  lemma KeyInjective(a: seq<Scalar>, b: seq<Scalar>)
    requires EncodeKey(a) == EncodeKey(b)
    ensures a == b
  {
    KeyPrefix(a, b);
    KeyPrefix(b, a);
  }

  // ---------------------------------------------------------------- prefix groups

  predicate InRange(key: Bytes, lo: Bytes, hi: Option<Bytes>) {
    !Lex.Less(key, lo) && (hi.Some? ==> Lex.Less(key, hi.value))
  }

  function PrefixUpperBound(prefix: Bytes): Option<Bytes> {
    if prefix == [] then None
    else
      var n := |prefix| - 1;
      if prefix[n] < 0xFF then Some(prefix[..n] + [prefix[n] + 1]) else PrefixUpperBound(prefix[..n])
  }

  method FindPrefixUpperBound(prefix: Bytes) returns (r: Option<Bytes>)
    ensures r == PrefixUpperBound(prefix)
  {
    var out := prefix;
    while out != []
      invariant PrefixUpperBound(out) == PrefixUpperBound(prefix)
      decreases |out|
    {
      var last := out[|out| - 1];
      if last < 0xFF {
        assert out[|out| - 1 := last + 1] == out[..|out| - 1] + [last + 1];
        return Some(out[|out| - 1 := last + 1]);
      }
      out := out[..|out| - 1];
    }
    r := None;
  }

  function Successor(key: Bytes): Bytes {
    key + [0x00]
  }

  /** The keys between a prefix and its upper bound are exactly its extensions. */
  lemma {:induction false} PrefixRange(p: Bytes, key: Bytes)
    ensures InRange(key, p, PrefixUpperBound(p)) <==> p <= key
  {
    if p == [] {
    } else {
      var n := |p| - 1;
      var q, x := p[..n], p[n];
      assert p == q + [x];
      Lex.CompareFlips(p, key);
      if p <= key {
        assert key == p + key[|p|..];
        Lex.PrefixNotAbove(p, key[|p|..]);
      }
      if q <= key {
        var tail := key[n..];
        assert key == q + tail;
        Lex.CompareUnderPrefix(q, tail, [x]);
        if x < 0xFF {
          Lex.CompareUnderPrefix(q, tail, [x + 1]);
        } else {
          PrefixRange(q, key);
        }
      } else {
        NotPrefixDecided(q, key, [x]);
        if x < 0xFF {
          NotPrefixDecided(q, key, [x + 1]);
        } else {
          PrefixRange(q, key);
          NotPrefixDecided(q, key, []);
          assert q + [] == q;
        }
      }
    }
  }

  /** A key that does not extend `q` lies on one side of every extension of `q`. */
  lemma {:induction false} NotPrefixDecided(q: Bytes, key: Bytes, r: Bytes)
    requires !(q <= key)
    ensures Lex.Compare(key, q + r) == Lex.Compare(key, q) != 0
  {
    if key == [] || q[0] != key[0] {
    } else {
      NotPrefixDecided(q[1..], key[1..], r);
      assert (q + r)[1..] == q[1..] + r;
    }
  }

  /** The bound is the least key above every extension of the prefix. */
  lemma PrefixBoundIsLeast(p: Bytes, u: Bytes)
    requires PrefixUpperBound(p).Some?
    requires forall key: Bytes :: p <= key ==> Lex.Less(key, u)
    ensures Lex.Compare(PrefixUpperBound(p).value, u) <= 0
  {
    var b := PrefixUpperBound(p).value;
    Lex.CompareFlips(b, u);
    Lex.CompareFlips(p, u);
    assert Lex.Less(p, u);
    PrefixRange(p, u);
    assert p <= u ==> Lex.Less(u, u);
  }

  /** There is no bound exactly when every byte is 0xFF, and then no key is above the group. */
  lemma {:induction false} PrefixUnbounded(p: Bytes)
    ensures PrefixUpperBound(p) == None <==> forall i :: 0 <= i < |p| ==> p[i] == 0xFF
  {
    if p == [] {
    } else {
      var n := |p| - 1;
      PrefixUnbounded(p[..n]);
      if p[n] == 0xFF {
        assert forall i :: 0 <= i < n ==> p[..n][i] == p[i];
      }
    }
  }

  /** Nothing lies strictly between a key and its successor. */
  lemma SuccessorIsNext(key: Bytes, k: Bytes)
    ensures Lex.Less(k, Successor(key)) <==> Lex.Compare(k, key) <= 0
  {
    if key <= k {
      var tail := k[|key|..];
      assert k == key + tail && key == key + [];
      Lex.CompareUnderPrefix(key, tail, [0x00]);
      Lex.CompareUnderPrefix(key, tail, []);
    } else {
      NotPrefixDecided(key, k, [0x00]);
    }
  }

  /** A nonempty tuple's key starts with a tag, so its group has a finite bound. */
  lemma TupleGroupBounded(p: seq<Scalar>)
    requires p != []
    ensures PrefixUpperBound(EncodeKey(p)).Some?
  {
    PrefixUnbounded(EncodeKey(p));
    assert EncodeKey(p)[0] == EncodeScalar(p[0])[0];
  }

  // ---------------------------------------------------------------- hex

  function HexDigit(n: nat): char
    requires n < 16
  {
    "0123456789abcdef"[n]
  }

  function KeyHex(key: Bytes): (s: string)
    ensures |s| == 2 * |key|
  {
    if key == [] then "" else [HexDigit(key[0] / 16), HexDigit(key[0] % 16)] + KeyHex(key[1..])
  }

  /** The hex string names the key: the memtable's hash map loses nothing. */
  lemma {:induction false} KeyHexInjective(a: Bytes, b: Bytes)
    requires KeyHex(a) == KeyHex(b)
    ensures a == b
  {
    if a == [] {
    } else {
      var x, y := KeyHex(a), KeyHex(b);
      assert x[0] == y[0] && x[1] == y[1];
      HexDigitInjective(a[0] / 16, b[0] / 16);
      HexDigitInjective(a[0] % 16, b[0] % 16);
      assert x[2..] == KeyHex(a[1..]) && y[2..] == KeyHex(b[1..]);
      KeyHexInjective(a[1..], b[1..]);
    }
  }

  lemma HexDigitInjective(m: nat, n: nat)
    requires m < 16 && n < 16 && HexDigit(m) == HexDigit(n)
    ensures m == n
  {
  }
}
