/** The trade id fits its cap, determines the stamp, and separates keys that
    differ in one byte. */
module TradeIdProofs {
  import opened Prelude
  import opened TradeId

  // ------------------------------------------------------- exclusive or

  function Pow(base: nat, n: nat): nat { if n == 0 then 1 else base * Pow(base, n - 1) }

  lemma {:induction false} XorBound(a: nat, b: nat, bits: nat)
    ensures XorBits(a, b, bits) < Pow(2, bits)
  {
    if bits > 0 {
      XorBound(a / 2, b / 2, bits - 1);
    }
  }

  lemma {:induction false} XorCommutes(a: nat, b: nat, bits: nat)
    ensures XorBits(a, b, bits) == XorBits(b, a, bits)
  {
    if bits > 0 {
      XorCommutes(a / 2, b / 2, bits - 1);
    }
  }

  lemma {:induction false} XorInjective(a: nat, b: nat, c: nat, bits: nat)
    requires b < Pow(2, bits) && c < Pow(2, bits) && XorBits(a, b, bits) == XorBits(a, c, bits)
    ensures b == c
  {
    if bits > 0 {
      SameBits(XorBits(a / 2, b / 2, bits - 1), XorBits(a / 2, c / 2, bits - 1), a % 2, b % 2, c % 2);
      XorInjective(a / 2, b / 2, c / 2, bits - 1);
    }
  }

  lemma SameBits(x: nat, y: nat, a: nat, b: nat, c: nat)
    requires a < 2 && b < 2 && c < 2 && 2 * x + (a + b) % 2 == 2 * y + (a + c) % 2
    ensures x == y && b == c
  {
  }

  lemma ByteXor(a: Byte, b: Byte)
    ensures XorBits(a, b, 8) < 256
  {
    XorBound(a, b, 8);
    PowByte();
  }

  lemma PowByte()
    ensures Pow(2, 8) == 256
  {
    assert Pow(2, 4) == 16;
  }

  // ------------------------------------------------------- truncated steps

  /** One step of the hash on 56 bits. */
  function Step56(hash: nat, byte: Byte): nat {
    XorLow(hash, byte) * FNV_PRIME % TWO_56
  }

  lemma ModMultiple(k: int, z: int)
    ensures (k * TWO_56 + z) % TWO_56 == z % TWO_56
  {
    var q := z / TWO_56;
    assert k * TWO_56 + z == (k + q) * TWO_56 + z % TWO_56;
  }

  lemma XorLowTruncates(hash: nat, byte: Byte)
    ensures XorLow(hash, byte) == hash / TWO_56 * TWO_56 + XorLow(hash % TWO_56, byte)
  {
    hide XorBits;
    var q := hash / TWO_56;
    var r := hash % TWO_56;
    LowByte(q * 0x1_0000_0000_0000 + r / 256, r % 256);
  }

  lemma LowByte(q: nat, b: nat)
    requires b < 256
    ensures (q * 256 + b) % 256 == b && (q * 256 + b) / 256 == q
  {
  }

  /** Truncating to 56 bits commutes with a step of the 64-bit hash. */
  lemma TruncationCommutes(hash: nat, byte: Byte)
    ensures FnvStep(hash, byte) % TWO_56 == Step56(hash % TWO_56, byte)
  {
    hide XorLow;
    XorLowTruncates(hash, byte);
    var q := hash / TWO_56;
    var y := XorLow(hash % TWO_56, byte);
    var z := XorLow(hash, byte) * FNV_PRIME;
    assert z == (q * FNV_PRIME) * TWO_56 + y * FNV_PRIME;
    ModMultiple(q * FNV_PRIME, y * FNV_PRIME);
    var k := z / TWO_64;
    assert z % TWO_64 == (-k * 256) * TWO_56 + z;
    ModMultiple(-k * 256, z);
  }

  const FNV_INVERSE: nat := 0x96_5057_aff6_957b
  const INVERSE_CARRY: nat := 645593018614

  /** Multiplying by the odd prime is injective modulo 2^56. */
  lemma PrimeIsInvertible(x: nat, y: nat)
    requires x < TWO_56 && y < TWO_56
    requires x * FNV_PRIME % TWO_56 == y * FNV_PRIME % TWO_56
    ensures x == y
  {
    var d := x - y;
    var k := x * FNV_PRIME / TWO_56 - y * FNV_PRIME / TWO_56;
    assert d * FNV_PRIME == k * TWO_56;
    assert FNV_PRIME * FNV_INVERSE == INVERSE_CARRY * TWO_56 + 1;
    assert d == TWO_56 * (k * FNV_INVERSE - d * INVERSE_CARRY);
  }

  lemma XorLowInjective(g: nat, h: nat, b: Byte, c: Byte)
    requires XorLow(g, b) == XorLow(h, c)
    ensures b == c ==> g == h
    ensures g == h ==> b == c
  {
    hide XorBits;
    var x, y := XorBits(g % 256, b, 8), XorBits(h % 256, c, 8);
    ByteXor(g % 256, b);
    ByteXor(h % 256, c);
    LowByte(g / 256, x);
    LowByte(h / 256, y);
    assert x == y && g / 256 == h / 256;
    PowByte();
    if b == c {
      XorCommutes(g % 256, b, 8);
      XorCommutes(h % 256, b, 8);
      XorInjective(b, g % 256, h % 256, 8);
    }
    if g == h {
      XorInjective(g % 256, b, c, 8);
    }
  }

  lemma XorLowBound(h: nat, b: Byte)
    requires h < TWO_56
    ensures XorLow(h, b) < TWO_56
  {
    hide XorBits;
    ByteXor(h % 256, b);
    assert h / 256 <= 0xFFFF_FFFF_FFFF;
  }

  /** On 56 bits a step is injective in the hash and in the byte. */
  lemma Step56Injective(g: nat, h: nat, b: Byte, c: Byte)
    requires g < TWO_56 && h < TWO_56 && Step56(g, b) == Step56(h, c)
    ensures b == c ==> g == h
    ensures g == h ==> b == c
  {
    hide XorLow;
    XorLowBound(g, b);
    XorLowBound(h, c);
    PrimeIsInvertible(XorLow(g, b), XorLow(h, c));
    XorLowInjective(g, h, b, c);
  }

  lemma Hash56Step(key: seq<Byte>)
    requires key != []
    ensures Hash56(key) == Step56(Hash56(Front(key)), Last(key))
  {
    TruncationCommutes(Fnv(Front(key)), Last(key));
  }

  predicate DifferOnlyAt(k: seq<Byte>, l: seq<Byte>, i: nat) {
    && |k| == |l| && i < |k| && k[i] != l[i]
    && forall j :: 0 <= j < |k| && j != i ==> k[j] == l[j]
  }

  /** Two keys of one length that differ in exactly one byte never share a
      56-bit hash. */
  lemma {:induction false} OneByteApartNeverCollide(k: seq<Byte>, l: seq<Byte>, i: nat)
    requires DifferOnlyAt(k, l, i)
    ensures Hash56(k) != Hash56(l)
  {
    hide Hash56, Step56;
    var n := |k| - 1;
    Hash56Step(k);
    Hash56Step(l);
    Hash56Bound(k[..n]);
    Hash56Bound(l[..n]);
    if i == n {
      assert k[..n] == l[..n];
    } else {
      OneByteApartNeverCollide(k[..n], l[..n], i);
    }
    if Hash56(k) == Hash56(l) {
      Step56Injective(Hash56(k[..n]), Hash56(l[..n]), k[n], l[n]);
    }
  }

  lemma Hash56Bound(key: seq<Byte>)
    ensures Hash56(key) < TWO_56
  {
  }

  // ------------------------------------------------------------- printing

  predicate IsDigit(c: char) { '0' as int <= c as int <= '9' as int }

  lemma {:induction false} DecimalDigits(n: nat)
    ensures |Decimal(n)| >= 1 && forall i :: 0 <= i < |Decimal(n)| ==> IsDigit(Decimal(n)[i])
  {
    if n >= 10 {
      DecimalDigits(n / 10);
    }
  }

  lemma {:induction false} DecimalLength(n: nat, width: nat)
    requires width >= 1 && n < Pow(10, width)
    ensures |Decimal(n)| <= width
  {
    if n >= 10 {
      assert Pow(10, width) == 10 * Pow(10, width - 1);
      assert Pow(10, 0) == 1;
      DecimalLength(n / 10, width - 1);
    }
  }

  function Value(s: string): nat
    requires forall i :: 0 <= i < |s| ==> IsDigit(s[i])
  {
    if s == [] then 0
    else
      assert IsDigit(Last(s));
      10 * Value(Front(s)) + (Last(s) as int - '0' as int)
  }

  /** The decimal printer is read back exactly. */
  lemma {:induction false} DecimalRoundTrip(n: nat)
    ensures (forall i :: 0 <= i < |Decimal(n)| ==> IsDigit(Decimal(n)[i])) && Value(Decimal(n)) == n
  {
    DecimalDigits(n);
    if n >= 10 {
      DecimalRoundTrip(n / 10);
      assert Front(Decimal(n)) == Decimal(n / 10);
    } else {
      assert Value([]) == 0;
      assert Decimal(n)[..0] == [];
    }
  }

  lemma DigitsDistinct(c: nat, d: nat)
    requires c < 16 && d < 16 && Digit(c) == Digit(d)
    ensures c == d
  {
  }

  lemma {:induction false} HexLength(n: nat, width: nat)
    ensures |Hex(n, width)| == width
  {
    if width > 0 {
      HexLength(n / 16, width - 1);
    }
  }

  lemma {:induction false} HexInjective(m: nat, n: nat, width: nat)
    requires m < Pow(16, width) && n < Pow(16, width) && Hex(m, width) == Hex(n, width)
    ensures m == n
  {
    if width > 0 {
      HexLength(m / 16, width - 1);
      HexLength(n / 16, width - 1);
      assert Hex(m, width)[..width - 1] == Hex(m / 16, width - 1);
      assert Hex(n, width)[..width - 1] == Hex(n / 16, width - 1);
      assert Pow(16, width) == 16 * Pow(16, width - 1);
      HexInjective(m / 16, n / 16, width - 1);
      assert Hex(m, width)[width - 1] == Digit(m % 16);
      assert Hex(n, width)[width - 1] == Digit(n % 16);
      DigitsDistinct(m % 16, n % 16);
    }
  }

  /** The dash ends the stamp, so equal ids have equal stamps and equal tails. */
  lemma SplitAtDash(a: nat, b: nat, x: string, y: string)
    requires Decimal(a) + "-" + x == Decimal(b) + "-" + y
    ensures a == b && x == y
  {
    var s := Decimal(a) + "-" + x;
    var t := Decimal(b) + "-" + y;
    DecimalRoundTrip(a);
    DecimalRoundTrip(b);
    var m, n := |Decimal(a)|, |Decimal(b)|;
    assert s[m] == '-' && t[n] == '-';
    assert forall i :: 0 <= i < m ==> IsDigit(s[i]);
    assert forall i :: 0 <= i < n ==> IsDigit(t[i]);
    assert m == n;
    assert Decimal(a) == s[..m] && Decimal(b) == t[..n];
    assert x == s[m + 1..] && y == t[n + 1..];
  }

  lemma WidthsSuffice()
    ensures TWO_64 <= Pow(10, 20) && Pow(16, 14) == TWO_56
  {
    assert Pow(10, 5) == 100000;
    assert Pow(10, 10) == 100000 * Pow(10, 5);
    assert Pow(10, 15) == 100000 * Pow(10, 10);
    assert Pow(10, 20) == 100000 * Pow(10, 15);
    assert Pow(16, 7) == 0x1000_0000;
    assert Pow(16, 14) == 0x1000_0000 * Pow(16, 7);
  }

  /** Every id is non-empty and within the 35 characters the cap allows it, with
      exactly fourteen after the dash. */
  lemma IdFits(t: TradeTick)
    ensures 16 <= |Id(t)| <= 35
    ensures |Id(t)| == |Decimal(t.tsEvent)| + 15 && Id(t)[|Decimal(t.tsEvent)|] == '-'
  {
    hide Hash56, Key;
    WidthsSuffice();
    DecimalDigits(t.tsEvent);
    DecimalLength(t.tsEvent, 20);
    HexLength(Hash56(Key(t)), 14);
  }

  /** Two trades share an id exactly when they share the stamp and the hash: the
      id determines `ts_event`. */
  lemma IdsEqualIff(t: TradeTick, u: TradeTick)
    ensures Id(t) == Id(u) <==> t.tsEvent == u.tsEvent && Hash56(Key(t)) == Hash56(Key(u))
  {
    hide Key, Hash56;
    if Id(t) == Id(u) {
      SplitAtDash(t.tsEvent, u.tsEvent, Hex(Hash56(Key(t)), 14), Hex(Hash56(Key(u)), 14));
      WidthsSuffice();
      Hash56Bound(Key(t));
      Hash56Bound(Key(u));
      HexInjective(Hash56(Key(t)), Hash56(Key(u)), 14);
    }
  }

  /** The trades differ in one printed field, there in one character. */
  predicate OneCharacterApart(t: TradeTick, u: TradeTick, i: nat) {
    || (u == t.(price := u.price) && DifferOnlyAt(t.price, u.price, i))
    || (u == t.(size := u.size) && DifferOnlyAt(t.size, u.size, i))
    || (u == t.(symbol := u.symbol) && DifferOnlyAt(t.symbol, u.symbol, i))
    || (u == t.(aggressor := u.aggressor) && DifferOnlyAt(t.aggressor, u.aggressor, i))
  }

  lemma ApartAfter(x: seq<Byte>, f: seq<Byte>, g: seq<Byte>, i: nat)
    requires DifferOnlyAt(f, g, i)
    ensures DifferOnlyAt(x + f, x + g, |x| + i)
  {
  }

  lemma ApartBefore(f: seq<Byte>, g: seq<Byte>, i: nat, x: seq<Byte>, y: seq<Byte>)
    requires DifferOnlyAt(f, g, i)
    ensures DifferOnlyAt(f + x + y, g + x + y, i)
  {
  }

  /** Where the keys differ. */
  lemma KeysApart(t: TradeTick, u: TradeTick, i: nat) returns (at: nat)
    requires OneCharacterApart(t, u, i)
    ensures DifferOnlyAt(Key(t), Key(u), at)
  {
    hide Bytes, Decimal, DifferOnlyAt;
    var dash := Bytes("-");
    var stamp := Bytes(Decimal(t.tsEvent));
    if u == t.(symbol := u.symbol) && DifferOnlyAt(t.symbol, u.symbol, i) {
      at := i;
      ApartBefore(t.symbol, u.symbol, at, dash, stamp);
      ApartBefore(t.symbol + dash + stamp, u.symbol + dash + stamp, at, dash, t.price);
      PriceOn(t, u, t.symbol + dash + stamp + dash + t.price, u.symbol + dash + stamp + dash + t.price, at);
    } else if u == t.(price := u.price) && DifferOnlyAt(t.price, u.price, i) {
      var head := t.symbol + dash + stamp + dash;
      at := |head| + i;
      ApartAfter(head, t.price, u.price, i);
      PriceOn(t, u, head + t.price, head + u.price, at);
    } else if u == t.(size := u.size) && DifferOnlyAt(t.size, u.size, i) {
      var head := t.symbol + dash + stamp + dash + t.price + dash;
      at := |head| + i;
      ApartAfter(head, t.size, u.size, i);
      ApartBefore(head + t.size, head + u.size, at, dash, t.aggressor);
    } else {
      var head := t.symbol + dash + stamp + dash + t.price + dash + t.size + dash;
      at := |head| + i;
      ApartAfter(head, t.aggressor, u.aggressor, i);
    }
  }

  /** Keys that differ up to their price differ whole. */
  lemma PriceOn(t: TradeTick, u: TradeTick, f: seq<Byte>, g: seq<Byte>, i: nat)
    requires DifferOnlyAt(f, g, i) && t.size == u.size && t.aggressor == u.aggressor
    ensures var dash := Bytes("-");
            DifferOnlyAt(f + dash + t.size + dash + t.aggressor, g + dash + u.size + dash + u.aggressor, i)
  {
    hide DifferOnlyAt, Bytes;
    var dash := Bytes("-");
    ApartBefore(f, g, i, dash, t.size);
    ApartBefore(f + dash + t.size, g + dash + t.size, i, dash, t.aggressor);
  }

  /** Two trades at one instant whose price, size, symbol or aggressor differ in a
      single printed character keep distinct ids. */
  lemma OneCharacterKeepsIdsApart(t: TradeTick, u: TradeTick, i: nat)
    requires OneCharacterApart(t, u, i)
    ensures Id(t) != Id(u)
  {
    hide Key, Id, DifferOnlyAt, Hash56;
    var at := KeysApart(t, u, i);
    OneByteApartNeverCollide(Key(t), Key(u), at);
    IdsEqualIff(t, u);
  }

  /** One trade's key, spelt out. */
  lemma KeySpelt()
    ensures Key(TradeTick(Bytes("BTCUSDT"), 42, Bytes("100.00"), Bytes("1"), Bytes("Buyer"))) ==
            Bytes("BTCUSDT-42-100.00-1-Buyer")
  {
    assert Decimal(42) == "42";
    hide Decimal;
  }

  lemma XorOfBytes()
    ensures XorBits(0x25, 0x61, 8) == 0x44
  {
    assert XorBits(0x2, 0x6, 4) == 0x4;
  }

  /** The published 64-bit FNV-1a hashes of the empty text and of "a". */
  lemma PublishedVectors()
    ensures Fnv([]) == 0xcbf2_9ce4_8422_2325
    ensures Fnv(Bytes("a")) == 0xaf63_dc4c_8601_ec8c
  {
    hide XorBits, FnvStep, XorLow;
    assert Fnv([]) == FNV_OFFSET;
    assert Front(Bytes("a")) == [] && Last(Bytes("a")) == 0x61;
    assert Fnv(Bytes("a")) == FnvStep(FNV_OFFSET, 0x61);
    StepOnA();
  }

  lemma StepOnA()
    ensures FnvStep(0xcbf2_9ce4_8422_2325, 0x61) == 0xaf63_dc4c_8601_ec8c
  {
    hide XorBits;
    XorOfBytes();
    assert XorLow(0xcbf2_9ce4_8422_2325, 0x61) == 0xcbf2_9ce4_8422_2344;
  }
}
