/** The synthetic trade id of `trade_id` in `crates/mogwai-adapter/src/convert.rs`:
    the decimal event stamp, a dash, and fourteen hex digits of a truncated 64-bit
    FNV-1a hash of the trade's fields. */
module TradeId {
  import opened Prelude

  const TWO_64: nat := 0x1_0000_0000_0000_0000
  const TWO_56: nat := 0x100_0000_0000_0000
  const FNV_OFFSET: nat := 0xcbf2_9ce4_8422_2325
  const FNV_PRIME: nat := 0x100_0000_01b3

  type U64 = n: nat | n < 0x1_0000_0000_0000_0000
  type Byte = n: nat | n < 256

  // ----------------------------------------------------------------- hash

  /** Bitwise exclusive or of the low `bits` bits. */
  function XorBits(a: nat, b: nat, bits: nat): nat {
    if bits == 0 then 0 else 2 * XorBits(a / 2, b / 2, bits - 1) + (a % 2 + b % 2) % 2
  }

  /** `hash ^ u64::from(byte)`: only the low eight bits are touched. */
  function XorLow(hash: nat, byte: Byte): nat {
    hash / 256 * 256 + XorBits(hash % 256, byte, 8)
  }

  function FnvStep(hash: nat, byte: Byte): nat {
    XorLow(hash, byte) * FNV_PRIME % TWO_64
  }

  function Fnv(key: seq<Byte>): nat {
    if key == [] then FNV_OFFSET else FnvStep(Fnv(Front(key)), Last(key))
  }

  /** The low 56 bits, which are what the id prints. */
  function Hash56(key: seq<Byte>): nat { Fnv(key) % TWO_56 }

  // -------------------------------------------------------------- printing

  function Digit(d: nat): char
    requires d < 16
  {
    "0123456789abcdef"[d]
  }

  function Decimal(n: nat): string {
    if n < 10 then [Digit(n)] else Decimal(n / 10) + [Digit(n % 10)]
  }

  /** Lower-case hex, zero-padded to `width`, of a number that fits it. */
  function Hex(n: nat, width: nat): string {
    if width == 0 then "" else Hex(n / 16, width - 1) + [Digit(n % 16)]
  }

  datatype TradeTick = TradeTick(symbol: seq<Byte>, tsEvent: U64, price: seq<Byte>, size: seq<Byte>,
      aggressor: seq<Byte>)

  function Bytes(s: string): seq<Byte> {
    seq(|s|, i requires 0 <= i < |s| => s[i] as int % 256)
  }

  /** The five fields as they print, dash-separated. */
  function Key(t: TradeTick): seq<Byte> {
    var dash := Bytes("-");
    t.symbol + dash + Bytes(Decimal(t.tsEvent)) + dash + t.price + dash + t.size + dash + t.aggressor
  }

  function Id(t: TradeTick): string {
    Decimal(t.tsEvent) + "-" + Hex(Hash56(Key(t)), 14)
  }

  method TradeIdOf(t: TradeTick) returns (id: string)
    ensures id == Id(t)
  {
    var key := Key(t);
    var hash := FNV_OFFSET;
    for i := 0 to |key|
      invariant hash == Fnv(key[..i])
    {
      assert key[..i + 1][..i] == key[..i];
      hash := XorLow(hash, key[i]);
      hash := hash * FNV_PRIME % TWO_64;
    }
    assert key[..|key|] == key;
    id := Decimal(t.tsEvent) + "-" + Hex(hash % TWO_56, 14);
  }
}
