/** The baud-rate divisor of `USART_init`: the C code's own `uint32_t`
    computation, the formula its header comment documents, and the value the
    code writes into USART1->BRR. */
module BaudRate {
  import opened Bits
  import opened RegMap

  /** The clock the driver assumes: the internal 8 MHz RC oscillator, `(uint32_t)8E6`. */
  const FreqClk: uint32 := 8_000_000

  /** A mantissa/fraction pair as USART_BRR holds it. */
  datatype Divisor = Divisor(mantissa: nat, fraction: nat)

  /** `a * b` on `uint32_t`: the product wraps modulo 2^32. */
  function Mul32(a: uint32, b: uint32): uint32
  {
    (a * b) % Modulus
  }

  /** `a - b` on `uint32_t`: the difference wraps modulo 2^32. */
  function Sub32(a: uint32, b: uint32): uint32
  {
    (a - b) % Modulus
  }

  /** `speedMant = (uint32_t)8E6 / baudrate / 16;` */
  function SpeedMant(baud: uint32): uint32
    requires baud > 0
  {
    FreqClk / baud / 16
  }

  /** `speedFrac = ((uint32_t)8E6 - baudrate * speedMant * 16) / baudrate;` */
  function SpeedFrac(baud: uint32): uint32
    requires baud > 0
  {
    Sub32(FreqClk, Mul32(Mul32(baud, SpeedMant(baud)), 16)) / baud
  }

  /** The pair the code computes. */
  function CodeDivisor(baud: uint32): Divisor
    requires baud > 0
  {
    Divisor(SpeedMant(baud), SpeedFrac(baud))
  }

  /** The documented way: uartDiv = freqClk / baud, mantissa = uartDiv / 16,
      fraction = uartDiv % 16. */
  function DocumentedDivisor(baud: nat): Divisor
    requires baud > 0
  {
    var uartDiv := FreqClk / baud;
    Divisor(uartDiv / 16, uartDiv % 16)
  }

  /** The value `(speedMant << 4) | (speedFrac << 0)` written to USART1->BRR. */
  function BrrValue(baud: uint32): uint32
    requires baud > 0
  {
    Or32(Shl32(SpeedMant(baud), BrrMantissaPos), Shl32(SpeedFrac(baud), BrrFractionPos))
  }

  /** q * b <= n < (q + 1) * b determines q as n / b. */
  lemma DivUnique(n: nat, b: nat, q: nat)
    requires b > 0 && q * b <= n < q * b + b
    ensures n / b == q
  {
    var r := n / b;
    assert r * b <= n < r * b + b;
    if r < q {
      MulMono(r + 1, q, b);
    } else if r > q {
      MulMono(q + 1, r, b);
    }
  }

  lemma MulMono(x: nat, y: nat, b: nat)
    requires x <= y
    ensures x * b <= y * b
  {
  }

  /** The product `baudrate * speedMant * 16` never exceeds 8 MHz, so neither
      it nor the subtraction from 8 MHz wraps. */
  lemma NoWrap(baud: uint32)
    requires baud > 0
    ensures baud * SpeedMant(baud) * 16 <= FreqClk
    ensures Mul32(Mul32(baud, SpeedMant(baud)), 16) == baud * SpeedMant(baud) * 16
    ensures Sub32(FreqClk, Mul32(Mul32(baud, SpeedMant(baud)), 16)) == FreqClk - baud * SpeedMant(baud) * 16
    ensures SpeedMant(baud) * Pow2(BrrMantissaPos) < Modulus
  {
    var m := SpeedMant(baud);
    var bm := baud * m;
    assert bm * 16 <= FreqClk by {
      RemainderQuotient(FreqClk, baud);
      assert bm * 16 == m * 16 * baud;
    }
    assert Mul32(baud, m) == bm;
    assert Mul32(bm, 16) == bm * 16;
    assert m <= bm by { MulMono(1, baud, m); }
    assert Pow2(BrrMantissaPos) == 16;
  }

  /** Taking whole multiples of 16 * b away from n leaves the low four bits
      of n / b as the quotient by b. */
  lemma RemainderQuotient(n: nat, b: nat)
    requires b > 0
    ensures n / b / 16 * 16 * b <= n
    ensures (n - b * (n / b / 16) * 16) / b == n / b % 16
  {
    var d := n / b;
    var m := d / 16;
    var f := d % 16;
    assert d * b <= n < d * b + b;
    assert d * b == m * 16 * b + f * b by { assert d == m * 16 + f; }
    assert b * m * 16 == m * 16 * b;
    DivUnique(n - b * m * 16, b, f);
  }

  /** The code's two lines compute exactly the documented mantissa and
      fraction, for every non-zero baud rate. */
  lemma CodeMatchesDocumented(baud: uint32)
    requires baud > 0
    ensures CodeDivisor(baud) == DocumentedDivisor(baud)
  {
    NoWrap(baud);
    RemainderQuotient(FreqClk, baud);
  }

  /** The mantissa is the whole part of f(CK) / (16 * baud). */
  lemma MantissaIsWholePart(baud: uint32)
    requires baud > 0
    ensures SpeedMant(baud) == FreqClk / (16 * baud)
  {
    var d := FreqClk / baud;
    var q := d / 16;
    assert q * 16 <= d < q * 16 + 16;
    assert d * baud <= FreqClk < d * baud + baud;
    MulMono(q * 16, d, baud);
    MulMono(d + 1, q * 16 + 16, baud);
    assert q * (16 * baud) == q * 16 * baud;
    assert (q * 16 + 16) * baud == q * (16 * baud) + 16 * baud;
    DivUnique(FreqClk, 16 * baud, q);
  }

  /** The fraction always fits its four-bit field. */
  lemma FractionFitsField(baud: uint32)
    requires baud > 0
    ensures SpeedFrac(baud) < 16
  {
    CodeMatchesDocumented(baud);
  }

  /** The mantissa is non-zero and fits its twelve-bit field exactly for the
      baud rates 123 .. 500,000. */
  lemma MantissaFitsField(baud: uint32)
    requires baud > 0
    ensures 1 <= SpeedMant(baud) < 4096 <==> 123 <= baud <= 500_000
  {
    var d := FreqClk / baud;
    assert d * baud <= FreqClk < d * baud + baud;
    // the mantissa is non-zero exactly when 16 <= d
    if d >= 16 { MulMono(16, d, baud); } else { MulMono(d + 1, 16, baud); }
    assert 16 <= d <==> baud <= 500_000;
    // it fits twelve bits exactly when d < 65536
    if d >= 65536 { MulMono(65536, d, baud); } else { MulMono(d + 1, 65536, baud); }
    assert d < 65536 <==> 123 <= baud;
  }

  /** The documented range 300 .. 460,800 lies inside the valid one. */
  lemma DocumentedRangeIsValid(baud: uint32)
    requires 300 <= baud <= 460_800
    ensures 1 <= SpeedMant(baud) < 4096
  {
    MantissaFitsField(baud);
  }

  /** The table in the header comment, for an 8 MHz clock. */
  lemma DocumentedTable()
    ensures CodeDivisor(9_600) == Divisor(52, 1)
    ensures CodeDivisor(115_200) == Divisor(4, 5)
    ensures CodeDivisor(460_800) == Divisor(1, 1)
    ensures CodeDivisor(500_000) == Divisor(1, 0)
  {
  }

  /** The mantissa and fraction fields of BRR do not overlap, so BRR holds
      exactly uartDiv = 8 MHz / baud, mantissa above bit 4 and fraction below. */
  lemma BrrIsUartDiv(baud: uint32)
    requires baud > 0
    ensures BrrValue(baud) == FreqClk / baud
    ensures BrrValue(baud) / 16 == SpeedMant(baud)
    ensures BrrValue(baud) % 16 == SpeedFrac(baud)
  {
    NoWrap(baud);
    CodeMatchesDocumented(baud);
    assert Pow2(BrrMantissaPos) == 16 && Pow2(BrrFractionPos) == 1;
    BitOrDisjoint(SpeedMant(baud), SpeedFrac(baud), BrrMantissaPos);
  }

  /** In the valid range BRR's value fits the register's sixteen bits. */
  lemma BrrFitsRegister(baud: uint32)
    requires 123 <= baud <= 500_000
    ensures 16 <= BrrValue(baud) < 0x1_0000
  {
    BrrIsUartDiv(baud);
    MantissaFitsField(baud);
  }
}
