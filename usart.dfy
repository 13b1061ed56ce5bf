/** The USART1 driver: `USART_init`, `USART_putc`, `USART_getc` and
    `USART_puts` over a register file whose fields are the registers. */
module Usart {
  import opened Bits
  import opened RegMap
  import opened BaudRate

  /** A C `char`: eight unsigned bits with the ARM compilers the driver targets. */
  type byte = x: int | 0 <= x < 256

  const LineFeed: byte := 10

  /** One access of the driver to USART1's status or data registers. */
  datatype Access = ReadIsr(isr: uint32) | WriteTdr(tdr: uint32) | ReadRdr(rdr: uint32)

  /** The configuration registers `USART_init` writes. */
  datatype Config = Config(ahbenr: uint32, moder: uint32, afrl: uint32,
                           apb2enr: uint32, brr: uint32, cr1: uint32)

  /** The configuration registers after `USART_init(baud)`. */
  function Configured(c: Config, baud: uint32): Config
    requires baud > 0
  {
    c.(ahbenr := Or32(c.ahbenr, GpioaEn),
       moder := Or32(Or32(c.moder, Shl32(ModeAlternate, Moder2Pos)), Shl32(ModeAlternate, Moder3Pos)),
       afrl := Or32(Or32(c.afrl, Shl32(AltFunction1, Afrl2Pos)), Shl32(AltFunction1, Afrl3Pos)),
       apb2enr := Or32(c.apb2enr, Usart1En),
       brr := BrrValue(baud),
       cr1 := Or32(Or32(Cr1Te, Cr1Re), Cr1Ue))
  }

  /** The pin-configuration values OR-ed into MODER and AFR[0] each set one bit. */
  lemma {:induction false} PinValueBits(i: nat)
    ensures Bit(Shl32(ModeAlternate, Moder2Pos), i) <==> i == 5
    ensures Bit(Shl32(ModeAlternate, Moder3Pos), i) <==> i == 7
    ensures Bit(Shl32(AltFunction1, Afrl2Pos), i) <==> i == 8
    ensures Bit(Shl32(AltFunction1, Afrl3Pos), i) <==> i == 12
  {
    assert Pow2(4) == 16;
    Pow2Add(4, 1);
    Pow2Add(4, 2);
    Pow2Add(5, 2);
    Pow2Add(4, 4);
    Pow2Add(8, 4);
    BitOfPow2(5, i);
    BitOfPow2(7, i);
    BitOfPow2(8, i);
    BitOfPow2(12, i);
  }

  /** `USART_init` sets its bits in AHBENR, MODER, AFR[0] and APB2ENR and
      clears none there: afterwards a bit is set exactly when it was set
      before or is one of the driver's. BRR ends as 8 MHz / baud and CR1 as
      TE | RE | UE and nothing else. */
  lemma ConfiguredBits(c: Config, baud: uint32, i: nat)
    requires baud > 0
    ensures Bit(Configured(c, baud).ahbenr, i) <==> Bit(c.ahbenr, i) || i == GpioaEnPos
    ensures Bit(Configured(c, baud).moder, i) <==> Bit(c.moder, i) || i == 5 || i == 7
    ensures Bit(Configured(c, baud).afrl, i) <==> Bit(c.afrl, i) || i == 8 || i == 12
    ensures Bit(Configured(c, baud).apb2enr, i) <==> Bit(c.apb2enr, i) || i == Usart1EnPos
    ensures Bit(Configured(c, baud).cr1, i) <==> i == 0 || i == 2 || i == 3
    ensures Configured(c, baud).brr == FreqClk / baud
  {
    MaskBits(i);
    PinValueBits(i);
    BrrIsUartDiv(baud);
  }

  /** CR1 is written with the single value TE | RE | UE = 0x0D. */
  lemma Cr1Value(c: Config, baud: uint32)
    requires baud > 0
    ensures Configured(c, baud).cr1 == Cr1Te + Cr1Re + Cr1Ue
  {
  }

  /** Initialising twice with the same baud rate leaves every register as
      initialising once does. */
  lemma ConfiguredIdempotent(c: Config, baud: uint32)
    requires baud > 0
    ensures Configured(Configured(c, baud), baud) == Configured(c, baud)
  {
    var once := Configured(c, baud);
    var moder2, moder3 := Shl32(ModeAlternate, Moder2Pos), Shl32(ModeAlternate, Moder3Pos);
    var afrl2, afrl3 := Shl32(AltFunction1, Afrl2Pos), Shl32(AltFunction1, Afrl3Pos);
    // after one initialisation every bit the second one ORs in is already set
    forall i: nat
      ensures Bit(GpioaEn, i) ==> Bit(once.ahbenr, i)
      ensures (Bit(moder2, i) ==> Bit(once.moder, i)) && (Bit(moder3, i) ==> Bit(once.moder, i))
      ensures (Bit(afrl2, i) ==> Bit(once.afrl, i)) && (Bit(afrl3, i) ==> Bit(once.afrl, i))
      ensures Bit(Usart1En, i) ==> Bit(once.apb2enr, i)
    {
      ConfiguredBits(c, baud, i);
      MaskBits(i);
      PinValueBits(i);
    }
    OrAbsorbs(once.ahbenr, GpioaEn);
    OrAbsorbs(once.moder, moder2);
    OrAbsorbs(once.moder, moder3);
    OrAbsorbs(once.afrl, afrl2);
    OrAbsorbs(once.afrl, afrl3);
    OrAbsorbs(once.apb2enr, Usart1En);
  }

  /** The number of status readings in rs with bit pos set. */
  function FlagCount(rs: seq<uint32>, pos: nat): nat
  {
    if rs == [] then 0 else (if Bit(rs[0], pos) then 1 else 0) + FlagCount(rs[1..], pos)
  }

  /** The status reads of one busy-wait on bit pos: every reading up to and
      including the first one with the bit set. */
  function Polls(rs: seq<uint32>, pos: nat): (r: seq<Access>)
    requires FlagCount(rs, pos) > 0
    ensures 1 <= |r| <= |rs|
  {
    if Bit(rs[0], pos) then [ReadIsr(rs[0])] else [ReadIsr(rs[0])] + Polls(rs[1..], pos)
  }

  /** A busy-wait reads the status register until, and only until, it first
      shows the flag: every read but the last shows it clear. */
  lemma {:induction false} PollsShape(rs: seq<uint32>, pos: nat)
    requires FlagCount(rs, pos) > 0
    ensures forall j :: 0 <= j < |Polls(rs, pos)| ==> Polls(rs, pos)[j] == ReadIsr(rs[j])
    ensures forall j :: 0 <= j < |Polls(rs, pos)| - 1 ==> !Bit(rs[j], pos)
    ensures Bit(rs[|Polls(rs, pos)| - 1], pos)
    decreases |rs|
  {
    if !Bit(rs[0], pos) {
      PollsShape(rs[1..], pos);
    }
  }

  /** The status readings left over after one busy-wait on bit pos. */
  function AfterWait(rs: seq<uint32>, pos: nat): seq<uint32>
    requires FlagCount(rs, pos) > 0
  {
    rs[|Polls(rs, pos)|..]
  }

  /** One status read of a busy-wait: it ends the wait when the flag is set. */
  lemma PollStep(rs: seq<uint32>, pos: nat)
    requires FlagCount(rs, pos) > 0
    ensures Bit(rs[0], pos) ==> Polls(rs, pos) == [ReadIsr(rs[0])] && AfterWait(rs, pos) == rs[1..]
    ensures !Bit(rs[0], pos) ==> FlagCount(rs[1..], pos) > 0
    ensures !Bit(rs[0], pos) ==> Polls(rs, pos) == [ReadIsr(rs[0])] + Polls(rs[1..], pos)
    ensures !Bit(rs[0], pos) ==> AfterWait(rs, pos) == AfterWait(rs[1..], pos)
  {
  }

  /** A busy-wait consumes exactly one reading with the flag set. */
  lemma {:induction false} AfterWaitCount(rs: seq<uint32>, pos: nat)
    requires FlagCount(rs, pos) > 0
    ensures FlagCount(AfterWait(rs, pos), pos) == FlagCount(rs, pos) - 1
    decreases |rs|
  {
    if !Bit(rs[0], pos) {
      AfterWaitCount(rs[1..], pos);
      assert AfterWait(rs, pos) == AfterWait(rs[1..], pos);
    }
  }

  /** The accesses of transmitting bytes bs one `USART_putc` at a time. */
  function SendTrace(rs: seq<uint32>, bs: seq<byte>): seq<Access>
    requires FlagCount(rs, IsrTxePos) >= |bs|
    decreases |bs|
  {
    if bs == [] then []
    else
      AfterWaitCount(rs, IsrTxePos);
      Polls(rs, IsrTxePos) + [WriteTdr(bs[0])] + SendTrace(AfterWait(rs, IsrTxePos), bs[1..])
  }

  /** The status readings left over after transmitting bytes bs. */
  function AfterSend(rs: seq<uint32>, bs: seq<byte>): seq<uint32>
    requires FlagCount(rs, IsrTxePos) >= |bs|
    decreases |bs|
  {
    if bs == [] then rs
    else
      AfterWaitCount(rs, IsrTxePos);
      AfterSend(AfterWait(rs, IsrTxePos), bs[1..])
  }

  /** Transmitting bytes starts with one `USART_putc` of the first. */
  lemma SendStep(rs: seq<uint32>, bs: seq<byte>)
    requires bs != [] && FlagCount(rs, IsrTxePos) >= |bs|
    ensures FlagCount(AfterWait(rs, IsrTxePos), IsrTxePos) >= |bs| - 1
    ensures SendTrace(rs, bs) == Polls(rs, IsrTxePos) + [WriteTdr(bs[0])] + SendTrace(AfterWait(rs, IsrTxePos), bs[1..])
    ensures AfterSend(rs, bs) == AfterSend(AfterWait(rs, IsrTxePos), bs[1..])
  {
    AfterWaitCount(rs, IsrTxePos);
  }

  /** `SendStep` behind a trace already logged: the trace after the first
      byte is sent, followed by the rest. */
  lemma SendAdvance(t: seq<Access>, rs: seq<uint32>, bs: seq<byte>)
    requires bs != [] && FlagCount(rs, IsrTxePos) >= |bs|
    ensures FlagCount(AfterWait(rs, IsrTxePos), IsrTxePos) >= |bs| - 1
    ensures t + SendTrace(rs, bs) == (t + Polls(rs, IsrTxePos) + [WriteTdr(bs[0])]) + SendTrace(AfterWait(rs, IsrTxePos), bs[1..])
    ensures AfterSend(rs, bs) == AfterSend(AfterWait(rs, IsrTxePos), bs[1..])
  {
    SendStep(rs, bs);
  }

  /** The values written to the transmit data register, in order. */
  function Transmitted(t: seq<Access>): seq<uint32>
  {
    if t == [] then [] else (if t[0].WriteTdr? then [t[0].tdr] else []) + Transmitted(t[1..])
  }

  /** The driver's access discipline: TDR is written only right after a
      status read that shows TXE, RDR is read only right after a status read
      that shows RXNE. */
  ghost predicate Disciplined(t: seq<Access>)
  {
    (forall k :: 0 <= k < |t| && t[k].WriteTdr? ==>
       0 < k && t[k - 1].ReadIsr? && Bit(t[k - 1].isr, IsrTxePos)) &&
    (forall k :: 0 <= k < |t| && t[k].ReadRdr? ==>
       0 < k && t[k - 1].ReadIsr? && Bit(t[k - 1].isr, IsrRxnePos))
  }

  lemma {:induction false} TransmittedAppend(a: seq<Access>, b: seq<Access>)
    ensures Transmitted(a + b) == Transmitted(a) + Transmitted(b)
    decreases |a|
  {
    if a == [] {
      assert a + b == b;
    } else {
      assert (a + b)[0] == a[0];
      assert (a + b)[1..] == a[1..] + b;
      TransmittedAppend(a[1..], b);
    }
  }

  /** A busy-wait transmits nothing. */
  lemma {:induction false} PollsTransmitNothing(rs: seq<uint32>, pos: nat)
    requires FlagCount(rs, pos) > 0
    ensures Transmitted(Polls(rs, pos)) == []
    decreases |rs|
  {
    if !Bit(rs[0], pos) {
      PollsTransmitNothing(rs[1..], pos);
      TransmittedAppend([ReadIsr(rs[0])], Polls(rs[1..], pos));
    }
  }

  /** Sending bytes one `USART_putc` at a time puts exactly those bytes, in
      order, into TDR. */
  lemma {:induction false} SendTraceTransmits(rs: seq<uint32>, bs: seq<byte>)
    requires FlagCount(rs, IsrTxePos) >= |bs|
    ensures Transmitted(SendTrace(rs, bs)) == bs
    decreases |bs|
  {
    if bs != [] {
      AfterWaitCount(rs, IsrTxePos);
      var p := Polls(rs, IsrTxePos);
      var rest := SendTrace(AfterWait(rs, IsrTxePos), bs[1..]);
      TransmittedAppend(p + [WriteTdr(bs[0])], rest);
      TransmittedAppend(p, [WriteTdr(bs[0])]);
      PollsTransmitNothing(rs, IsrTxePos);
      SendTraceTransmits(AfterWait(rs, IsrTxePos), bs[1..]);
    }
  }

  /** Sending bytes keeps the access discipline. */
  lemma {:induction false} SendTraceDisciplined(t: seq<Access>, rs: seq<uint32>, bs: seq<byte>)
    requires FlagCount(rs, IsrTxePos) >= |bs|
    ensures Disciplined(t) ==> Disciplined(t + SendTrace(rs, bs))
    decreases |bs|
  {
    if bs != [] && Disciplined(t) {
      AfterWaitCount(rs, IsrTxePos);
      var u := t + Polls(rs, IsrTxePos) + [WriteTdr(bs[0])];
      DisciplineKept(t, rs, IsrTxePos, WriteTdr(bs[0]));
      SendTraceDisciplined(u, AfterWait(rs, IsrTxePos), bs[1..]);
      assert t + SendTrace(rs, bs) == u + SendTrace(AfterWait(rs, IsrTxePos), bs[1..]);
    }
  }

  /** Sending bytes consumes one status reading with TXE set per byte. */
  lemma {:induction false} AfterSendCount(rs: seq<uint32>, bs: seq<byte>)
    requires FlagCount(rs, IsrTxePos) >= |bs|
    ensures FlagCount(AfterSend(rs, bs), IsrTxePos) == FlagCount(rs, IsrTxePos) - |bs|
    decreases |bs|
  {
    if bs != [] {
      AfterWaitCount(rs, IsrTxePos);
      AfterSendCount(AfterWait(rs, IsrTxePos), bs[1..]);
    }
  }

  /** What sending bytes bs adds to a trace t: exactly bs transmitted, the
      discipline kept, one TXE reading consumed per byte. */
  lemma SendSummary(t: seq<Access>, rs: seq<uint32>, bs: seq<byte>)
    requires FlagCount(rs, IsrTxePos) >= |bs|
    ensures Transmitted(t + SendTrace(rs, bs)) == Transmitted(t) + bs
    ensures Disciplined(t) ==> Disciplined(t + SendTrace(rs, bs))
    ensures FlagCount(AfterSend(rs, bs), IsrTxePos) == FlagCount(rs, IsrTxePos) - |bs|
  {
    TransmittedAppend(t, SendTrace(rs, bs));
    SendTraceTransmits(rs, bs);
    SendTraceDisciplined(t, rs, bs);
    AfterSendCount(rs, bs);
  }

  /** The bytes of a C string before its terminating NUL. */
  function CString(s: seq<byte>): (r: seq<byte>)
    requires 0 in s
    ensures |r| < |s| && r == s[..|r|] && s[|r|] == 0
    ensures 0 !in r
  {
    if s[0] == 0 then [] else [s[0]] + CString(s[1..])
  }

  class Registers {
    // RCC
    var ahbenr: uint32
    var apb2enr: uint32
    // GPIOA
    var moder: uint32
    var afrl: uint32
    // USART1
    var brr: uint32
    var cr1: uint32
    var tdr: uint32
    /** The values that successive reads of USART1->ISR return; the hardware
        sets and clears its flags, the driver only reads them. */
    var isrReadings: seq<uint32>
    /** The values that successive reads of USART1->RDR return. */
    var rdrReadings: seq<uint32>
    /** The driver's accesses to ISR, TDR and RDR, oldest first. */
    var trace: seq<Access>

    function Snapshot(): Config
      reads this
    {
      Config(ahbenr, moder, afrl, apb2enr, brr, cr1)
    }

    constructor (reset: Config, isr: seq<uint32>, rdr: seq<uint32>)
      ensures Snapshot() == reset && tdr == 0
      ensures isrReadings == isr && rdrReadings == rdr && trace == []
    {
      ahbenr, moder, afrl := reset.ahbenr, reset.moder, reset.afrl;
      apb2enr, brr, cr1 := reset.apb2enr, reset.brr, reset.cr1;
      tdr := 0;
      isrReadings, rdrReadings, trace := isr, rdr, [];
    }

    /** `USART_init(baudrate)`: the six set-up steps in source order. */
    method Init(baud: uint32)
      requires baud > 0
      modifies this`ahbenr, this`moder, this`afrl, this`apb2enr, this`brr, this`cr1
      ensures Snapshot() == Configured(old(Snapshot()), baud)
      ensures tdr == old(tdr) && isrReadings == old(isrReadings)
      ensures rdrReadings == old(rdrReadings) && trace == old(trace)
    {
      var speedMant := SpeedMant(baud);
      var speedFrac := SpeedFrac(baud);
      NoWrap(baud);
      // 1. clock for GPIO port A
      ahbenr := Or32(ahbenr, GpioaEn);
      // 2. PA2 and PA3 in alternate-function mode
      moder := Or32(moder, Shl32(ModeAlternate, Moder2Pos));
      moder := Or32(moder, Shl32(ModeAlternate, Moder3Pos));
      // 3. alternate function 1 on PA2 and PA3
      afrl := Or32(afrl, Shl32(AltFunction1, Afrl2Pos));
      afrl := Or32(afrl, Shl32(AltFunction1, Afrl3Pos));
      // 4. clock for USART1
      apb2enr := Or32(apb2enr, Usart1En);
      // 5. baud-rate divisor
      brr := Or32(Shl32(speedMant, BrrMantissaPos), Shl32(speedFrac, BrrFractionPos));
      // 6. transmitter, receiver and USART on
      cr1 := Or32(Or32(Cr1Te, Cr1Re), Cr1Ue);
    }

    /** One read of USART1->ISR. */
    method ReadStatus() returns (isr: uint32)
      requires isrReadings != []
      modifies this`isrReadings, this`trace
      ensures isr == old(isrReadings[0])
      ensures isrReadings == old(isrReadings[1..]) && trace == old(trace) + [ReadIsr(isr)]
    {
      isr := isrReadings[0];
      isrReadings := isrReadings[1..];
      trace := trace + [ReadIsr(isr)];
    }

    /** `while (!(USART1->ISR & flag)) {}` for the flag at bit pos. */
    method AwaitFlag(pos: nat)
      requires FlagCount(isrReadings, pos) > 0
      modifies this`isrReadings, this`trace
      ensures trace == old(trace) + Polls(old(isrReadings), pos)
      ensures isrReadings == AfterWait(old(isrReadings), pos)
    {
      var ready := false;
      while !ready
        invariant ready ==> trace == old(trace) + Polls(old(isrReadings), pos)
        invariant ready ==> isrReadings == AfterWait(old(isrReadings), pos)
        invariant !ready ==> FlagCount(isrReadings, pos) > 0
        invariant !ready ==> trace + Polls(isrReadings, pos) == old(trace) + Polls(old(isrReadings), pos)
        invariant !ready ==> AfterWait(isrReadings, pos) == AfterWait(old(isrReadings), pos)
        decreases |isrReadings|
      {
        PollStep(isrReadings, pos);
        var isr := ReadStatus();
        ready := Bit(isr, pos);
      }
    }

    /** `USART_putc(c)`: wait for TXE, then write c to TDR. */
    method Putc(c: byte)
      requires FlagCount(isrReadings, IsrTxePos) > 0
      modifies this`tdr, this`isrReadings, this`trace
      ensures tdr == c
      ensures trace == old(trace) + Polls(old(isrReadings), IsrTxePos) + [WriteTdr(c)]
      ensures isrReadings == AfterWait(old(isrReadings), IsrTxePos)
      ensures FlagCount(isrReadings, IsrTxePos) == old(FlagCount(isrReadings, IsrTxePos)) - 1
      ensures Transmitted(trace) == old(Transmitted(trace)) + [c]
      ensures Disciplined(old(trace)) ==> Disciplined(trace)
    {
      AfterWaitCount(isrReadings, IsrTxePos);
      AwaitFlag(IsrTxePos);
      tdr := c;
      trace := trace + [WriteTdr(c)];
      PollsTransmitNothing(old(isrReadings), IsrTxePos);
      TransmittedAppend(old(trace), Polls(old(isrReadings), IsrTxePos));
      TransmittedAppend(old(trace) + Polls(old(isrReadings), IsrTxePos), [WriteTdr(c)]);
      DisciplineKept(old(trace), old(isrReadings), IsrTxePos, WriteTdr(c));
    }

    /** `USART_getc()`: wait for RXNE, then read RDR, truncated to a char. */
    method Getc() returns (c: byte)
      requires FlagCount(isrReadings, IsrRxnePos) > 0 && rdrReadings != []
      modifies this`isrReadings, this`rdrReadings, this`trace
      ensures c == old(rdrReadings[0]) % 256
      ensures rdrReadings == old(rdrReadings[1..])
      ensures trace == old(trace) + Polls(old(isrReadings), IsrRxnePos) + [ReadRdr(old(rdrReadings[0]))]
      ensures isrReadings == AfterWait(old(isrReadings), IsrRxnePos)
      ensures Disciplined(old(trace)) ==> Disciplined(trace)
    {
      AwaitFlag(IsrRxnePos);
      var rdr := rdrReadings[0];
      rdrReadings := rdrReadings[1..];
      trace := trace + [ReadRdr(rdr)];
      DisciplineKept(old(trace), old(isrReadings), IsrRxnePos, ReadRdr(rdr));
      c := rdr % 256;
    }

    /** `USART_puts(s)`: every byte before the NUL, then a line feed. */
    method Puts(s: seq<byte>)
      requires 0 in s
      requires FlagCount(isrReadings, IsrTxePos) > |CString(s)|
      modifies this`tdr, this`isrReadings, this`trace
      ensures tdr == LineFeed
      ensures trace == old(trace) + SendTrace(old(isrReadings), CString(s) + [LineFeed])
      ensures isrReadings == AfterSend(old(isrReadings), CString(s) + [LineFeed])
      ensures Transmitted(trace) == old(Transmitted(trace)) + CString(s) + [LineFeed]
      ensures FlagCount(isrReadings, IsrTxePos) == old(FlagCount(isrReadings, IsrTxePos)) - |CString(s)| - 1
      ensures Disciplined(old(trace)) ==> Disciplined(trace)
    {
      ghost var bs := CString(s) + [LineFeed];
      var i := 0;
      while s[i] != 0
        invariant 0 <= i < |bs|
        invariant FlagCount(isrReadings, IsrTxePos) >= |bs| - i
        invariant old(trace) + SendTrace(old(isrReadings), bs) == trace + SendTrace(isrReadings, bs[i..])
        invariant AfterSend(old(isrReadings), bs) == AfterSend(isrReadings, bs[i..])
        decreases |s| - i
      {
        assert s[i] == bs[i..][0];
        SendAdvance(trace, isrReadings, bs[i..]);
        assert bs[i..][1..] == bs[i + 1..];
        Putc(s[i]);
        i := i + 1;
      }
      assert bs[i..] == [LineFeed];
      SendAdvance(trace, isrReadings, [LineFeed]);
      Putc(LineFeed);
      SendSummary(old(trace), old(isrReadings), bs);
    }
  }

  /** Following a busy-wait with the access it guards keeps the discipline. */
  lemma DisciplineKept(t: seq<Access>, rs: seq<uint32>, pos: nat, last: Access)
    requires FlagCount(rs, pos) > 0
    requires last.WriteTdr? ==> pos == IsrTxePos
    requires last.ReadRdr? ==> pos == IsrRxnePos
    ensures Disciplined(t) ==> Disciplined(t + Polls(rs, pos) + [last])
  {
    var p := Polls(rs, pos);
    var u := t + p + [last];
    PollsShape(rs, pos);
    if Disciplined(t) {
      assert u[|u| - 2] == ReadIsr(rs[|p| - 1]);
      forall k | 0 <= k < |u| && !u[k].ReadIsr?
        ensures 0 < k && u[k - 1].ReadIsr?
      {
        if k < |t| { } else { assert k == |u| - 1; }
      }
    }
  }

  /** Initialising twice with the same rate, as a client sees it. */
  method InitTwiceExample()
  {
    var reset := Config(0, 0, 0, 0, 0, 0);
    var r := new Registers(reset, [], []);
    r.Init(115_200);
    r.Init(115_200);
    ConfiguredIdempotent(reset, 115_200);
    BrrIsUartDiv(115_200);
    assert r.Snapshot() == Configured(reset, 115_200) && r.brr == 69;
  }

  /** `USART_puts("AB")` with TXE clear on the first status read and set on
      the next three sends 'A', 'B' and a line feed. */
  method PutsExample()
  {
    var r := new Registers(Config(0, 0, 0, 0, 0, 0), [0, 0x80, 0x80, 0x80], []);
    r.Puts([65, 66, 0]);
    assert Transmitted(r.trace) == [65, 66, 10] && r.tdr == 10;
  }

  /** `USART_puts("")` sends only a line feed. */
  method PutsEmptyExample()
  {
    var r := new Registers(Config(0, 0, 0, 0, 0, 0), [0x80], []);
    r.Puts([0]);
    assert Transmitted(r.trace) == [10];
  }

  /** `USART_getc` returns the low byte of RDR once RXNE shows. */
  method GetcExample()
  {
    var r := new Registers(Config(0, 0, 0, 0, 0, 0), [0, 0x20], [0x141]);
    var c := r.Getc();
    assert c == 0x41;
  }
}
