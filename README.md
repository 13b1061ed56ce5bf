# STM32F030 USART1 polling driver, modelled in Dafny

A model of the minimalist serial driver `STM32F030-CMSIS-USART-lib.c`. The driver
runs USART1 of an STM32F030 on pins PA2 (TX) and PA3 (RX), both on alternate
function 1. It does four things:

- `USART_init(baudrate)` computes the baud-rate mantissa and fraction for an 8 MHz
  clock. It then enables the clocks, routes the pins, writes BRR and switches the
  USART on.
- `USART_putc(c)` busy-waits on TXE, then writes one byte to TDR.
- `USART_getc()` busy-waits on RXNE, then reads one byte from RDR.
- `USART_puts(s)` sends a NUL-terminated string with `USART_putc`, then a line feed.

Files:

- `bits.dfy` (module `Bits`): `uint32_t` words as integers in 0 .. 2^32-1.
  It defines bitwise OR one bit at a time and `<<` with explicit wrap-around.
  It proves the bit-level facts the driver needs: what OR does to each bit, that
  disjoint fields OR to their sum, and extensionality.
- `regmap.dfy` (module `RegMap`): the register bits and positions the driver uses.
- `baud.dfy` (module `BaudRate`): lines 108-109 as the C code evaluates them in
  `uint32_t`. They are proved equal to the formula in the file's header comment,
  and the resulting BRR value is derived.
- `usart.dfy` (module `Usart`): a class `Registers` whose fields are the
  registers, with the four routines as methods. It also holds the functions that
  specify them and the lemmas about those functions.

Modelling choices:

- Registers are plain fields (`uint32` integers), not volatile memory.
- `USART_init` updates AHBENR, MODER, AFR[0] (`afrl`), APB2ENR, BRR and CR1 in
  source order. Its `modifies` clause names those six fields and no others.
- The busy-wait loops read the status register from a script, `isrReadings`: the
  values that successive reads of USART1->ISR return. RDR reads come from
  `rdrReadings` in the same way.
- Every ISR read, TDR write and RDR read is appended to `trace`. This lets the
  contracts state the order of accesses exactly. `Disciplined` states the driver's
  rule: TDR is written, and RDR is read, only right after a status read that
  showed the matching flag.
- A test `ISR & USART_ISR_TXE` (a one-bit mask) is modelled as the predicate
  `Bit(isr, 7)`. For RXNE it is `Bit(isr, 5)`.
- A C `char` is an unsigned byte (0 .. 255), as on ARM. `USART_getc` returns RDR
  truncated to its low eight bits (`rdr % 256`).

One point where the source's comments and its code differ; the model follows
the code. Line 99 gives 300 .. 460,800 as the possible baud rates. The mantissa is
non-zero and fits 12 bits for exactly the rates 123 .. 500,000
(`BaudRate.MantissaFitsField`). The documented range lies inside that.

In `USART_init`, lines 113-124 are `|=` updates, and lines 127 and 131 overwrite
BRR and CR1. The model does the same.

## Model

| member | source | states |
|---|---|---|
| `Bits.BitOr` | STM32F030-CMSIS-USART-lib.c:113-124 | bit i of `a OR b` is set exactly when bit i of a or of b is set |
| `Bits.Or32` | STM32F030-CMSIS-USART-lib.c:113-131 | `OR` on two `uint32_t` values gives a `uint32_t` whose bits are the OR of theirs |
| `Bits.Shl32` | STM32F030-CMSIS-USART-lib.c:116-128 | `v << pos` on `uint32_t` is v * 2^pos whenever that does not pass bit 31 |
| `Bits.OrAbsorbs` | STM32F030-CMSIS-USART-lib.c:113-124 | OR-ing in bits that are already set leaves the register unchanged |
| `Bits.BitOrDisjoint` | STM32F030-CMSIS-USART-lib.c:127-128 | a value shifted up by k OR-ed with a value below 2^k equals their sum: the fields do not overlap |
| `Bits.BitExtensional` | STM32F030-CMSIS-USART-lib.c:113-131 | two register values with the same bits are equal |
| `RegMap.MaskBits` | STM32F030-CMSIS-USART-lib.c:113-131 | GPIOAEN, USART1EN, UE, RE and TE each set exactly one bit, at 17, 14, 0, 2 and 3 |
| `BaudRate.Mul32` | STM32F030-CMSIS-USART-lib.c:109 | no contract: `uint32_t` `*`, the product modulo 2^32; `NoWrap` shows the products of line 109 never wrap |
| `BaudRate.Sub32` | STM32F030-CMSIS-USART-lib.c:109 | no contract: `uint32_t` `-`, the difference modulo 2^32; `NoWrap` shows the subtraction of line 109 never wraps |
| `BaudRate.SpeedMant` | STM32F030-CMSIS-USART-lib.c:108 | no contract: `8E6 / baudrate / 16`; `CodeMatchesDocumented` ties it to `DocumentedDivisor`, `MantissaIsWholePart` and `MantissaFitsField` characterise it |
| `BaudRate.SpeedFrac` | STM32F030-CMSIS-USART-lib.c:109 | no contract: line 109 in `uint32_t`; `CodeMatchesDocumented` ties it to `DocumentedDivisor`, `FractionFitsField` bounds it |
| `BaudRate.CodeDivisor` | STM32F030-CMSIS-USART-lib.c:108-109 | no contract: the pair (speedMant, speedFrac); `CodeMatchesDocumented` and `DocumentedTable` state its values |
| `BaudRate.DocumentedDivisor` | STM32F030-CMSIS-USART-lib.c:38-40 | no contract: the documented uartDiv / 16 and uartDiv % 16, the independent reference `CodeMatchesDocumented` compares the code with |
| `BaudRate.BrrValue` | STM32F030-CMSIS-USART-lib.c:127-128 | no contract: `(speedMant << 4) OR (speedFrac << 0)`; `BrrIsUartDiv` shows it equals 8000000 / baud |
| `BaudRate.NoWrap` | STM32F030-CMSIS-USART-lib.c:108-109 | `baudrate * speedMant * 16` is at most 8,000,000, so neither the products nor the subtraction wrap in `uint32_t` |
| `BaudRate.RemainderQuotient` | STM32F030-CMSIS-USART-lib.c:109 | subtracting 16 * speedMant whole multiples of the baud rate from the clock and dividing by the baud rate gives uartDiv % 16 |
| `BaudRate.CodeMatchesDocumented` | STM32F030-CMSIS-USART-lib.c:108-109 | for every non-zero baud rate the code's speedMant and speedFrac equal the documented `uartDiv / 16` and `uartDiv % 16` with `uartDiv = 8000000 / baud` (lines 38-40) |
| `BaudRate.MantissaIsWholePart` | STM32F030-CMSIS-USART-lib.c:28 | speedMant is the whole part of 8 MHz / (16 * baud) |
| `BaudRate.FractionFitsField` | STM32F030-CMSIS-USART-lib.c:109 | speedFrac is always below 16 |
| `BaudRate.MantissaFitsField` | STM32F030-CMSIS-USART-lib.c:108 | speedMant lies in 1 .. 4095 if and only if the baud rate lies in 123 .. 500,000 |
| `BaudRate.DocumentedRangeIsValid` | STM32F030-CMSIS-USART-lib.c:99 | for the documented rates 300 .. 460,800 speedMant is non-zero and fits 12 bits |
| `BaudRate.DocumentedTable` | STM32F030-CMSIS-USART-lib.c:30-35 | the code yields 9600 → (52, 1), 115200 → (4, 5), 460800 → (1, 1) and 500000 → (1, 0) |
| `BaudRate.BrrIsUartDiv` | STM32F030-CMSIS-USART-lib.c:127-128 | the BRR value equals 8000000 / baud; its bits above 4 hold speedMant and its low four bits hold speedFrac |
| `BaudRate.BrrFitsRegister` | STM32F030-CMSIS-USART-lib.c:127-128 | for rates 123 .. 500,000 the BRR value lies in 16 .. 0xFFFF |
| `Usart.PinValueBits` | STM32F030-CMSIS-USART-lib.c:116-121 | `0b10 << MODER2/3_Pos` sets only bit 5 or 7; `0b0001 << AFRL2/3_Pos` sets only bit 8 or 12 |
| `Usart.Configured` | STM32F030-CMSIS-USART-lib.c:113-131 | no contract: the six configuration registers after the set-up steps; `Registers.Init`'s ensures gives it as the new state, `ConfiguredBits`, `Cr1Value` and `ConfiguredIdempotent` characterise it |
| `Usart.ConfiguredBits` | STM32F030-CMSIS-USART-lib.c:113-131 | after init a bit of AHBENR, MODER, AFR[0] or APB2ENR is set exactly when it was set before or is one the driver sets, so no bit is cleared; CR1 has exactly UE, RE and TE; BRR is 8 MHz / baud |
| `Usart.Cr1Value` | STM32F030-CMSIS-USART-lib.c:131 | CR1 is overwritten with exactly TE OR RE OR UE = 0x0D |
| `Usart.ConfiguredIdempotent` | STM32F030-CMSIS-USART-lib.c:113-131 | initialising twice with the same baud rate leaves every configuration register as a single initialisation does |
| `Usart.Registers.Init` | STM32F030-CMSIS-USART-lib.c:101-134 | the six registers end as `Configured(old registers, baud)`; TDR, the status and data scripts and the trace are unchanged, and nothing outside the six fields is modified |
| `Usart.Registers.ReadStatus` | STM32F030-CMSIS-USART-lib.c:62 | a read of ISR returns the next scripted status value and logs it |
| `Usart.Registers.AwaitFlag` | STM32F030-CMSIS-USART-lib.c:62-64 | the busy-wait performs exactly the status reads `Polls` describes and consumes exactly those readings |
| `Usart.Polls` | STM32F030-CMSIS-USART-lib.c:62-64 | the status reads of one busy-wait (also lines 89-91): at least one and no more than the script holds; `PollsShape` characterises them |
| `Usart.PollsShape` | STM32F030-CMSIS-USART-lib.c:62-64 | a busy-wait reads ISR until it first shows the flag: every read before the last shows it clear, the last shows it set |
| `Usart.Registers.Putc` | STM32F030-CMSIS-USART-lib.c:59-66 | the status reads of the TXE wait, then one write of c to TDR; exactly one byte, c, is transmitted, and the access discipline is kept |
| `Usart.Disciplined` | STM32F030-CMSIS-USART-lib.c:62-65 | no contract: the rule that TDR is written only right after a status read showing TXE and RDR is read only right after one showing RXNE (also lines 89-92); `DisciplineKept` and `SendTraceDisciplined` show the driver keeps it |
| `Usart.DisciplineKept` | STM32F030-CMSIS-USART-lib.c:62-65 | a busy-wait followed by the data-register access it guards keeps the rule that TDR or RDR is touched only right after the matching flag was seen |
| `Usart.Registers.Getc` | STM32F030-CMSIS-USART-lib.c:86-93 | the status reads of the RXNE wait, then one read of RDR; it returns the low byte of the value read and keeps the access discipline |
| `Usart.CString` | STM32F030-CMSIS-USART-lib.c:76 | the bytes before the first NUL: a NUL-free prefix of s followed in s by a NUL |
| `Usart.SendTrace` | STM32F030-CMSIS-USART-lib.c:76-78 | no contract: the accesses of sending bytes one `USART_putc` at a time; `SendTraceTransmits`, `SendTraceDisciplined` and `SendSummary` characterise it |
| `Usart.SendTraceTransmits` | STM32F030-CMSIS-USART-lib.c:76-78 | sending bytes one `USART_putc` at a time writes exactly those bytes, in order, to TDR |
| `Usart.SendTraceDisciplined` | STM32F030-CMSIS-USART-lib.c:76-78 | sending bytes one `USART_putc` at a time keeps the access discipline |
| `Usart.SendSummary` | STM32F030-CMSIS-USART-lib.c:76-78 | sending bytes transmits exactly those bytes, keeps the discipline and consumes one TXE reading per byte |
| `Usart.Registers.Puts` | STM32F030-CMSIS-USART-lib.c:73-79 | the accesses are those of sending the bytes before the NUL followed by one line feed; exactly those bytes are transmitted, in order; one TXE reading is consumed per byte sent; TDR is left holding the final line feed |
| `Usart.InitTwiceExample` | STM32F030-CMSIS-USART-lib.c:101-134 | no contract: two `Init(115200)` calls on a concrete register file leave the state of one call, with BRR = 69 |
| `Usart.PutsExample` | STM32F030-CMSIS-USART-lib.c:73-79 | no contract: `Puts("AB")` on a concrete TXE script transmits 'A', 'B', line feed |
| `Usart.PutsEmptyExample` | STM32F030-CMSIS-USART-lib.c:73-79 | no contract: `Puts("")` transmits only a line feed |
| `Usart.GetcExample` | STM32F030-CMSIS-USART-lib.c:86-93 | no contract: `Getc` returns the low byte 0x41 of RDR = 0x141 once RXNE shows |

## Left out

- main.c: the demo echo loop (`while(1)`) is glue around the library. It also calls `USART_init` with two arguments; the model keeps the library's one-parameter signature.
- Memory-mapped, volatile access and hardware timing: registers are plain fields.
- Registers of RCC, GPIOA and USART1 other than AHBENR, APB2ENR, MODER, AFR[0], BRR, CR1, ISR, TDR and RDR are not represented. A method's `modifies` clause shows which fields it may change.
- Hardware side effects are not modelled: writing TDR clears TXE, and reading RDR clears RXNE. The status readings are an arbitrary script, independent of what the driver does.
- Usart.Registers.AwaitFlag: if the flag is never set, the C loop runs forever. This liveness behaviour is not modelled: the precondition `FlagCount(...) > 0` demands that the script holds a reading with the flag set. `Putc`, `Getc` and `Puts` demand one such reading per byte. `Getc` also needs one scripted RDR value (`rdrReadings != []`).
- The device header `stm32f030x6.h` is not part of this model. Its bit positions and masks are written as constants with the values of the STM32F030 reference manual (RM0360).
- `(uint32_t)8E6`: a compile-time float-to-integer cast, modelled as the integer 8,000,000.
- `baudrate == 0`: the C code would divide by zero. The model requires `baud > 0`.
- The MODER update ORs in `0b10` without clearing the pins' previous mode bits (lines 116-117). The model keeps this as written.
- TDR and RDR are 9-bit data fields in hardware. The model keeps the 32-bit value written or read; `USART_getc` truncates it to a byte.
