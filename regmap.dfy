/** The STM32F030 register bits the driver touches. The C code takes them from
    the device header `stm32f030x6.h`, which is not part of this model; the
    values below are those of the STM32F030 reference manual (RM0360). */
module RegMap {
  import opened Bits

  /** RCC_AHBENR bit 17, IOPAEN: clock for GPIO port A. */
  const GpioaEnPos: nat := 17
  const GpioaEn: uint32 := 0x0002_0000

  /** RCC_APB2ENR bit 14, USART1EN: clock for USART1. */
  const Usart1EnPos: nat := 14
  const Usart1En: uint32 := 0x0000_4000

  /** GPIOx_MODER: two mode bits per pin, at bit 2 * pin. */
  const Moder2Pos: nat := 4
  const Moder3Pos: nat := 6
  /** The two-bit mode value 0b10 selects "alternate function". */
  const ModeAlternate: uint32 := 2

  /** GPIOx_AFRL (`AFR[0]`): four selector bits per pin, at bit 4 * pin. */
  const Afrl2Pos: nat := 8
  const Afrl3Pos: nat := 12
  /** Alternate function 1 routes PA2 and PA3 to USART1_TX and USART1_RX. */
  const AltFunction1: uint32 := 1

  /** USART_BRR: DIV_Fraction in bits 0..3, DIV_Mantissa in bits 4..15. */
  const BrrFractionPos: nat := 0
  const BrrMantissaPos: nat := 4

  /** USART_CR1 bits UE (0), RE (2) and TE (3). */
  const Cr1Ue: uint32 := 0x01
  const Cr1Re: uint32 := 0x04
  const Cr1Te: uint32 := 0x08

  /** USART_ISR bits RXNE (5) and TXE (7). */
  const IsrRxnePos: nat := 5
  const IsrTxePos: nat := 7

  lemma {:induction false} MaskBits(i: nat)
    ensures Bit(GpioaEn, i) <==> i == GpioaEnPos
    ensures Bit(Usart1En, i) <==> i == Usart1EnPos
    ensures Bit(Cr1Ue, i) <==> i == 0
    ensures Bit(Cr1Re, i) <==> i == 2
    ensures Bit(Cr1Te, i) <==> i == 3
  {
    Pow2Add(8, 6);
    Pow2Add(14, 3);
    BitOfPow2(GpioaEnPos, i);
    BitOfPow2(Usart1EnPos, i);
    BitOfPow2(0, i);
    BitOfPow2(2, i);
    BitOfPow2(3, i);
  }
}
