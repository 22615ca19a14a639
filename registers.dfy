/** The Si4703 register file as the driver names it: register indices, bit
    positions inside registers, GPIO masks and modes, seek directions and the
    status codes of a write transaction. */
module Registers {

  /** One register of the device: 16 bits. */
  type Word = bv16

  /** One byte on the two-wire bus. */
  type Byte = bv8

  /** Number of registers in the shadow, each one Word wide. */
  const REGISTER_COUNT: nat := 16

  // Bus address of the device (7-bit, not left-shifted).
  const I2C_ADDR: nat := 0x10
  // Number of bytes of one read transaction: every register, two bytes each.
  const READ_LENGTH: nat := 32

  // Results of a write transaction.
  const FAIL: Byte := 0
  const SUCCESS: Byte := 1

  // Seek directions.
  const SEEK_DOWN: Byte := 0
  const SEEK_UP: Byte := 1

  // Register names.
  const DEVICEID: nat := 0x00
  const CHIPID: nat := 0x01
  const POWERCFG: nat := 0x02
  const CHANNEL: nat := 0x03
  const SYSCONFIG1: nat := 0x04
  const SYSCONFIG2: nat := 0x05
  const SYSCONFIG3: nat := 0x06
  const TEST1: nat := 0x07
  const TEST2: nat := 0x08
  const BOOTCONFIG: nat := 0x09
  const STATUSRSSI: nat := 0x0A
  const READCHAN: nat := 0x0B
  const RDSA: nat := 0x0C
  const RDSB: nat := 0x0D
  const RDSC: nat := 0x0E
  const RDSD: nat := 0x0F

  // Register 0x02, POWERCFG.
  const SMUTE: Word := 15
  const DMUTE: Word := 14
  const MONO: Word := 13
  const RDSM: Word := 11
  const SKMODE: Word := 10
  const SEEKUP: Word := 9
  const SEEK: Word := 8
  const DISABLE: Word := 6
  const ENABLE: Word := 0

  // Register 0x03, CHANNEL.
  const TUNE: Word := 15

  // Register 0x04, SYSCONFIG1.
  const RDSIEN: Word := 15
  const STCIEN: Word := 14
  const RDS: Word := 12
  const DE: Word := 11

  // Register 0x05, SYSCONFIG2.
  const SPACE1: Word := 5
  const SPACE0: Word := 4

  // Register 0x07, TEST1.
  const XOSCEN: Word := 15
  const AHIZEN: Word := 14

  // Register 0x0A, STATUSRSSI.
  const RDSR: Word := 15
  const STC: Word := 14
  const SFBL: Word := 13
  const AFCRL: Word := 12
  const RDSS: Word := 11
  const STEREO: Word := 8

  // GPIO pin masks inside SYSCONFIG1, as the driver's callers pass them.
  const GPIO1: Word := 0x0003
  const GPIO2: Word := 0x00C0
  const GPIO3: Word := 0x0300

  // GPIO pin modes.
  const GPIO_Z: int := 0
  const GPIO_I: int := 1
  const GPIO_Low: int := 2
  const GPIO_High: int := 3

  /** The single-bit mask of bit `n` of a register. */
  function Bit(n: Word): Word
    requires n < 16
  {
    1 << n
  }

  /** The register names are the indices 0x00 to 0x0F, one each, in order;
      the control block POWERCFG..TEST1 written back by a write transaction
      is the contiguous range 0x02..0x07. */
  lemma RegisterNamesAreIndices()
    ensures [DEVICEID, CHIPID, POWERCFG, CHANNEL, SYSCONFIG1, SYSCONFIG2, SYSCONFIG3, TEST1,
             TEST2, BOOTCONFIG, STATUSRSSI, READCHAN, RDSA, RDSB, RDSC, RDSD]
            == seq(REGISTER_COUNT, i => i)
    ensures [POWERCFG, CHANNEL, SYSCONFIG1, SYSCONFIG2, SYSCONFIG3, TEST1]
            == seq(6, i => POWERCFG + i)
    ensures TEST1 + 1 == TEST2 && READ_LENGTH == 2 * REGISTER_COUNT
  {
  }

  /** The three GPIO masks are two-bit masks and no two of them share a bit. */
  lemma GpioMasksDisjoint()
    ensures GPIO1 & GPIO2 == 0
    ensures GPIO1 & GPIO3 == 0
    ensures GPIO2 & GPIO3 == 0
    ensures GPIO1 == Bit(0) | Bit(1)
    ensures GPIO2 == Bit(6) | Bit(7)
    ensures GPIO3 == Bit(8) | Bit(9)
  {
  }

  /** The four GPIO modes are exactly the values 0 to 3. */
  lemma GpioModesAreZeroToThree()
    ensures [GPIO_Z, GPIO_I, GPIO_Low, GPIO_High] == [0, 1, 2, 3]
  {
  }

  /** The status flags are distinct bits of STATUSRSSI, TUNE is the top bit of
      CHANNEL and the three seek bits are adjacent bits of POWERCFG. */
  lemma StatusAndCommandBits()
    ensures Bit(RDSR) == 0x8000 && Bit(STC) == 0x4000 && Bit(SFBL) == 0x2000
    ensures Bit(RDSR) & Bit(STC) == 0 && Bit(RDSR) & Bit(SFBL) == 0 && Bit(STC) & Bit(SFBL) == 0
    ensures Bit(TUNE) == 0x8000
    ensures Bit(SKMODE) == 0x0400 && Bit(SEEKUP) == 0x0200 && Bit(SEEK) == 0x0100
  {
  }

  /** The two seek directions differ, and so do the two write results. */
  lemma DirectionsAndResultsDistinct()
    ensures SEEK_DOWN == 0 && SEEK_UP == 1 && SEEK_DOWN != SEEK_UP
    ensures FAIL == 0 && SUCCESS == 1 && FAIL != SUCCESS
  {
  }
}
