/** The bit-field edits the driver makes to single registers of the shadow,
    each as the word it leaves behind, and what each edit means for the
    fields of that register. */
module Fields {
  import opened Registers
  import opened WordValues

  /** A C `int` stored into a 16-bit register: its low 16 bits, two's complement. */
  function Low16(x: int): Word
  {
    (x % 0x10000) as Word
  }

  lemma Low16InRange(n: int)
    requires 0 <= n < 512
    ensures Low16(n) == n as Word
  {
    assert n % 0x10000 == n;
  }

  /** A small non-negative integer is stored as a word with the same value. */
  lemma StoredValue(n: int) returns (f: Word)
    requires 0 <= n < 512
    ensures f as int == n && f < 512 && n as Word == f && Low16(n) == f
  {
    f := SmallValue(n);
    Low16InRange(n);
  }

  // ---------------------------------------------------------------- volume

  /** The volume actually used: the request clamped to 0..15. */
  function Clamp(volume: int): (v: int)
    ensures 0 <= v <= 15
    ensures 0 <= volume <= 15 ==> v == volume
    ensures volume < 0 ==> v == 0
    ensures volume > 15 ==> v == 15
  {
    if volume < 0 then 0 else if volume > 15 then 15 else volume
  }

  /** SYSCONFIG2 after setting the volume: the volume field cleared, then the
      clamped volume OR-ed in. */
  function WithVolume(w: Word, volume: int): Word
  {
    (w & 0xFFF0) | Clamp(volume) as Word
  }

  lemma NibbleLow(w: Word, f: Word)
    requires f < 16
    ensures ((w & 0xFFF0) | f) & 0x000F == f
  {
  }

  lemma NibbleHigh(w: Word, f: Word)
    requires f < 16
    ensures ((w & 0xFFF0) | f) & 0xFFF0 == w & 0xFFF0
  {
  }

  /** Setting the volume leaves the clamped volume in bits 0..3 of SYSCONFIG2. */
  lemma VolumeField(w: Word, volume: int)
    ensures (WithVolume(w, volume) & 0x000F) as int == Clamp(volume)
  {
    var f := StoredValue(Clamp(volume));
    NibbleLow(w, f);
  }

  /** Setting the volume keeps bits 4..15 of SYSCONFIG2. */
  lemma VolumeKeepsUpper(w: Word, volume: int)
    ensures WithVolume(w, volume) & 0xFFF0 == w & 0xFFF0
  {
    var f := StoredValue(Clamp(volume));
    NibbleHigh(w, f);
  }

  // ---------------------------------------------------------------- channel

  /** Channel numbers are tenths of MHz; register value = channel - 875. */
  const CHANNEL_OFFSET: int := 875

  /** CHANNEL after starting a tune: the 9-bit field is cleared (mask
      0xFE00 keeps the rest), `channel - 875` is OR-ed in as a 16-bit value
      and TUNE is set. */
  function TuneStart(w: Word, channel: int): Word
  {
    ((w & 0xFE00) | Low16(channel - CHANNEL_OFFSET)) | Bit(TUNE)
  }

  lemma TuneLowBits(w: Word, channel: int, f: Word)
    requires Low16(channel - CHANNEL_OFFSET) == f && f < 512
    ensures TuneStart(w, channel) & 0x01FF == f
  {
  }

  lemma TuneMiddleBits(w: Word, channel: int, f: Word)
    requires Low16(channel - CHANNEL_OFFSET) == f && f < 512
    ensures TuneStart(w, channel) & 0x7E00 == w & 0x7E00
  {
  }

  /** Whatever the channel, a tune start sets TUNE. */
  lemma TuneStartSetsTune(w: Word, channel: int)
    ensures TuneStart(w, channel) & 0x8000 != 0
  {
  }

  /** Within 0 <= channel - 875 < 512 a tune start leaves `channel - 875` in
      the 9-bit channel field. */
  lemma TuneStartField(w: Word, channel: int)
    requires 0 <= channel - CHANNEL_OFFSET < 512
    ensures (TuneStart(w, channel) & 0x01FF) as int == channel - CHANNEL_OFFSET
  {
    var f := StoredValue(channel - CHANNEL_OFFSET);
    TuneLowBits(w, channel, f);
  }

  /** Within 0 <= channel - 875 < 512 a tune start keeps bits 9..14 of CHANNEL. */
  lemma TuneStartKeepsOthers(w: Word, channel: int)
    requires 0 <= channel - CHANNEL_OFFSET < 512
    ensures TuneStart(w, channel) & 0x7E00 == w & 0x7E00
  {
    var f := StoredValue(channel - CHANNEL_OFFSET);
    TuneMiddleBits(w, channel, f);
  }

  lemma MinusOneIsAllOnes()
    ensures Low16(-1) == 0xFFFF
  {
    var f: Word := 0xFFFF;
    assert f as int == -1 % 0x10000;
    FromValue(-1 % 0x10000, f);
  }

  /** A channel below 875 gives a negative register value whose two's
      complement fills every bit of CHANNEL: 87.4 MHz overwrites the whole
      register. */
  lemma TuneBelowBandFillsRegister(w: Word)
    ensures TuneStart(w, CHANNEL_OFFSET - 1) == 0xFFFF
  {
    MinusOneIsAllOnes();
  }

  /** CHANNEL after the tune completes: TUNE cleared. */
  function TuneEnd(w: Word): Word
  {
    w & !Bit(TUNE)
  }

  /** Ending a tune clears TUNE. */
  lemma TuneEndClearsTune(w: Word)
    ensures TuneEnd(w) & 0x8000 == 0
  {
  }

  /** Ending a tune keeps every bit but TUNE. */
  lemma TuneEndKeepsOthers(w: Word)
    ensures TuneEnd(w) & 0x7FFF == w & 0x7FFF
  {
  }

  /** The channel number READCHAN denotes: its low 10 bits plus 875. */
  function ChannelOf(readchan: Word): (channel: int)
    ensures CHANNEL_OFFSET <= channel <= CHANNEL_OFFSET + 0x3FF
  {
    (readchan & 0x03FF) as int + CHANNEL_OFFSET
  }

  /** If the device echoes the 9-bit CHANNEL field written by a tune into
      READCHAN (bit 9 of READCHAN clear), reading the channel back gives the
      channel that was tuned. */
  lemma TuneRoundTrip(w: Word, channel: int, readchan: Word)
    requires 0 <= channel - CHANNEL_OFFSET < 512
    requires readchan & 0x03FF == TuneStart(w, channel) & 0x01FF
    ensures ChannelOf(readchan) == channel
  {
    TuneStartField(w, channel);
  }

  // ---------------------------------------------------------------- seek

  /** POWERCFG after starting a seek: wrap allowed (SKMODE), SEEKUP cleared
      for SEEK_DOWN and set for any other direction, SEEK set. */
  function SeekStart(w: Word, dir: Byte): Word
  {
    var wrap := w | Bit(SKMODE);
    var directed := if dir == SEEK_DOWN then wrap & !Bit(SEEKUP) else wrap | Bit(SEEKUP);
    directed | Bit(SEEK)
  }


  /** A downward seek sets SKMODE and SEEK and clears SEEKUP. */
  lemma SeekDownBits(w: Word)
    ensures SeekStart(w, SEEK_DOWN) & 0x0700 == 0x0500
  {
  }

  /** A seek in any other direction sets SKMODE, SEEKUP and SEEK. */
  lemma SeekUpBits(w: Word, dir: Byte)
    requires dir != SEEK_DOWN
    ensures SeekStart(w, dir) & 0x0700 == 0x0700
  {
  }

  /** Starting a seek, in either direction, keeps every bit outside 0x0700. */
  lemma SeekStartKeepsOthers(w: Word, dir: Byte)
    ensures SeekStart(w, dir) & 0xF8FF == w & 0xF8FF
  {
  }

  /** POWERCFG after the seek completes: SEEK cleared. */
  function SeekEnd(w: Word): Word
  {
    w & !Bit(SEEK)
  }

  /** Ending a seek clears SEEK. */
  lemma SeekEndClearsSeek(w: Word)
    ensures SeekEnd(w) & 0x0100 == 0
  {
  }

  /** Ending a seek keeps every bit but SEEK. */
  lemma SeekEndKeepsOthers(w: Word)
    ensures SeekEnd(w) & 0xFEFF == w & 0xFEFF
  {
  }

  /** The result of a seek given the SFBL sample and the READCHAN read
      afterwards: 0 (no station) whenever SFBL was set, the channel otherwise. */
  function SeekOutcome(sfbl: Word, readchan: Word): (channel: int)
    ensures channel == 0 <==> sfbl != 0
    ensures sfbl == 0 ==> channel == ChannelOf(readchan)
  {
    if sfbl != 0 then 0 else ChannelOf(readchan)
  }

  // ---------------------------------------------------------------- GPIO

  /** Bits that mode I keeps of a mask ("01" in every two-bit field at bits 0..5). */
  const GPIO_I_BITS: Word := 0x15
  /** Bits that mode Low keeps of a mask ("10" in every two-bit field at bits 0..5). */
  const GPIO_LOW_BITS: Word := 0x2A

  /** The four pin modes a caller can ask for, and any other request. */
  datatype GpioMode = ModeZ | ModeI | ModeLow | ModeHigh | ModeUnknown

  /** The mode a caller's `val` names: GPIO_Z, GPIO_I, GPIO_Low, GPIO_High,
      and anything else is unknown. */
  function ModeOf(val: int): (mode: GpioMode)
    ensures mode == ModeUnknown <==> !(GPIO_Z <= val <= GPIO_High)
    ensures val == GPIO_Z ==> mode == ModeZ
    ensures val == GPIO_I ==> mode == ModeI
    ensures val == GPIO_Low ==> mode == ModeLow
    ensures val == GPIO_High ==> mode == ModeHigh
  {
    if val == GPIO_Z then ModeZ
    else if val == GPIO_I then ModeI
    else if val == GPIO_Low then ModeLow
    else if val == GPIO_High then ModeHigh
    else ModeUnknown
  }

  /** SYSCONFIG1 after writing `mode` to the pins of `mask` (the caller's
      GPIO argument in 16 bits); an unknown mode edits nothing. */
  function GpioApply(w: Word, mask: Word, mode: GpioMode): Word
  {
    match mode
    case ModeZ => w & !mask
    case ModeI => (w & !mask) | (mask & GPIO_I_BITS)
    case ModeLow => (w & !mask) | (mask & GPIO_LOW_BITS)
    case ModeHigh => w | mask
    case ModeUnknown => w
  }

  /** Mode Z clears every bit of the mask. */
  lemma GpioZ(w: Word, mask: Word)
    ensures GpioApply(w, mask, ModeZ) & mask == 0
  {
  }

  /** Mode I leaves exactly the mask's bits among 0x15 set inside the mask. */
  lemma GpioI(w: Word, mask: Word)
    ensures GpioApply(w, mask, ModeI) & mask == mask & GPIO_I_BITS
  {
  }

  /** Mode Low leaves exactly the mask's bits among 0x2A set inside the mask. */
  lemma GpioLow(w: Word, mask: Word)
    ensures GpioApply(w, mask, ModeLow) & mask == mask & GPIO_LOW_BITS
  {
  }

  /** Mode High sets every bit of the mask. */
  lemma GpioHigh(w: Word, mask: Word)
    ensures GpioApply(w, mask, ModeHigh) & mask == mask
  {
  }

  /** An unknown mode leaves the register as it was. */
  lemma GpioUnknown(w: Word, mask: Word, val: int)
    requires !(GPIO_Z <= val <= GPIO_High)
    ensures GpioApply(w, mask, ModeOf(val)) == w
  {
  }

  lemma GpioZKeeps(w: Word, mask: Word, mode: GpioMode)
    requires mode.ModeZ?
    ensures GpioApply(w, mask, mode) & !mask == w & !mask
  {
  }

  lemma GpioIKeeps(w: Word, mask: Word, mode: GpioMode)
    requires mode.ModeI?
    ensures GpioApply(w, mask, mode) & !mask == w & !mask
  {
  }

  lemma GpioLowKeeps(w: Word, mask: Word, mode: GpioMode)
    requires mode.ModeLow?
    ensures GpioApply(w, mask, mode) & !mask == w & !mask
  {
  }

  lemma GpioHighKeeps(w: Word, mask: Word, mode: GpioMode)
    requires mode.ModeHigh?
    ensures GpioApply(w, mask, mode) & !mask == w & !mask
  {
  }

  lemma GpioUnknownKeeps(w: Word, mask: Word, mode: GpioMode)
    requires mode.ModeUnknown?
    ensures GpioApply(w, mask, mode) & !mask == w & !mask
  {
  }

  /** Whatever the mode, writing a GPIO touches no bit outside its mask. */
  lemma GpioKeepsOthers(w: Word, mask: Word, mode: GpioMode)
    ensures GpioApply(w, mask, mode) & !mask == w & !mask
  {
    match mode
    case ModeZ => GpioZKeeps(w, mask, mode);
    case ModeI => GpioIKeeps(w, mask, mode);
    case ModeLow => GpioLowKeeps(w, mask, mode);
    case ModeHigh => GpioHighKeeps(w, mask, mode);
    case ModeUnknown => GpioUnknownKeeps(w, mask, mode);
  }

  /** On GPIO1 the four modes give the field patterns 00, 01, 10 and 11. */
  lemma GpioOneModes(w: Word)
    ensures GpioApply(w, GPIO1, ModeZ) & 0x0003 == 0x0000
    ensures GpioApply(w, GPIO1, ModeI) & 0x0003 == 0x0001
    ensures GpioApply(w, GPIO1, ModeLow) & 0x0003 == 0x0002
    ensures GpioApply(w, GPIO1, ModeHigh) & 0x0003 == 0x0003
  {
    GpioZ(w, GPIO1);
    GpioI(w, GPIO1);
    GpioLow(w, GPIO1);
    GpioHigh(w, GPIO1);
  }

  /** On GPIO2 (0x00C0) and GPIO3 (0x0300) modes I and Low just clear the
      pin's field, like mode Z: neither mask shares a bit with 0x15 or 0x2A. */
  lemma GpioUpperIClears(w: Word, mask: Word)
    requires mask == GPIO2 || mask == GPIO3
    ensures GpioApply(w, mask, ModeI) == w & !mask
  {
  }

  lemma GpioUpperLowClears(w: Word, mask: Word)
    requires mask == GPIO2 || mask == GPIO3
    ensures GpioApply(w, mask, ModeLow) == w & !mask
  {
  }

  // ---------------------------------------------------------------- power-up

  /** TEST1 as written before the oscillator settles. */
  const OSCILLATOR_TEST1: Word := 0x8100

  /** 0x8100 turns the crystal oscillator on (XOSCEN) with AHIZEN off. */
  lemma OscillatorTest1Bits()
    ensures OSCILLATOR_TEST1 & Bit(XOSCEN) != 0 && OSCILLATOR_TEST1 & Bit(AHIZEN) == 0
  {
  }

  /** SYSCONFIG1 before the oscillator settles: 0x2000 OR-ed in. */
  function OscillatorConfig1(w: Word): Word
  {
    w | 0x2000
  }

  /** 0x2000 is bit 13; every other bit of SYSCONFIG1 is kept, in particular
      STCIEN, which is bit 14. */
  lemma OscillatorConfig1Sets(w: Word)
    ensures OscillatorConfig1(w) & 0x2000 != 0
  {
  }

  lemma OscillatorConfig1Keeps(w: Word)
    ensures OscillatorConfig1(w) & 0xDFFF == w & 0xDFFF
  {
  }

  lemma StcienIsBitFourteen()
    ensures Bit(STCIEN) == 0x4000
  {
  }

  /** POWERCFG as written at power-up. */
  const POWERUP_POWERCFG: Word := 0x4001

  /** 0x4001 is exactly DMUTE (mute off) and ENABLE. */
  lemma PowerUpPowercfgBits()
    ensures POWERUP_POWERCFG == Bit(DMUTE) | Bit(ENABLE)
  {
  }

  /** SYSCONFIG1 at power-up: RDS and DE (50 us de-emphasis) OR-ed in. */
  function PowerUpConfig1(w: Word): Word
  {
    (w | Bit(RDS)) | Bit(DE)
  }

  lemma RdsAndDeBits()
    ensures Bit(RDS) | Bit(DE) == 0x1800
  {
  }

  /** Power-up sets bits 12 (RDS) and 11 (DE) of SYSCONFIG1. */
  lemma PowerUpConfig1Sets(w: Word)
    ensures PowerUpConfig1(w) & 0x1800 == 0x1800
  {
    RdsAndDeBits();
  }

  /** Power-up keeps every other bit of SYSCONFIG1. */
  lemma PowerUpConfig1Keeps(w: Word)
    ensures PowerUpConfig1(w) & 0xE7FF == w & 0xE7FF
  {
    RdsAndDeBits();
  }

  /** SYSCONFIG2 at power-up: SPACE0 set (100 kHz spacing), then the volume
      field cleared and set to 1. */
  function PowerUpConfig2(w: Word): Word
  {
    ((w | Bit(SPACE0)) & 0xFFF0) | 0x0001
  }

  lemma Space0Bit()
    ensures Bit(SPACE0) == 0x0010
  {
  }

  /** Power-up selects 100 kHz spacing (SPACE0) and volume 1 in SYSCONFIG2. */
  lemma PowerUpConfig2Sets(w: Word)
    ensures PowerUpConfig2(w) & 0x001F == 0x0011
  {
    Space0Bit();
  }

  /** Power-up keeps bits 5..15 of SYSCONFIG2. */
  lemma PowerUpConfig2Keeps(w: Word)
    ensures PowerUpConfig2(w) & 0xFFE0 == w & 0xFFE0
  {
    Space0Bit();
  }
}
