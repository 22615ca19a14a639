# Si4703 FM receiver driver: register shadow model

This project models the core of an Arduino driver for the Si4703 FM radio
receiver. The driver can only see the device through a shadow of its 16
registers, each 16 bits wide. Every operation that changes the device
reads all registers over the two-wire bus, edits bit fields of the shadow
and writes the control registers back; `getChannel` and `readRDS` only
read. The model covers:

- the two bus transactions (`readRegisters`, `updateRegisters`);
- the register edits and reads of `setChannel`, `getChannel`, `seek`, `seekUp`,
  `seekDown`, `setVolume`, `writeGPIO` and the power-up sequence
  (`si4703_init`, `powerOn`);
- the RDS program-service name collector `readRDS`;
- the register, bit, mask and mode constants of the header.

Files:

- `registers.dfy` (module `Registers`): the header's constants and facts
  about them.
- `words.dfy` (module `WordValues`): converts small integers to 16-bit
  words bit by bit. It is proof support for storing `channel - 875` into
  a register and for the volume lemmas.
- `transfer.dfy` (module `Transfer`): the byte layout of the two
  transactions.
  - A read delivers 32 bytes, starting with register 0x0A, wrapping after
    0x0F, each register high byte first.
  - A write carries registers 0x02..0x07 (12 bytes) with no register
    address.
- `fields.dfy` (module `Fields`): each single-register edit, written as a
  function on a word, and lemmas saying which bits each edit sets, clears
  or keeps.
- `rds.dfy` (module `Rds`): the RDS collector as a specification.
  - `Poll` is one pass of the loop body.
  - `Step` is one pass plus its delay.
  - `Collect` is the whole loop.
  - `Finish` places the terminator.
- `driver.dfy` (module `Driver`): the class `Si4703`.
  - It holds the shadow as an `array<Word>`.
  - Its methods do what the driver's methods do, in the same order, and
    each is proved against the specification functions above.
  - The bus is part of the object:
    - `rx` is the script of replies to coming reads;
    - `acks` holds the acknowledgements of coming writes;
    - `sent` logs every write transaction;
    - `millis` is the millisecond clock.

These code details are modelled literally:

- The channel field is cleared with mask 0xFE00 (9 bits) but read back
  with 0x03FF (10 bits).
- `channel - 875` is OR-ed into CHANNEL unmasked, as its low 16 bits. A
  channel from 363 to 874 therefore sets every bit from 9 to 15, and the
  low bits are the two's complement of `channel - 875`; channel 874 fills
  the whole register (`TuneBelowBandFillsRegister`).
- GPIO2 (0x00C0) and GPIO3 (0x0300) share no bit with the I pattern 0x15
  or the Low pattern 0x2A. For them, modes I and Low just clear the field.
- The oscillator step of the power-up sequence ORs 0x2000 into
  SYSCONFIG1. That is bit 13; STCIEN is bit 14
  (`OscillatorConfig1Sets`, `StcienIsBitFourteen`).
- A byte read past the end of a reply is -1, so it becomes all ones in the
  register.
- An unknown GPIO mode still sends the shadow as read.
- The time-out test after the `readRDS` loop empties the message whenever
  the clock has reached the deadline. This holds even if the fourth pair
  arrived on the last poll.

## Model

| member | source | states |
|---|---|---|
| Registers.RegisterNamesAreIndices | src/Si4703.h:294-310 | the sixteen register names are the indices 0x00..0x0F in order; POWERCFG..TEST1 is the contiguous block 0x02..0x07 that a write carries; a read is 32 bytes |
| Registers.GpioMasksDisjoint | src/Si4703.h:31-33 | GPIO1, GPIO2 and GPIO3 are two-bit masks (bits 0-1, 6-7, 8-9) sharing no bit pairwise |
| Registers.GpioModesAreZeroToThree | src/Si4703.h:36-39 | the modes Z, I, Low, High are exactly 0, 1, 2, 3 |
| Registers.StatusAndCommandBits | src/Si4703.h:317-343 | RDSR, STC, SFBL are the distinct bits 15, 14, 13 of STATUSRSSI; TUNE is bit 15 of CHANNEL; SKMODE, SEEKUP, SEEK are bits 10, 9, 8 of POWERCFG |
| Registers.DirectionsAndResultsDistinct | src/Si4703.h:284-288 | SEEK_DOWN = 0 and SEEK_UP = 1 differ, and so do FAIL = 0 and SUCCESS = 1 |
| Transfer.NextReply | src/Si4703.cpp:22-29 | definition: the bytes `Wire.requestFrom` makes available to `Wire.read` are the next scripted reply, or none once the script is used up; Driver.Si4703.ReadRegisters states that the shadow becomes Derotate of that reply |
| Transfer.RestReplies | src/Si4703.cpp:22 | each read request uses up exactly one scripted reply: the script shrinks by one while it is not empty |
| Transfer.NextAck | src/Si4703.cpp:54 | definition: the status `Wire.endTransmission` returns is the next scripted acknowledgement; when the script is used up the model returns 2 (no acknowledgement of the address), a modelling choice; Driver.WriteStatus and Driver.Si4703.UpdateRegisters state the FAIL/SUCCESS it leads to |
| Transfer.RestAcks | src/Si4703.cpp:54 | definition: each write uses up one scripted acknowledgement; Driver.Si4703.UpdateRegisters states that the script loses exactly its head |
| Transfer.BurstIndex | src/Si4703.cpp:25-30 | the k-th word of a read lands in register (0x0A + k) mod 16 |
| Transfer.BurstPosition | src/Si4703.cpp:25-30 | every register is the target of exactly one word of the read, the one at (x - 0x0A) mod 16 |
| Transfer.WireByte | src/Si4703.cpp:28-29 | a byte actually delivered stays below 0x100 once widened into a register; a read past the end of the reply (`Wire.read()` returning -1) becomes 0xFFFF |
| Transfer.WordAt | src/Si4703.cpp:28-29 | definition: word k of a reply is byte 2k shifted up 8 bits OR-ed with byte 2k+1, each widened as a read past the end is |
| Transfer.Derotate | src/Si4703.cpp:25-31 | the shadow a read leaves has exactly 16 registers; register x holds the word at its burst position (DerotateAt, ReadRoundTrip) |
| Transfer.DerotateAt | src/Si4703.cpp:25-31 | register x is (b[2k] << 8) OR b[2k+1] with k = (x - 0x0A) mod 16 |
| Transfer.ReadRoundTrip | src/Si4703.cpp:19-32 | reading the 32-byte burst of a device whose registers hold `regs` makes the shadow exactly `regs` |
| Transfer.BurstRoundTrip | src/Si4703.cpp:22-31 | every full 32-byte reply is the burst of the registers it is read into: no byte is dropped or reordered |
| Transfer.Hi | src/Si4703.cpp:46 | definition: `high_byte`, the register shifted down 8 bits; Transfer.EncodeAt, Transfer.DecodeEncode and Transfer.ControlBytesLayout state where it is sent and that it is recovered |
| Transfer.Lo | src/Si4703.cpp:47 | definition: `low_byte`, the register masked with 0x00FF; Transfer.EncodeAt, Transfer.DecodeEncode and Transfer.ControlBytesLayout state where it is sent and that it is recovered |
| Transfer.Encode | src/Si4703.cpp:45-51 | a run of words serialises to twice as many bytes, high byte first (EncodeAt gives each position) |
| Transfer.EncodeAt | src/Si4703.cpp:45-51 | word k of a serialised run sits at bytes 2k (high) and 2k+1 (low) |
| Transfer.DecodeEncode | src/Si4703.cpp:45-51 | a word serialised high byte first is recovered by reading it back |
| Transfer.ControlBytes | src/Si4703.cpp:45-51 | a write transaction is exactly 12 bytes |
| Transfer.ControlBytesLayout | src/Si4703.cpp:45-51 | bytes 2k and 2k+1 of a write are the high and low byte of register 0x02 + k, and the device can rebuild each register from them |
| Transfer.ControlBytesIgnoreOthers | src/Si4703.cpp:45-51 | a write does not depend on registers 0x00, 0x01 or 0x08..0x0F |
| Fields.Low16 | src/Si4703.cpp:125 | definition: an `int` OR-ed into a 16-bit register contributes its low 16 bits, two's complement; Low16InRange and MinusOneIsAllOnes state what that gives |
| Fields.Low16InRange | src/Si4703.cpp:125 | an int in 0..511 OR-ed into a register keeps its value |
| Fields.Clamp | src/Si4703.cpp:218-219 | the volume used lies in 0..15: the request when in range, 0 below, 15 above |
| Fields.WithVolume | src/Si4703.cpp:220-221 | definition: SYSCONFIG2 with its low four bits cleared and the clamped volume OR-ed in; VolumeField and VolumeKeepsUpper state its effect |
| Fields.VolumeField | src/Si4703.cpp:218-221 | after a volume edit SYSCONFIG2's low four bits hold the clamped volume |
| Fields.VolumeKeepsUpper | src/Si4703.cpp:220-221 | a volume edit keeps SYSCONFIG2's upper twelve bits |
| Fields.TuneStart | src/Si4703.cpp:124-126 | definition: CHANNEL AND 0xFE00, then channel - 875 OR-ed in unmasked, then TUNE set; TuneStartField, TuneStartKeepsOthers and TuneStartSetsTune state its effect |
| Fields.TuneStartField | src/Si4703.cpp:120-125 | for 0 <= channel - 875 < 512 a tune start leaves channel - 875 in CHANNEL's bits 0-8 |
| Fields.TuneStartKeepsOthers | src/Si4703.cpp:124-125 | for such channels a tune start keeps bits 9-14 of CHANNEL |
| Fields.TuneStartSetsTune | src/Si4703.cpp:126 | a tune start sets TUNE for every channel |
| Fields.TuneBelowBandFillsRegister | src/Si4703.cpp:120-126 | channel 874 (value -1, unmasked) overwrites CHANNEL with 0xFFFF |
| Fields.MinusOneIsAllOnes | src/Si4703.cpp:125 | -1 stored into a 16-bit register is 0xFFFF |
| Fields.TuneEnd | src/Si4703.cpp:134 | definition: CHANNEL with TUNE cleared; TuneEndClearsTune and TuneEndKeepsOthers state its effect |
| Fields.TuneEndClearsTune | src/Si4703.cpp:134 | ending a tune clears TUNE |
| Fields.TuneEndKeepsOthers | src/Si4703.cpp:134 | ending a tune keeps the other fifteen bits of CHANNEL |
| Fields.ChannelOf | src/Si4703.cpp:154-157 | the channel read back lies in 875..1898 |
| Fields.TuneRoundTrip | src/Si4703.cpp:154-155 | when READCHAN echoes the 9-bit field a tune wrote, the channel read back is the channel tuned |
| Fields.SeekStart | src/Si4703.cpp:168-174 | definition: POWERCFG with SKMODE set, SEEKUP cleared for SEEK_DOWN and set otherwise, then SEEK set; SeekDownBits, SeekUpBits and SeekStartKeepsOthers state its effect |
| Fields.SeekDownBits | src/Si4703.cpp:168-174 | a seek down sets SKMODE and SEEK and clears SEEKUP |
| Fields.SeekUpBits | src/Si4703.cpp:168-174 | a seek in any other direction sets SKMODE, SEEKUP and SEEK |
| Fields.SeekStartKeepsOthers | src/Si4703.cpp:168-174 | a seek start keeps every POWERCFG bit but SKMODE, SEEKUP and SEEK |
| Fields.SeekEnd | src/Si4703.cpp:181 | definition: POWERCFG with SEEK cleared; SeekEndClearsSeek and SeekEndKeepsOthers state its effect |
| Fields.SeekEndClearsSeek | src/Si4703.cpp:181 | ending a seek clears SEEK |
| Fields.SeekEndKeepsOthers | src/Si4703.cpp:181 | ending a seek keeps every other bit of POWERCFG |
| Fields.SeekOutcome | src/Si4703.cpp:190-193 | a seek returns 0 exactly when SFBL was set, and otherwise the channel READCHAN denotes |
| Fields.ModeOf | src/Si4703.cpp:284-308 | each of the values 0..3 selects its mode; any other value is the unknown mode |
| Fields.GpioApply | src/Si4703.cpp:284-311 | definition: SYSCONFIG1 after a mode is applied to a mask: Z clears the mask, I and Low clear it and OR in mask AND 0x15 or mask AND 0x2A, High sets it, an unknown mode keeps the word; GpioZ..GpioUnknown and GpioKeepsOthers state its effect |
| Fields.GpioZ | src/Si4703.cpp:284-287 | mode Z clears every bit of the mask |
| Fields.GpioI | src/Si4703.cpp:289-294 | mode I leaves exactly mask AND 0b010101 set inside the mask |
| Fields.GpioLow | src/Si4703.cpp:296-301 | mode Low leaves exactly mask AND 0b101010 set inside the mask |
| Fields.GpioHigh | src/Si4703.cpp:303-306 | mode High sets every bit of the mask |
| Fields.GpioUnknown | src/Si4703.cpp:308-311 | an unknown mode leaves SYSCONFIG1 as read |
| Fields.GpioKeepsOthers | src/Si4703.cpp:284-306 | no mode changes a bit outside the mask |
| Fields.GpioOneModes | src/Si4703.cpp:284-306 | on GPIO1 the four modes give the field patterns 00, 01, 10, 11 |
| Fields.GpioUpperIClears | src/Si4703.cpp:289-294 | on GPIO2 and GPIO3 mode I only clears the field |
| Fields.GpioUpperLowClears | src/Si4703.cpp:296-301 | on GPIO2 and GPIO3 mode Low only clears the field |
| Fields.OscillatorTest1Bits | src/Si4703.cpp:84 | 0x8100 in TEST1 turns XOSCEN on and AHIZEN off |
| Fields.OscillatorConfig1 | src/Si4703.cpp:85 | definition: SYSCONFIG1 with 0x2000 OR-ed in; OscillatorConfig1Sets and OscillatorConfig1Keeps state its effect |
| Fields.OscillatorConfig1Sets | src/Si4703.cpp:85 | the oscillator step sets bit 13 (0x2000) of SYSCONFIG1 |
| Fields.OscillatorConfig1Keeps | src/Si4703.cpp:85 | and keeps every other bit of SYSCONFIG1, STCIEN included |
| Fields.StcienIsBitFourteen | src/Si4703.h:328 | STCIEN is 0x4000, not the 0x2000 the oscillator step ORs in |
| Fields.PowerUpPowercfgBits | src/Si4703.cpp:92 | 0x4001 is exactly DMUTE and ENABLE |
| Fields.PowerUpConfig1 | src/Si4703.cpp:94-95 | definition: SYSCONFIG1 with RDS, then DE, OR-ed in; PowerUpConfig1Sets and PowerUpConfig1Keeps state its effect |
| Fields.PowerUpConfig1Sets | src/Si4703.cpp:94-95 | power-up sets RDS and DE in SYSCONFIG1 |
| Fields.PowerUpConfig1Keeps | src/Si4703.cpp:94-95 | and keeps every other bit of SYSCONFIG1 |
| Fields.PowerUpConfig2 | src/Si4703.cpp:96-98 | definition: SYSCONFIG2 with SPACE0 set, then AND 0xFFF0, then OR 0x0001; PowerUpConfig2Sets and PowerUpConfig2Keeps state its effect |
| Fields.PowerUpConfig2Sets | src/Si4703.cpp:96-98 | power-up selects SPACE0 and volume 1 in SYSCONFIG2's low five bits |
| Fields.PowerUpConfig2Keeps | src/Si4703.cpp:96-98 | and keeps bits 5-15 of SYSCONFIG2 |
| Rds.GroupReady | src/Si4703.cpp:238 | definition: the RDSR bit of STATUSRSSI is set; Rds.PollSkips, Rds.PollDelay and Driver.Si4703.PollOnce state what a pass does with and without it |
| Rds.PairIndex | src/Si4703.cpp:242-243 | block B selects one of the four pairs |
| Rds.FirstChar | src/Si4703.cpp:248 | definition: `Dh`, block D masked with 0xFF00 and shifted down 8 bits; Rds.FirstCharIsHighByte states it is the high byte |
| Rds.FirstCharIsHighByte | src/Si4703.cpp:248 | the first character of a pair is block D's high byte |
| Rds.SecondChar | src/Si4703.cpp:249 | definition: `Dl`, block D masked with 0x00FF; Rds.SecondCharIsLowByte states it is the low byte |
| Rds.SecondCharIsLowByte | src/Si4703.cpp:249 | the second character is block D's low byte |
| Rds.CountTrueMark | src/Si4703.cpp:246-247 | marking a missing pair completed raises the number of completed pairs by one |
| Rds.CountTrueAll | src/Si4703.cpp:234 | the count reaches four exactly when every pair is completed |
| Rds.Start | src/Si4703.cpp:231-232 | the loop starts with no pair completed and a count of 0 that matches |
| Rds.Accepts | src/Si4703.cpp:238-244 | definition: a poll takes a group when RDSR is set, the pair block B selects is not yet completed and block B is below 500; PollSkips and PollTakes state what follows |
| Rds.Poll | src/Si4703.cpp:238-258 | one pass keeps the count equal to the number of completed pairs, never more than four |
| Rds.PollTakes | src/Si4703.cpp:244-251 | a taken group marks its pair, counts it and puts block D's high and low byte at 2i and 2i+1; no other byte changes |
| Rds.PollSkips | src/Si4703.cpp:238-244 | a pass that takes no group (no RDSR, pair already in, or block B >= 500) changes nothing; the count grows exactly when a group is taken |
| Rds.PollExtends | src/Si4703.cpp:244-251 | a pass never rewrites a completed pair or the terminator position: each slot is written at most once |
| Rds.PollDelay | src/Si4703.cpp:260-265 | a pass waits 40 ms exactly when RDSR was set, and 30 ms otherwise |
| Rds.Step | src/Si4703.cpp:234-266 | every pass advances the clock, so the loop ends |
| Rds.Done | src/Si4703.cpp:234 | definition: the negation of the loop guard, four pairs in or the clock at the deadline; Rds.CollectStops states the loop ends only there |
| Rds.Collect | src/Si4703.cpp:234-267 | the loop keeps the collection well formed |
| Rds.Finish | src/Si4703.cpp:269-274 | the terminator does not change the buffer's length |
| Rds.CollectExtends | src/Si4703.cpp:234-267 | the loop keeps every pair it received |
| Rds.CollectStops | src/Si4703.cpp:234 | the loop stops only with all four pairs or at the deadline, and never runs the clock back |
| Rds.CompleteBeforeDeadline | src/Si4703.cpp:269-274 | a loop ending before the deadline has all four pairs; its message is the eight characters followed by a terminator at byte 8 |
| Rds.DeadlineEmptiesMessage | src/Si4703.cpp:269-272 | a loop ending at or after the deadline leaves a terminator at byte 0 |
| Rds.CollectSkips | src/Si4703.cpp:234 | when the loop runs on for n passes (none of them ends it), running those n passes first does not change where the loop ends |
| Rds.StepReads | src/Si4703.cpp:236 | a pass that reads a device's burst polls exactly that device's registers |
| Rds.StepsTake | src/Si4703.cpp:234-266 | passes that each take a group poll them in turn, use one reply each and take 40 ms each |
| Rds.TakeAllCounts | src/Si4703.cpp:247 | taking n groups raises the count by n |
| Rds.TakeAllStores | src/Si4703.cpp:250-251 | after taking a run of groups each group's characters sit in its pair's place |
| Rds.RunsThrough | src/Si4703.cpp:234 | while fewer than four pairs are in and the deadline allows, the loop runs through groups that will be taken |
| Rds.FourGroupsMessage | src/Si4703.cpp:228-275 | four groups with distinct pairs and block B < 500, read on four polls before the deadline, give the whole message with each pair in its place, terminated at byte 8 |
| Driver.StcClear | src/Si4703.cpp:138-141 | definition: the reply's STATUSRSSI has STC clear, the test of the tune wait and of the same wait in seek (line 187 of the same file); Driver.StcReply and Driver.Si4703.AwaitStcClear state that the wait ends on the first such reply |
| Driver.StcReply | src/Si4703.cpp:138-141 | the STC wait ends on a reply that reports STC clear |
| Driver.WriteStatus | src/Si4703.cpp:54-59 | a write reports FAIL exactly when its acknowledgement is non-zero, and SUCCESS exactly when it is 0 |
| Driver.TuneWrite | src/Si4703.cpp:123-127 | the first tune write changes no register but CHANNEL |
| Driver.TuneDone | src/Si4703.cpp:133-135 | the second tune write changes no register but CHANNEL |
| Driver.SeekWrite | src/Si4703.cpp:166-175 | the first seek write changes no register but POWERCFG |
| Driver.SeekDone | src/Si4703.cpp:179-182 | the second seek write changes no register but POWERCFG |
| Driver.VolumeWrite | src/Si4703.cpp:217-222 | a volume write changes no register but SYSCONFIG2 |
| Driver.GpioWrite | src/Si4703.cpp:282-313 | a GPIO write changes no register but SYSCONFIG1 |
| Driver.OscillatorWrite | src/Si4703.cpp:83-86 | the oscillator write puts 0x8100 in TEST1 and changes nothing but TEST1 and SYSCONFIG1 |
| Driver.PowerUpWrite | src/Si4703.cpp:90-100 | the power-up write puts 0x4001 in POWERCFG and changes nothing but POWERCFG, SYSCONFIG1 and SYSCONFIG2 |
| Driver.SentRegisters | src/Si4703.cpp:45-51 | a write of a shadow with one edited register carries that register as edited and every other control register as read |
| Driver.TuneFirstWrite | src/Si4703.cpp:120-127 | for 0 <= channel - 875 < 512 the first tune write carries channel - 875 in CHANNEL's bits 0-8, TUNE set and bits 9-14 as read |
| Driver.TuneSecondWrite | src/Si4703.cpp:133-135 | the second tune write carries CHANNEL with TUNE clear and the other bits as read |
| Driver.SeekFirstWrite | src/Si4703.cpp:166-175 | the first seek write carries SKMODE and SEEK set, SEEKUP set exactly when the direction is not down, and the other POWERCFG bits as read |
| Driver.SeekSecondWrite | src/Si4703.cpp:179-182 | the second seek write carries SEEK clear and the other POWERCFG bits as read |
| Driver.VolumeWriteCarries | src/Si4703.cpp:217-222 | a volume write carries the clamped volume in SYSCONFIG2's low four bits and the upper twelve bits as read |
| Driver.GpioWriteKeeps | src/Si4703.cpp:282-313 | a GPIO write carries every SYSCONFIG1 bit outside the mask as read |
| Driver.SeekWord | src/Si4703.cpp:168-174 | the seek edit of POWERCFG, done step by step as the source does it, gives the seek-start word |
| Driver.GpioWord | src/Si4703.cpp:284-311 | the if-chain on the integer mode, each branch one expression for the source's clear-and-OR steps, gives the word GpioApply prescribes for ModeOf of the mode |
| Driver.Si4703.constructor | src/Si4703.cpp:8-14 | the driver remembers its four pins; nothing has been read or sent yet; the shadow holds sixteen zeros |
| Driver.Si4703.ReadRegisters | src/Si4703.cpp:19-32 | one read consumes one reply and leaves the shadow equal to the registers that reply denotes; a write is allowed from then on |
| Driver.Si4703.UpdateRegisters | src/Si4703.cpp:39-60 | requires a previous read; appends the 12-byte write of POWERCFG..TEST1 to the bus log, consumes one acknowledgement and returns its status; the shadow is unchanged |
| Driver.Si4703.Delay | src/Si4703.cpp:260-264 | a wait of ms milliseconds advances the clock by exactly ms and changes nothing else of the bus state (also the waits at 76, 79, 88 and 101) |
| Driver.Si4703.AwaitStcClear | src/Si4703.cpp:138-141 | reads until the first reply that reports STC clear; the shadow holds that reply |
| Driver.Si4703.StartTune | src/Si4703.cpp:120-127 | the shadow is the fresh read with the tune-start CHANNEL, and exactly that is written |
| Driver.Si4703.EndTune | src/Si4703.cpp:133-135 | the shadow is the fresh read with TUNE cleared, and exactly that is written |
| Driver.Si4703.SetChannel | src/Si4703.cpp:115-142 | requires the STC pin number not to be 1; sends exactly the two tune writes, then the shadow holds the first STC-clear reply |
| Driver.Si4703.GetChannel | src/Si4703.cpp:148-158 | returns the channel of READCHAN in the reply read |
| Driver.Si4703.StartSeek | src/Si4703.cpp:166-175 | the shadow is the fresh read with the seek-start POWERCFG, and exactly that is written |
| Driver.Si4703.EndSeek | src/Si4703.cpp:179-182 | returns SFBL of the fresh read; writes it with SEEK cleared |
| Driver.Si4703.Seek | src/Si4703.cpp:165-194 | sends exactly the two seek writes; returns 0 when SFBL was set, else the channel of the read after the STC wait |
| Driver.Si4703.SeekUp | src/Si4703.cpp:199-202 | a seek with direction SEEK_UP: the same writes, result, shadow, replies, acknowledgements and clock as Seek states |
| Driver.Si4703.SeekDown | src/Si4703.cpp:207-210 | a seek with direction SEEK_DOWN: the same writes, result, shadow, replies, acknowledgements and clock as Seek states |
| Driver.Si4703.SetVolume | src/Si4703.cpp:215-223 | the shadow is the fresh read with the clamped volume in SYSCONFIG2, and exactly that is written |
| Driver.Si4703.WriteGPIO | src/Si4703.cpp:280-314 | the shadow is the fresh read with the mode applied to the mask, and exactly that is written, even for an unknown mode |
| Driver.Si4703.StartOscillator | src/Si4703.cpp:83-86 | the shadow is the fresh read with the oscillator edits, and exactly that is written |
| Driver.Si4703.PowerUp | src/Si4703.cpp:90-100 | the shadow is the fresh read with the power-up edits, and exactly that is written |
| Driver.Si4703.Init | src/Si4703.cpp:67-102 | sends the oscillator write, then the power-up write, each built on a fresh read; 612 ms pass |
| Driver.Si4703.PowerOn | src/Si4703.cpp:107-110 | the same as Init |
| Driver.Si4703.StoreGroup | src/Si4703.cpp:242-258 | the completed pairs, count and buffer become what one poll of the shadow prescribes |
| Driver.Si4703.PollOnce | src/Si4703.cpp:236-265 | one pass of the loop body is one Step of the specification |
| Driver.Si4703.ReadRDS | src/Si4703.cpp:228-275 | the buffer, shadow, replies left and clock on return are those of the specified loop from the current state, finished with a terminator at byte 8, or at byte 0 on time-out |

## Left out

- Pin and reset sequencing are not modelled. This covers `pinMode`,
  `digitalWrite`, `Wire.begin` and the constructor's pin roles. The delays
  of `si4703_init` only advance the clock.
- The electrical side of the two-wire bus is not modelled.
  - A read is one scripted reply and a write is one logged byte sequence
    plus one scripted acknowledgement.
  - When the script runs out, a read yields no bytes and a write is not
    acknowledged (2).
- Driver.Si4703.SetChannel, Driver.Si4703.Seek, Driver.Si4703.SeekUp,
  Driver.Si4703.SeekDown: the wait
  `while(_stcIntPin == 1)` compares the pin number, not the pin's level.
  It is modelled as the precondition that the pin number is not 1, because
  with pin 1 the source never returns.
- Driver.Si4703.AwaitStcClear: the wait for STC to clear is modelled over
  the finite script of replies. It requires that some coming reply reports
  STC clear; the source would otherwise spin for ever.
- Time is not modelled beyond the millisecond clock.
  - Only `delay` advances the clock; bus transactions take no time.
  - `readRDS` polls are 40 ms after a group and 30 ms otherwise.
- Driver.Si4703.ReadRDS: the deadline `millis() + timeout` is a
  mathematical integer. The source adds and compares as 32-bit unsigned
  numbers, so wherever `millis() + timeout` falls outside 0..2^32-1 the
  two differ. For any timeout below `-millis()` the model returns at once
  with the empty message, while the source's deadline wraps to a value
  near 2^32 and it keeps polling until four pairs arrive.
- The diagnostic `Serial.println` for an unknown GPIO mode is not modelled
  (output only).
- The bit-field unions of the header are not modelled. They are declared
  for registers 0x00..0x0F and the driver never uses them.
- `getDeviceID` and `getChipID` are not modelled: they are declared with no
  definition. `I2C_FAIL_MAX` and the BAND/SPACE constants are not modelled
  because no code uses them.
- Driver.Si4703.WriteGPIO: the GPIO argument is taken as a 16-bit word.
  Only its low 16 bits can reach the register.
- Driver.Si4703.constructor: the shadow starts as zeros, as it does in
  the source for a driver object with static storage (the usual global
  one); for a local or heap object the source's shadow is indeterminate.
  No result depends on it, because every write requires an earlier read
  (`shadowRead`).
- Driver.Si4703.StartTune, Driver.Si4703.SetVolume,
  Driver.Si4703.PowerUp, Driver.Si4703.StartSeek (through SeekWord),
  Driver.Si4703.WriteGPIO (through GpioWord): each register edit is
  computed on a local word and stored once. The source stores after every
  step. The final register is the same because nothing else reads it in
  between.
- Driver.Si4703.ReadRDS: the caller's buffer must hold at least nine
  bytes, as the header asks. The two low bits of block B are read as the
  pair index, as the source does.
