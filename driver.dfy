/** The driver object: the 16-word register shadow, the read-modify-write
    transactions that keep it in step with the device, and the operations
    built on them (power-up, tuning, seeking, volume, RDS, GPIO).

    The bus is part of the object's state: `rx` holds the replies the device
    will give to the coming read requests, `acks` the acknowledgements it will
    give to the coming write transactions, `sent` every write transaction
    sent so far, and `millis` the millisecond clock. */
module Driver {
  import opened Registers
  import opened Transfer
  import opened Fields
  import opened Rds

  // ------------------------------------------------------------ STC polling

  /** A read reply in which the device reports STC (seek/tune complete) clear. */
  predicate StcClear(reply: seq<Byte>)
  {
    Derotate(reply)[STATUSRSSI] & Bit(STC) == 0
  }

  /** Some coming reply reports STC clear, so a wait for it ends. */
  predicate StcClearAhead(replies: seq<seq<Byte>>)
    decreases |replies|
  {
    replies != [] && (StcClear(replies[0]) || StcClearAhead(replies[1..]))
  }

  /** The first coming reply that reports STC clear ... */
  function StcReply(replies: seq<seq<Byte>>): (reply: seq<Byte>)
    requires StcClearAhead(replies)
    ensures StcClear(reply)
    decreases |replies|
  {
    if StcClear(replies[0]) then replies[0] else StcReply(replies[1..])
  }

  /** ... and the replies that follow it. */
  function AfterStc(replies: seq<seq<Byte>>): (rest: seq<seq<Byte>>)
    requires StcClearAhead(replies)
    ensures |rest| < |replies|
    decreases |replies|
  {
    if StcClear(replies[0]) then replies[1..] else AfterStc(replies[1..])
  }

  /** The reply script after two reads. */
  function AfterTwo(replies: seq<seq<Byte>>): seq<seq<Byte>>
  {
    RestReplies(RestReplies(replies))
  }

  /** The register file a read of the next reply gives. */
  function FirstRead(replies: seq<seq<Byte>>): (regs: seq<Word>)
    ensures |regs| == REGISTER_COUNT
  {
    Derotate(NextReply(replies))
  }

  /** The register file a read of the reply after the next gives. */
  function SecondRead(replies: seq<seq<Byte>>): (regs: seq<Word>)
    ensures |regs| == REGISTER_COUNT
  {
    Derotate(NextReply(RestReplies(replies)))
  }

  // ------------------------------------------------------------ shadow edits

  /** The shadow as sent by the first write of a tune. */
  function TuneWrite(regs: seq<Word>, channel: int): (r: seq<Word>)
    requires |regs| == REGISTER_COUNT
    ensures |r| == REGISTER_COUNT
    ensures forall x :: 0 <= x < REGISTER_COUNT && x != CHANNEL ==> r[x] == regs[x]
  {
    regs[CHANNEL := TuneStart(regs[CHANNEL], channel)]
  }

  /** The shadow as sent by the second write of a tune. */
  function TuneDone(regs: seq<Word>): (r: seq<Word>)
    requires |regs| == REGISTER_COUNT
    ensures |r| == REGISTER_COUNT
    ensures forall x :: 0 <= x < REGISTER_COUNT && x != CHANNEL ==> r[x] == regs[x]
  {
    regs[CHANNEL := TuneEnd(regs[CHANNEL])]
  }

  /** The shadow as sent by the first write of a seek. */
  function SeekWrite(regs: seq<Word>, dir: Byte): (r: seq<Word>)
    requires |regs| == REGISTER_COUNT
    ensures |r| == REGISTER_COUNT
    ensures forall x :: 0 <= x < REGISTER_COUNT && x != POWERCFG ==> r[x] == regs[x]
  {
    regs[POWERCFG := SeekStart(regs[POWERCFG], dir)]
  }

  /** The shadow as sent by the second write of a seek. */
  function SeekDone(regs: seq<Word>): (r: seq<Word>)
    requires |regs| == REGISTER_COUNT
    ensures |r| == REGISTER_COUNT
    ensures forall x :: 0 <= x < REGISTER_COUNT && x != POWERCFG ==> r[x] == regs[x]
  {
    regs[POWERCFG := SeekEnd(regs[POWERCFG])]
  }

  /** The shadow as sent by a volume change. */
  function VolumeWrite(regs: seq<Word>, volume: int): (r: seq<Word>)
    requires |regs| == REGISTER_COUNT
    ensures |r| == REGISTER_COUNT
    ensures forall x :: 0 <= x < REGISTER_COUNT && x != SYSCONFIG2 ==> r[x] == regs[x]
  {
    regs[SYSCONFIG2 := WithVolume(regs[SYSCONFIG2], volume)]
  }

  /** The shadow as sent by a GPIO change. */
  function GpioWrite(regs: seq<Word>, mask: Word, val: int): (r: seq<Word>)
    requires |regs| == REGISTER_COUNT
    ensures |r| == REGISTER_COUNT
    ensures forall x :: 0 <= x < REGISTER_COUNT && x != SYSCONFIG1 ==> r[x] == regs[x]
  {
    regs[SYSCONFIG1 := GpioApply(regs[SYSCONFIG1], mask, ModeOf(val))]
  }

  /** The shadow as sent to start the oscillator. */
  function OscillatorWrite(regs: seq<Word>): (r: seq<Word>)
    requires |regs| == REGISTER_COUNT
    ensures |r| == REGISTER_COUNT && r[TEST1] == OSCILLATOR_TEST1
    ensures forall x :: 0 <= x < REGISTER_COUNT && x != TEST1 && x != SYSCONFIG1 ==> r[x] == regs[x]
  {
    regs[TEST1 := OSCILLATOR_TEST1][SYSCONFIG1 := OscillatorConfig1(regs[SYSCONFIG1])]
  }

  /** The shadow as sent to power the receiver up. */
  function PowerUpWrite(regs: seq<Word>): (r: seq<Word>)
    requires |regs| == REGISTER_COUNT
    ensures |r| == REGISTER_COUNT && r[POWERCFG] == POWERUP_POWERCFG
    ensures forall x :: 0 <= x < REGISTER_COUNT && x != POWERCFG && x != SYSCONFIG1 && x != SYSCONFIG2 ==>
              r[x] == regs[x]
  {
    regs[POWERCFG := POWERUP_POWERCFG][SYSCONFIG1 := PowerUpConfig1(regs[SYSCONFIG1])]
        [SYSCONFIG2 := PowerUpConfig2(regs[SYSCONFIG2])]
  }

  // ------------------------------------------------------------ what the writes carry

  /** The word a write transaction carries for control register x. */
  function SentWord(bytes: seq<Byte>, x: nat): Word
    requires POWERCFG <= x <= TEST1
  {
    WordAt(bytes, x - POWERCFG)
  }

  /** A write of an edited shadow carries the edited register as edited and
      every other control register as it was read. */
  lemma SentRegisters(regs: seq<Word>, edited: seq<Word>, x: nat)
    requires |regs| == |edited| == REGISTER_COUNT && POWERCFG <= x <= TEST1
    requires forall y :: 0 <= y < REGISTER_COUNT && y != x ==> edited[y] == regs[y]
    ensures SentWord(ControlBytes(edited), x) == edited[x]
    ensures forall y :: POWERCFG <= y <= TEST1 && y != x ==> SentWord(ControlBytes(edited), y) == regs[y]
  {
    ControlBytesLayout(edited);
    forall y | POWERCFG <= y <= TEST1
      ensures SentWord(ControlBytes(edited), y) == edited[y]
    {
      assert WordAt(ControlBytes(edited), y - POWERCFG) == edited[POWERCFG + (y - POWERCFG)];
    }
  }

  /** The first write of a tune to a channel of the band carries
      `channel - 875` in CHANNEL's bits 0-8, TUNE set and bits 9-14 as read. */
  lemma TuneFirstWrite(regs: seq<Word>, channel: int)
    requires |regs| == REGISTER_COUNT && 0 <= channel - CHANNEL_OFFSET < 512
    ensures var w := SentWord(ControlBytes(TuneWrite(regs, channel)), CHANNEL);
            (w & 0x01FF) as int == channel - CHANNEL_OFFSET && w & 0x8000 != 0 &&
            w & 0x7E00 == regs[CHANNEL] & 0x7E00
  {
    SentRegisters(regs, TuneWrite(regs, channel), CHANNEL);
    TuneStartField(regs[CHANNEL], channel);
    TuneStartSetsTune(regs[CHANNEL], channel);
    TuneStartKeepsOthers(regs[CHANNEL], channel);
  }

  /** The second write of a tune carries CHANNEL with TUNE clear and its
      other bits as read. */
  lemma TuneSecondWrite(regs: seq<Word>)
    requires |regs| == REGISTER_COUNT
    ensures var w := SentWord(ControlBytes(TuneDone(regs)), CHANNEL);
            w & 0x8000 == 0 && w & 0x7FFF == regs[CHANNEL] & 0x7FFF
  {
    var w := SentWord(ControlBytes(TuneDone(regs)), CHANNEL);
    assert w == TuneEnd(regs[CHANNEL]) by {
      SentRegisters(regs, TuneDone(regs), CHANNEL);
    }
    TuneEndClearsTune(regs[CHANNEL]);
    TuneEndKeepsOthers(regs[CHANNEL]);
  }

  /** The first write of a seek carries POWERCFG with SKMODE and SEEK set,
      SEEKUP set exactly when the direction is not down, and its other bits
      as read. */
  lemma SeekFirstWrite(regs: seq<Word>, dir: Byte)
    requires |regs| == REGISTER_COUNT
    ensures var w := SentWord(ControlBytes(SeekWrite(regs, dir)), POWERCFG);
            w & 0x0700 == (if dir == SEEK_DOWN then 0x0500 else 0x0700) &&
            w & 0xF8FF == regs[POWERCFG] & 0xF8FF
  {
    SentRegisters(regs, SeekWrite(regs, dir), POWERCFG);
    if dir == SEEK_DOWN {
      SeekDownBits(regs[POWERCFG]);
    } else {
      SeekUpBits(regs[POWERCFG], dir);
    }
    SeekStartKeepsOthers(regs[POWERCFG], dir);
  }

  /** The second write of a seek carries POWERCFG with SEEK clear and its
      other bits as read. */
  lemma SeekSecondWrite(regs: seq<Word>)
    requires |regs| == REGISTER_COUNT
    ensures var w := SentWord(ControlBytes(SeekDone(regs)), POWERCFG);
            w & 0x0100 == 0 && w & 0xFEFF == regs[POWERCFG] & 0xFEFF
  {
    SentRegisters(regs, SeekDone(regs), POWERCFG);
    SeekEndClearsSeek(regs[POWERCFG]);
    SeekEndKeepsOthers(regs[POWERCFG]);
  }

  /** A volume change carries SYSCONFIG2 with the clamped volume in its low
      four bits and its upper twelve bits as read. */
  lemma VolumeWriteCarries(regs: seq<Word>, volume: int)
    requires |regs| == REGISTER_COUNT
    ensures var w := SentWord(ControlBytes(VolumeWrite(regs, volume)), SYSCONFIG2);
            (w & 0x000F) as int == Clamp(volume) && w & 0xFFF0 == regs[SYSCONFIG2] & 0xFFF0
  {
    SentRegisters(regs, VolumeWrite(regs, volume), SYSCONFIG2);
    VolumeField(regs[SYSCONFIG2], volume);
    VolumeKeepsUpper(regs[SYSCONFIG2], volume);
  }

  /** A GPIO change carries SYSCONFIG1 with the bits outside the mask as
      read, whatever the mode. */
  lemma GpioWriteKeeps(regs: seq<Word>, mask: Word, val: int)
    requires |regs| == REGISTER_COUNT
    ensures SentWord(ControlBytes(GpioWrite(regs, mask, val)), SYSCONFIG1) & !mask == regs[SYSCONFIG1] & !mask
  {
    var w := regs[SYSCONFIG1];
    assert SentWord(ControlBytes(GpioWrite(regs, mask, val)), SYSCONFIG1) == GpioApply(w, mask, ModeOf(val)) by {
      SentRegisters(regs, GpioWrite(regs, mask, val), SYSCONFIG1);
    }
    GpioKeepsOthers(w, mask, ModeOf(val));
  }

  /** The result code of a write transaction acknowledged with `ack`. */
  function WriteStatus(ack: Byte): (status: Byte)
    ensures status == FAIL <==> ack != 0
    ensures status == SUCCESS <==> ack == 0
  {
    if ack != 0 then FAIL else SUCCESS
  }

  // ------------------------------------------------------------ register edits with branches

  /** POWERCFG edited to start a seek, step by step as the driver does it:
      wrap allowed, the direction bit, then SEEK. */
  method SeekWord(w: Word, seekDirection: Byte) returns (power: Word)
    ensures power == SeekStart(w, seekDirection)
  {
    if seekDirection == SEEK_DOWN {
      power := w | Bit(SKMODE);
      power := power & !Bit(SEEKUP);
      power := power | Bit(SEEK);
    } else {
      power := w | Bit(SKMODE);
      power := power | Bit(SEEKUP);
      power := power | Bit(SEEK);
    }
  }

  /** SYSCONFIG1 edited to put the pins of `gpio` in mode `val` as the
      driver does it: modes I and Low clear the pins, then set the pins of
      `gpio` that the mode's pattern keeps; an unknown mode edits nothing. */
  method GpioWord(w: Word, gpio: Word, val: int) returns (config: Word)
    ensures config == GpioApply(w, gpio, ModeOf(val))
  {
    if val == GPIO_Z {
      config := w & !gpio;
    } else if val == GPIO_I {
      config := (w & !gpio) | (gpio & GPIO_I_BITS);
    } else if val == GPIO_Low {
      config := (w & !gpio) | (gpio & GPIO_LOW_BITS);
    } else if val == GPIO_High {
      config := w | gpio;
    } else {
      config := w;
    }
  }

  // ------------------------------------------------------------ the driver

  class Si4703 {
    /** The pins the driver was built with; only the STC pin number is
        consulted (by the tune and seek waits). */
    const resetPin: int
    const sdioPin: int
    const sclkPin: int
    const stcIntPin: int

    /** The register shadow, indexed by register. */
    const regs: array<Word>

    var rx: seq<seq<Byte>>
    var acks: seq<Byte>
    var sent: seq<seq<Byte>>
    var millis: int

    /** The shadow holds what the device last reported: a write must follow
        a read. */
    ghost var shadowRead: bool

    predicate Valid()
      reads this
    {
      regs.Length == REGISTER_COUNT
    }

    /** A driver for the pins given, on a bus whose device will answer reads
        with `replies` and writes with `answers`, at time `now`. */
    constructor (resetPin: int, sdioPin: int, sclkPin: int, stcIntPin: int,
                 replies: seq<seq<Byte>>, answers: seq<Byte>, now: int)
      ensures Valid() && fresh(regs)
      ensures this.resetPin == resetPin && this.sdioPin == sdioPin
      ensures this.sclkPin == sclkPin && this.stcIntPin == stcIntPin
      ensures rx == replies && acks == answers && sent == [] && millis == now && !shadowRead
      ensures forall x :: 0 <= x < REGISTER_COUNT ==> regs[x] == 0
    {
      this.resetPin := resetPin;
      this.sdioPin := sdioPin;
      this.sclkPin := sclkPin;
      this.stcIntPin := stcIntPin;
      regs := new Word[REGISTER_COUNT](_ => 0);
      rx := replies;
      acks := answers;
      sent := [];
      millis := now;
      shadowRead := false;
    }

    /** Read all 32 bytes of one reply into the shadow: the first word is
        STATUSRSSI (0x0A), the index wraps from 0x0F to 0x00 and stops after
        BOOTCONFIG (0x09). */
    method ReadRegisters()
      requires Valid()
      modifies this, regs
      ensures Valid() && shadowRead
      ensures regs[..] == FirstRead(old(rx)) && rx == RestReplies(old(rx))
      ensures acks == old(acks) && sent == old(sent) && millis == old(millis)
    {
      var reply := NextReply(rx);
      rx := RestReplies(rx);
      var k := 0;
      var x := STATUSRSSI;
      while true
        invariant 0 <= k < REGISTER_COUNT
        invariant x == if k <= REGISTER_COUNT - STATUSRSSI then STATUSRSSI + k else k - (REGISTER_COUNT - STATUSRSSI)
        invariant forall j :: 0 <= j < k ==> regs[BurstIndex(j)] == WordAt(reply, j)
        invariant rx == RestReplies(old(rx)) && acks == old(acks) && sent == old(sent) && millis == old(millis)
        decreases REGISTER_COUNT - k
      {
        if x == 0x10 {
          x := 0;
        }
        regs[x] := WireByte(reply, 2 * k) << 8;
        regs[x] := regs[x] | WireByte(reply, 2 * k + 1);
        assert regs[x] == WordAt(reply, k);
        if x == BOOTCONFIG {
          break;
        }
        x := x + 1;
        k := k + 1;
      }
      forall y | 0 <= y < REGISTER_COUNT
        ensures regs[y] == Derotate(reply)[y]
      {
        assert BurstIndex(BurstPosition(y)) == y;
      }
      shadowRead := true;
    }

    /** Send POWERCFG..TEST1 (0x02..0x07), each high byte first, as one write
        transaction, and report whether the device acknowledged it. */
    method UpdateRegisters() returns (status: Byte)
      requires Valid() && shadowRead
      modifies this
      ensures Valid() && shadowRead
      ensures sent == old(sent) + [ControlBytes(regs[..])]
      ensures status == WriteStatus(NextAck(old(acks))) && acks == RestAcks(old(acks))
      ensures rx == old(rx) && millis == old(millis)
    {
      var bytes: seq<Byte> := [];
      var regSpot := POWERCFG;
      while regSpot < TEST2
        invariant POWERCFG <= regSpot <= TEST2
        invariant bytes == Encode(regs[POWERCFG..regSpot])
      {
        var highByte: Byte := (regs[regSpot] >> 8) as Byte;
        var lowByte: Byte := (regs[regSpot] & 0x00FF) as Byte;
        assert regs[POWERCFG..regSpot + 1][..regSpot - POWERCFG] == regs[POWERCFG..regSpot];
        bytes := bytes + [highByte, lowByte];
        regSpot := regSpot + 1;
      }
      sent := sent + [bytes];
      var ack := NextAck(acks);
      acks := RestAcks(acks);
      if ack != 0 {
        return FAIL;
      }
      return SUCCESS;
    }

    /** Wait `ms` milliseconds. */
    method Delay(ms: nat)
      modifies this
      ensures millis == old(millis) + ms
      ensures rx == old(rx) && acks == old(acks) && sent == old(sent) && shadowRead == old(shadowRead)
    {
      millis := millis + ms;
    }

    /** Read the registers until the device reports STC clear. */
    method AwaitStcClear()
      requires Valid() && StcClearAhead(rx)
      modifies this, regs
      ensures Valid() && shadowRead
      ensures regs[..] == Derotate(StcReply(old(rx))) && rx == AfterStc(old(rx))
      ensures acks == old(acks) && sent == old(sent) && millis == old(millis)
    {
      while true
        invariant Valid() && StcClearAhead(rx)
        invariant StcReply(rx) == StcReply(old(rx)) && AfterStc(rx) == AfterStc(old(rx))
        invariant acks == old(acks) && sent == old(sent) && millis == old(millis)
        decreases |rx|
      {
        ReadRegisters();
        if regs[STATUSRSSI] & Bit(STC) == 0 {
          break;
        }
      }
    }

    /** First half of a tune: read the registers, put `channel - 875` in
        CHANNEL's 9-bit field, set TUNE and write. */
    method StartTune(channel: int)
      requires Valid()
      modifies this, regs
      ensures Valid() && shadowRead
      ensures regs[..] == TuneWrite(FirstRead(old(rx)), channel)
      ensures sent == old(sent) + [ControlBytes(regs[..])]
      ensures rx == RestReplies(old(rx)) && acks == RestAcks(old(acks)) && millis == old(millis)
    {
      var newChannel := channel - CHANNEL_OFFSET;
      ReadRegisters();
      var tune := regs[CHANNEL];
      tune := tune & 0xFE00;
      tune := tune | Low16(newChannel);
      tune := tune | Bit(TUNE);
      regs[CHANNEL] := tune;
      var status := UpdateRegisters();
    }

    /** Second half of a tune: read the registers, clear TUNE and write. */
    method EndTune()
      requires Valid()
      modifies this, regs
      ensures Valid() && shadowRead
      ensures regs[..] == TuneDone(FirstRead(old(rx)))
      ensures sent == old(sent) + [ControlBytes(regs[..])]
      ensures rx == RestReplies(old(rx)) && acks == RestAcks(old(acks)) && millis == old(millis)
    {
      ReadRegisters();
      regs[CHANNEL] := regs[CHANNEL] & !Bit(TUNE);
      var status := UpdateRegisters();
    }

    /** Tune to `channel` (in 100 kHz steps, 875 being 87.5 MHz): write the
        channel field with TUNE set, then write TUNE cleared, then wait for
        the device to clear STC. */
    method SetChannel(channel: int)
      requires Valid() && stcIntPin != 1 && StcClearAhead(AfterTwo(rx))
      modifies this, regs
      ensures Valid() && shadowRead
      ensures sent == old(sent) + [ControlBytes(TuneWrite(FirstRead(old(rx)), channel)),
                                   ControlBytes(TuneDone(SecondRead(old(rx))))]
      ensures regs[..] == Derotate(StcReply(AfterTwo(old(rx)))) && rx == AfterStc(AfterTwo(old(rx)))
      ensures acks == RestAcks(RestAcks(old(acks))) && millis == old(millis)
    {
      StartTune(channel);
      // The wait on the STC pin compares the pin number with 1; it is not 1.
      EndTune();
      AwaitStcClear();
    }

    /** The channel the device reports: READCHAN's low 10 bits plus 875. */
    method GetChannel() returns (channel: int)
      requires Valid()
      modifies this, regs
      ensures Valid() && shadowRead
      ensures channel == ChannelOf(FirstRead(old(rx))[READCHAN])
      ensures regs[..] == FirstRead(old(rx)) && rx == RestReplies(old(rx))
      ensures acks == old(acks) && sent == old(sent) && millis == old(millis)
    {
      ReadRegisters();
      channel := (regs[READCHAN] & 0x03FF) as int;
      channel := channel + CHANNEL_OFFSET;
    }

    /** First half of a seek: read the registers, allow wrapping, set the
        direction, set SEEK and write. */
    method StartSeek(seekDirection: Byte)
      requires Valid()
      modifies this, regs
      ensures Valid() && shadowRead
      ensures regs[..] == SeekWrite(FirstRead(old(rx)), seekDirection)
      ensures sent == old(sent) + [ControlBytes(regs[..])]
      ensures rx == RestReplies(old(rx)) && acks == RestAcks(old(acks)) && millis == old(millis)
    {
      ReadRegisters();
      var power := SeekWord(regs[POWERCFG], seekDirection);
      regs[POWERCFG] := power;
      var status := UpdateRegisters();
    }

    /** Second half of a seek: read the registers, keep SFBL, clear SEEK and
        write. */
    method EndSeek() returns (valueSFBL: Word)
      requires Valid()
      modifies this, regs
      ensures Valid() && shadowRead
      ensures valueSFBL == FirstRead(old(rx))[STATUSRSSI] & Bit(SFBL)
      ensures regs[..] == SeekDone(FirstRead(old(rx)))
      ensures sent == old(sent) + [ControlBytes(regs[..])]
      ensures rx == RestReplies(old(rx)) && acks == RestAcks(old(acks)) && millis == old(millis)
    {
      ReadRegisters();
      valueSFBL := regs[STATUSRSSI] & Bit(SFBL);
      regs[POWERCFG] := regs[POWERCFG] & !Bit(SEEK);
      var status := UpdateRegisters();
    }

    /** Seek the next station in `seekDirection`, wrapping at the band edges:
        0 if the device reports SFBL (band limit or no station), else the
        channel it stopped on. */
    method Seek(seekDirection: Byte) returns (channel: int)
      requires Valid() && stcIntPin != 1 && StcClearAhead(AfterTwo(rx))
      modifies this, regs
      ensures Valid() && shadowRead
      ensures sent == old(sent) + [ControlBytes(SeekWrite(FirstRead(old(rx)), seekDirection)),
                                   ControlBytes(SeekDone(SecondRead(old(rx))))]
      ensures var sfbl := SecondRead(old(rx))[STATUSRSSI] & Bit(SFBL);
              var rest := AfterStc(AfterTwo(old(rx)));
              channel == SeekOutcome(sfbl, FirstRead(rest)[READCHAN]) &&
              (sfbl != 0 ==> regs[..] == Derotate(StcReply(AfterTwo(old(rx)))) && rx == rest) &&
              (sfbl == 0 ==> regs[..] == FirstRead(rest) && rx == RestReplies(rest))
      ensures acks == RestAcks(RestAcks(old(acks))) && millis == old(millis)
    {
      StartSeek(seekDirection);
      // The wait on the STC pin compares the pin number with 1; it is not 1.
      var valueSFBL := EndSeek();
      AwaitStcClear();
      if valueSFBL != 0 {
        return 0;
      }
      channel := GetChannel();
    }

    method SeekUp() returns (channel: int)
      requires Valid() && stcIntPin != 1 && StcClearAhead(AfterTwo(rx))
      modifies this, regs
      ensures Valid() && shadowRead
      ensures sent == old(sent) + [ControlBytes(SeekWrite(FirstRead(old(rx)), SEEK_UP)),
                                   ControlBytes(SeekDone(SecondRead(old(rx))))]
      ensures var sfbl := SecondRead(old(rx))[STATUSRSSI] & Bit(SFBL);
              var rest := AfterStc(AfterTwo(old(rx)));
              channel == SeekOutcome(sfbl, FirstRead(rest)[READCHAN]) &&
              (sfbl != 0 ==> regs[..] == Derotate(StcReply(AfterTwo(old(rx)))) && rx == rest) &&
              (sfbl == 0 ==> regs[..] == FirstRead(rest) && rx == RestReplies(rest))
      ensures acks == RestAcks(RestAcks(old(acks))) && millis == old(millis)
    {
      channel := Seek(SEEK_UP);
    }

    method SeekDown() returns (channel: int)
      requires Valid() && stcIntPin != 1 && StcClearAhead(AfterTwo(rx))
      modifies this, regs
      ensures Valid() && shadowRead
      ensures sent == old(sent) + [ControlBytes(SeekWrite(FirstRead(old(rx)), SEEK_DOWN)),
                                   ControlBytes(SeekDone(SecondRead(old(rx))))]
      ensures var sfbl := SecondRead(old(rx))[STATUSRSSI] & Bit(SFBL);
              var rest := AfterStc(AfterTwo(old(rx)));
              channel == SeekOutcome(sfbl, FirstRead(rest)[READCHAN]) &&
              (sfbl != 0 ==> regs[..] == Derotate(StcReply(AfterTwo(old(rx)))) && rx == rest) &&
              (sfbl == 0 ==> regs[..] == FirstRead(rest) && rx == RestReplies(rest))
      ensures acks == RestAcks(RestAcks(old(acks))) && millis == old(millis)
    {
      channel := Seek(SEEK_DOWN);
    }

    /** Set the volume, clamped to 0..15, in SYSCONFIG2's low four bits. */
    method SetVolume(volume: int)
      requires Valid()
      modifies this, regs
      ensures Valid() && shadowRead
      ensures regs[..] == VolumeWrite(FirstRead(old(rx)), volume)
      ensures sent == old(sent) + [ControlBytes(regs[..])]
      ensures rx == RestReplies(old(rx)) && acks == RestAcks(old(acks)) && millis == old(millis)
    {
      ReadRegisters();
      var v := volume;
      if v < 0 {
        v := 0;
      }
      if v > 15 {
        v := 15;
      }
      var config := regs[SYSCONFIG2];
      config := config & 0xFFF0;
      config := config | v as Word;
      regs[SYSCONFIG2] := config;
      var status := UpdateRegisters();
    }

    /** Put the pins of `gpio` (GPIO1, GPIO2 or GPIO3) in mode `val`; an
        unknown mode leaves the register as read, which is still written. */
    method WriteGPIO(gpio: Word, val: int)
      requires Valid()
      modifies this, regs
      ensures Valid() && shadowRead
      ensures regs[..] == GpioWrite(FirstRead(old(rx)), gpio, val)
      ensures sent == old(sent) + [ControlBytes(regs[..])]
      ensures rx == RestReplies(old(rx)) && acks == RestAcks(old(acks)) && millis == old(millis)
    {
      ReadRegisters();
      var config := GpioWord(regs[SYSCONFIG1], gpio, val);
      regs[SYSCONFIG1] := config;
      var status := UpdateRegisters();
    }

    /** Start the crystal oscillator: read the registers, write 0x8100 to
        TEST1, OR 0x2000 into SYSCONFIG1 and write. */
    method StartOscillator()
      requires Valid()
      modifies this, regs
      ensures Valid() && shadowRead
      ensures regs[..] == OscillatorWrite(FirstRead(old(rx)))
      ensures sent == old(sent) + [ControlBytes(regs[..])]
      ensures rx == RestReplies(old(rx)) && acks == RestAcks(old(acks)) && millis == old(millis)
    {
      ReadRegisters();
      regs[TEST1] := 0x8100;
      regs[SYSCONFIG1] := regs[SYSCONFIG1] | 0x2000;
      var status := UpdateRegisters();
    }

    /** Enable the receiver: read the registers, write 0x4001 to POWERCFG,
        turn on RDS and 50 us de-emphasis, select 100 kHz spacing and
        volume 1, and write. */
    method PowerUp()
      requires Valid()
      modifies this, regs
      ensures Valid() && shadowRead
      ensures regs[..] == PowerUpWrite(FirstRead(old(rx)))
      ensures sent == old(sent) + [ControlBytes(regs[..])]
      ensures rx == RestReplies(old(rx)) && acks == RestAcks(old(acks)) && millis == old(millis)
    {
      ReadRegisters();
      regs[POWERCFG] := 0x4001;
      var config1 := regs[SYSCONFIG1];
      config1 := config1 | Bit(RDS);
      config1 := config1 | Bit(DE);
      regs[SYSCONFIG1] := config1;
      var config2 := regs[SYSCONFIG2];
      config2 := config2 | Bit(SPACE0);
      config2 := config2 & 0xFFF0;
      config2 := config2 | 0x0001;
      regs[SYSCONFIG2] := config2;
      var status := UpdateRegisters();
    }

    /** Bring the device up: after reset, start the crystal oscillator and
        let it settle 500 ms, then enable the receiver and wait 110 ms for
        it to power up. */
    method Init()
      requires Valid()
      modifies this, regs
      ensures Valid() && shadowRead
      ensures sent == old(sent) + [ControlBytes(OscillatorWrite(FirstRead(old(rx)))),
                                   ControlBytes(PowerUpWrite(SecondRead(old(rx))))]
      ensures regs[..] == PowerUpWrite(SecondRead(old(rx)))
      ensures rx == AfterTwo(old(rx)) && acks == RestAcks(RestAcks(old(acks)))
      ensures millis == old(millis) + 612
    {
      // Pin directions, the reset pulse and bus start-up happen here on the hardware.
      Delay(1);
      Delay(1);
      StartOscillator();
      Delay(500);
      PowerUp();
      Delay(110);
    }

    method PowerOn()
      requires Valid()
      modifies this, regs
      ensures Valid() && shadowRead
      ensures sent == old(sent) + [ControlBytes(OscillatorWrite(FirstRead(old(rx)))),
                                   ControlBytes(PowerUpWrite(SecondRead(old(rx))))]
      ensures regs[..] == PowerUpWrite(SecondRead(old(rx)))
      ensures rx == AfterTwo(old(rx)) && acks == RestAcks(RestAcks(old(acks)))
      ensures millis == old(millis) + 612
    {
      Init();
    }

    /** The collection part of the polling loop's state. */
    ghost function Received(completed: array<bool>, count: int, buffer: array<Byte>): Collection
      reads completed, buffer
    {
      Collection(completed[..], count, buffer[..])
    }

    /** The polling loop's state as the driver holds it. */
    ghost function Progress(completed: array<bool>, count: int, buffer: array<Byte>): Outcome
      reads this, regs, completed, buffer
    {
      Outcome(Received(completed, count, buffer), regs[..], rx, millis)
    }

    /** A group has been read: if its pair is still missing and block B is
        below 500, mark the pair, count it and store block D's two
        characters in the pair's place. */
    method StoreGroup(completed: array<bool>, completedCount: int, buffer: array<Byte>) returns (count: int)
      requires Valid() && WellFormed(Received(completed, completedCount, buffer)) && GroupReady(regs[..])
      modifies completed, buffer
      ensures Received(completed, count, buffer) == Poll(old(Received(completed, completedCount, buffer)), regs[..])
    {
      count := completedCount;
      var b := regs[RDSB];
      var index := (b & 0x0003) as int;
      if !completed[index] && b < BLOCK_B_LIMIT {
        completed[index] := true;
        count := count + 1;
        buffer[index * 2] := ((regs[RDSD] & 0xFF00) >> 8) as Byte;
        buffer[index * 2 + 1] := (regs[RDSD] & 0x00FF) as Byte;
      }
    }

    /** One pass of the polling loop: read the registers; take a group if
        they hold one; then wait 40 ms after a group, 30 ms otherwise. */
    method PollOnce(completed: array<bool>, completedCount: int, buffer: array<Byte>) returns (count: int)
      requires Valid() && completed.Length == PAIR_COUNT
      requires Sound(Progress(completed, completedCount, buffer))
      modifies this, regs, completed, buffer
      ensures Valid()
      ensures Progress(completed, count, buffer) == Step(old(Progress(completed, completedCount, buffer)))
      ensures acks == old(acks) && sent == old(sent)
    {
      count := completedCount;
      ReadRegisters();
      if regs[STATUSRSSI] & Bit(RDSR) != 0 {
        count := StoreGroup(completed, count, buffer);
        Delay(READY_DELAY);
      } else {
        Delay(IDLE_DELAY);
      }
    }

    /** Collect the eight characters of the RDS program-service name into
        `buffer`, polling until all four pairs are in or `timeout` ms have
        passed; then terminate the message, or empty it on time-out. */
    method ReadRDS(buffer: array<Byte>, timeout: int)
      requires Valid() && buffer.Length > MESSAGE_LENGTH
      modifies this, regs, buffer
      ensures Valid()
      ensures var endTime := old(millis) + timeout;
              var r := Collect(Outcome(Start(old(buffer[..])), old(regs[..]), old(rx), old(millis)), endTime);
              buffer[..] == Finish(r, endTime) && regs[..] == r.shadow && rx == r.replies && millis == r.now
      ensures acks == old(acks) && sent == old(sent)
    {
      var endTime := millis + timeout;
      var completed := new bool[PAIR_COUNT](_ => false);
      var completedCount := 0;
      ghost var start := Progress(completed, completedCount, buffer);
      assert start == Outcome(Start(buffer[..]), regs[..], rx, millis) by {
        assert completed[..] == [false, false, false, false];
      }
      while completedCount < PAIR_COUNT && millis < endTime
        invariant Valid() && fresh(completed) && completed.Length == PAIR_COUNT
        invariant Sound(Progress(completed, completedCount, buffer))
        invariant Collect(Progress(completed, completedCount, buffer), endTime) == Collect(start, endTime)
        invariant acks == old(acks) && sent == old(sent)
        decreases endTime - millis
      {
        completedCount := PollOnce(completed, completedCount, buffer);
      }
      if millis >= endTime {
        buffer[0] := 0;
        return;
      }
      buffer[MESSAGE_LENGTH] := 0;
    }
  }
}
