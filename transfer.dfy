/** The byte layout of the two bus transactions: a read returns every
    register, starting at STATUSRSSI (0x0A) and wrapping after 0x0F, each
    register high byte first; a write carries POWERCFG..TEST1 (0x02..0x07),
    high byte first, with no register address. */
module Transfer {
  import opened Registers

  /** Result code of a write transaction when no device acknowledges its
      address; used when the scripted acknowledgements run out. */
  const ACK_NO_DEVICE: Byte := 2

  /** The reply the bus gives to the next read request, and the replies left
      after it: once the script is exhausted the bus delivers no bytes. */
  function NextReply(replies: seq<seq<Byte>>): seq<Byte>
  {
    if replies == [] then [] else replies[0]
  }

  function RestReplies(replies: seq<seq<Byte>>): (rest: seq<seq<Byte>>)
    ensures replies != [] ==> |rest| == |replies| - 1
  {
    if replies == [] then [] else replies[1..]
  }

  /** The acknowledgement of the next write transaction. */
  function NextAck(acks: seq<Byte>): Byte
  {
    if acks == [] then ACK_NO_DEVICE else acks[0]
  }

  function RestAcks(acks: seq<Byte>): seq<Byte>
  {
    if acks == [] then [] else acks[1..]
  }

  /** The k-th byte read from a reply, widened into a register: a read past
      the end of the reply yields -1, which is all ones once stored in 16 bits. */
  function WireByte(reply: seq<Byte>, k: nat): (w: Word)
    ensures k < |reply| ==> w < 0x100
    ensures k >= |reply| ==> w == 0xFFFF
  {
    if k < |reply| then reply[k] as Word else 0xFFFF
  }

  /** The k-th word of a read burst: byte 2k is the high byte, 2k+1 the low. */
  function WordAt(reply: seq<Byte>, k: nat): Word
  {
    (WireByte(reply, 2 * k) << 8) | WireByte(reply, 2 * k + 1)
  }

  /** The register the device sends as the k-th word of a read burst. */
  function BurstIndex(k: nat): (x: nat)
    requires k < REGISTER_COUNT
    ensures x < REGISTER_COUNT && x == (STATUSRSSI + k) % REGISTER_COUNT
  {
    if k < REGISTER_COUNT - STATUSRSSI then STATUSRSSI + k else k - (REGISTER_COUNT - STATUSRSSI)
  }

  /** The position of register x in a read burst. */
  function BurstPosition(x: nat): (k: nat)
    requires x < REGISTER_COUNT
    ensures k < REGISTER_COUNT && BurstIndex(k) == x
    ensures k == (x + REGISTER_COUNT - STATUSRSSI) % REGISTER_COUNT
  {
    if x >= STATUSRSSI then x - STATUSRSSI else x + (REGISTER_COUNT - STATUSRSSI)
  }

  /** The register file a read reply denotes, indexed by register. */
  function Derotate(reply: seq<Byte>): (regs: seq<Word>)
    ensures |regs| == REGISTER_COUNT
  {
    seq(REGISTER_COUNT, x requires 0 <= x < REGISTER_COUNT => WordAt(reply, BurstPosition(x)))
  }

  /** Register x comes from bytes 2k and 2k+1 of the reply, high byte first,
      where k = (x - 0x0A) mod 16. */
  lemma DerotateAt(reply: seq<Byte>, x: nat)
    requires x < REGISTER_COUNT
    ensures var k := (x + REGISTER_COUNT - STATUSRSSI) % REGISTER_COUNT;
            Derotate(reply)[x] == (WireByte(reply, 2 * k) << 8) | WireByte(reply, 2 * k + 1)
  {
  }

  function Hi(w: Word): Byte
  {
    (w >> 8) as Byte
  }

  function Lo(w: Word): Byte
  {
    (w & 0x00FF) as Byte
  }

  /** Big-endian serialisation of a run of words. */
  function Encode(ws: seq<Word>): (bytes: seq<Byte>)
    ensures |bytes| == 2 * |ws|
  {
    if ws == [] then [] else Encode(ws[..|ws| - 1]) + [Hi(ws[|ws| - 1]), Lo(ws[|ws| - 1])]
  }

  /** Each word of a run lands at bytes 2k and 2k+1 of its serialisation. */
  lemma {:induction false} EncodeAt(ws: seq<Word>, k: nat)
    requires k < |ws|
    ensures Encode(ws)[2 * k] == Hi(ws[k]) && Encode(ws)[2 * k + 1] == Lo(ws[k])
  {
    if k < |ws| - 1 {
      EncodeAt(ws[..|ws| - 1], k);
    }
  }

  /** Splitting a word into its two bytes and joining them back is the identity. */
  lemma JoinSplit(w: Word)
    ensures (Hi(w) as Word << 8) | Lo(w) as Word == w
  {
  }

  /** Joining two bytes and splitting the word gives the two bytes back. */
  lemma SplitJoin(h: Byte, l: Byte)
    ensures Hi((h as Word << 8) | l as Word) == h
    ensures Lo((h as Word << 8) | l as Word) == l
  {
  }

  /** Reading back a serialised run recovers every word of it. */
  lemma DecodeEncode(ws: seq<Word>, k: nat)
    requires k < |ws|
    ensures WordAt(Encode(ws), k) == ws[k]
  {
    EncodeAt(ws, k);
    JoinSplit(ws[k]);
  }

  /** The 32 bytes the device sends for a read when its registers hold `regs`:
      0x0A..0x0F first, then 0x00..0x09. */
  function DeviceBurst(regs: seq<Word>): (reply: seq<Byte>)
    requires |regs| == REGISTER_COUNT
    ensures |reply| == READ_LENGTH
  {
    Encode(regs[STATUSRSSI..] + regs[..STATUSRSSI])
  }

  /** A read of a device whose registers hold `regs` reconstructs exactly `regs`. */
  lemma ReadRoundTrip(regs: seq<Word>)
    requires |regs| == REGISTER_COUNT
    ensures Derotate(DeviceBurst(regs)) == regs
  {
    var burst := regs[STATUSRSSI..] + regs[..STATUSRSSI];
    forall x | 0 <= x < REGISTER_COUNT
      ensures Derotate(DeviceBurst(regs))[x] == regs[x]
    {
      var k := BurstPosition(x);
      assert burst[k] == regs[x];
      DecodeEncode(burst, k);
    }
  }

  /** Both bytes of the k-th word of a full reply survive decoding and
      re-encoding. */
  lemma BurstWordRoundTrip(reply: seq<Byte>, k: nat)
    requires |reply| == READ_LENGTH && k < REGISTER_COUNT
    ensures DeviceBurst(Derotate(reply))[2 * k] == reply[2 * k]
    ensures DeviceBurst(Derotate(reply))[2 * k + 1] == reply[2 * k + 1]
  {
    var regs := Derotate(reply);
    var burst := regs[STATUSRSSI..] + regs[..STATUSRSSI];
    assert burst[k] == regs[BurstIndex(k)] == WordAt(reply, k);
    EncodeAt(burst, k);
    SplitJoin(reply[2 * k], reply[2 * k + 1]);
  }

  /** Conversely, any full 32-byte reply is the burst of the registers it
      denotes: the read neither drops nor reorders a byte. */
  lemma BurstRoundTrip(reply: seq<Byte>)
    requires |reply| == READ_LENGTH
    ensures DeviceBurst(Derotate(reply)) == reply
  {
    forall j | 0 <= j < READ_LENGTH
      ensures DeviceBurst(Derotate(reply))[j] == reply[j]
    {
      BurstWordRoundTrip(reply, j / 2);
    }
  }

  /** The 12 bytes of a write transaction: POWERCFG..TEST1 in ascending
      order, high byte then low byte. */
  function ControlBytes(regs: seq<Word>): (bytes: seq<Byte>)
    requires |regs| == REGISTER_COUNT
    ensures |bytes| == 12
  {
    Encode(regs[POWERCFG..TEST1 + 1])
  }

  /** Where each control register lands in a write transaction, and that the
      device can read every one of them back. */
  lemma ControlBytesLayout(regs: seq<Word>)
    requires |regs| == REGISTER_COUNT
    ensures forall k :: 0 <= k < 6 ==>
              ControlBytes(regs)[2 * k] == Hi(regs[POWERCFG + k]) &&
              ControlBytes(regs)[2 * k + 1] == Lo(regs[POWERCFG + k]) &&
              WordAt(ControlBytes(regs), k) == regs[POWERCFG + k]
  {
    forall k | 0 <= k < 6
      ensures ControlBytes(regs)[2 * k] == Hi(regs[POWERCFG + k])
      ensures ControlBytes(regs)[2 * k + 1] == Lo(regs[POWERCFG + k])
      ensures WordAt(ControlBytes(regs), k) == regs[POWERCFG + k]
    {
      EncodeAt(regs[POWERCFG..TEST1 + 1], k);
      DecodeEncode(regs[POWERCFG..TEST1 + 1], k);
    }
  }

  /** A write transaction does not depend on registers 0x00, 0x01 or 0x08..0x0F. */
  lemma ControlBytesIgnoreOthers(a: seq<Word>, b: seq<Word>)
    requires |a| == |b| == REGISTER_COUNT
    requires forall x :: POWERCFG <= x <= TEST1 ==> a[x] == b[x]
    ensures ControlBytes(a) == ControlBytes(b)
  {
    assert a[POWERCFG..TEST1 + 1] == b[POWERCFG..TEST1 + 1];
  }
}
