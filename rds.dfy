/** Collecting the eight characters of an RDS program-service name: each
    group whose block B is below 500 carries two characters in block D, and
    the two low bits of block B say which of the four character pairs they
    are. The driver polls until all four pairs are in or the time is up. */
module Rds {
  import opened Registers
  import opened Transfer

  /** Number of character pairs in a message. */
  const PAIR_COUNT: nat := 4

  /** Characters of a complete message, before its terminator. */
  const MESSAGE_LENGTH: nat := 2 * PAIR_COUNT

  /** Groups with block B at or above this value are ignored. */
  const BLOCK_B_LIMIT: Word := 500

  /** Milliseconds waited after a poll that found a group, and after one
      that did not. */
  const READY_DELAY: int := 40
  const IDLE_DELAY: int := 30

  /** The character pair block B selects: its two low bits. */
  function PairIndex(b: Word): (i: nat)
    ensures i < PAIR_COUNT
  {
    (b & 0x0003) as int
  }

  /** RDSR: the device holds a new RDS group. */
  predicate GroupReady(regs: seq<Word>)
    requires |regs| == REGISTER_COUNT
  {
    regs[STATUSRSSI] & Bit(RDSR) != 0
  }

  /** The two characters block D carries: high byte first. */
  function FirstChar(d: Word): Byte
  {
    ((d & 0xFF00) >> 8) as Byte
  }

  function SecondChar(d: Word): Byte
  {
    (d & 0x00FF) as Byte
  }

  /** The characters are the two bytes of block D as the bus sends them. */
  lemma FirstCharIsHighByte(d: Word)
    ensures FirstChar(d) == Hi(d)
  {
  }

  lemma SecondCharIsLowByte(d: Word)
    ensures SecondChar(d) == Lo(d)
  {
  }

  /** Number of `true` entries. */
  function CountTrue(s: seq<bool>): (n: nat)
    ensures n <= |s|
  {
    if s == [] then 0 else CountTrue(s[..|s| - 1]) + (if s[|s| - 1] then 1 else 0)
  }

  /** Nothing counts in an all-`false` sequence. */
  lemma {:induction false} CountTrueNone(s: seq<bool>)
    requires forall i :: 0 <= i < |s| ==> !s[i]
    ensures CountTrue(s) == 0
  {
    if s != [] {
      CountTrueNone(s[..|s| - 1]);
    }
  }

  /** Marking a pair that was not yet marked adds one to the count. */
  lemma {:induction false} CountTrueMark(s: seq<bool>, i: nat)
    requires i < |s| && !s[i]
    ensures CountTrue(s[i := true]) == CountTrue(s) + 1
  {
    var t := s[i := true];
    if i < |s| - 1 {
      assert t[..|t| - 1] == s[..|s| - 1][i := true];
      CountTrueMark(s[..|s| - 1], i);
    } else {
      assert t[..|t| - 1] == s[..|s| - 1];
    }
  }

  /** A sequence is all `true` exactly when every entry counts. */
  lemma {:induction false} CountTrueAll(s: seq<bool>)
    ensures CountTrue(s) == |s| <==> forall i :: 0 <= i < |s| ==> s[i]
  {
    if s != [] {
      CountTrueAll(s[..|s| - 1]);
      assert forall i :: 0 <= i < |s| - 1 ==> s[..|s| - 1][i] == s[i];
    }
  }

  /** The collection so far: which pairs are in, how many, and the caller's
      buffer with the pairs received written at 2i and 2i+1. */
  datatype Collection = Collection(completed: seq<bool>, count: int, buffer: seq<Byte>)

  /** `count` counts the completed pairs; the buffer has room for the
      message and its terminator. */
  predicate WellFormed(c: Collection)
  {
    |c.completed| == PAIR_COUNT && |c.buffer| > MESSAGE_LENGTH && c.count == CountTrue(c.completed)
  }

  /** No pair received yet, the caller's buffer as given. */
  function Start(buffer: seq<Byte>): (c: Collection)
    requires |buffer| > MESSAGE_LENGTH
    ensures WellFormed(c) && c.count == 0
  {
    CountTrueNone([false, false, false, false]);
    Collection([false, false, false, false], 0, buffer)
  }

  /** A polled register file is taken when it holds a group, its pair is
      still missing and block B is below 500. */
  predicate Accepts(c: Collection, regs: seq<Word>)
    requires WellFormed(c) && |regs| == REGISTER_COUNT
  {
    GroupReady(regs) && !c.completed[PairIndex(regs[RDSB])] && regs[RDSB] < BLOCK_B_LIMIT
  }

  /** The collection after one poll that read the register file `regs`. */
  function Poll(c: Collection, regs: seq<Word>): (d: Collection)
    requires WellFormed(c) && |regs| == REGISTER_COUNT
    ensures WellFormed(d)
  {
    if Accepts(c, regs) then
      var i := PairIndex(regs[RDSB]);
      CountTrueMark(c.completed, i);
      Collection(c.completed[i := true], c.count + 1,
                 c.buffer[2 * i := FirstChar(regs[RDSD])][2 * i + 1 := SecondChar(regs[RDSD])])
    else
      c
  }

  /** A poll that takes a group marks its pair, counts it and stores block
      D's two characters in the pair's place; nothing else changes. */
  lemma PollTakes(c: Collection, regs: seq<Word>)
    requires WellFormed(c) && |regs| == REGISTER_COUNT && Accepts(c, regs)
    ensures var i := PairIndex(regs[RDSB]);
            var d := Poll(c, regs);
            d.completed == c.completed[i := true] && d.count == c.count + 1 &&
            d.buffer[2 * i] == Hi(regs[RDSD]) && d.buffer[2 * i + 1] == Lo(regs[RDSD]) &&
            forall j :: 0 <= j < |c.buffer| && j != 2 * i && j != 2 * i + 1 ==> d.buffer[j] == c.buffer[j]
  {
    FirstCharIsHighByte(regs[RDSD]);
    SecondCharIsLowByte(regs[RDSD]);
  }

  /** A poll that does not take a group changes nothing; so the count grows
      exactly when the group is taken. */
  lemma PollSkips(c: Collection, regs: seq<Word>)
    requires WellFormed(c) && |regs| == REGISTER_COUNT
    ensures !Accepts(c, regs) <==> Poll(c, regs) == c
    ensures Accepts(c, regs) <==> Poll(c, regs).count == c.count + 1
  {
  }

  /** `d` extends `c`: every pair already received stays received with the
      same two characters, and the terminator position is untouched. */
  predicate Extends(d: Collection, c: Collection)
    requires WellFormed(c) && WellFormed(d)
  {
    |d.buffer| == |c.buffer| &&
    (forall i :: 0 <= i < PAIR_COUNT && c.completed[i] ==>
       d.completed[i] && d.buffer[2 * i] == c.buffer[2 * i] && d.buffer[2 * i + 1] == c.buffer[2 * i + 1]) &&
    (forall j :: MESSAGE_LENGTH <= j < |c.buffer| ==> d.buffer[j] == c.buffer[j])
  }

  lemma PollExtends(c: Collection, regs: seq<Word>)
    requires WellFormed(c) && |regs| == REGISTER_COUNT
    ensures Extends(Poll(c, regs), c)
  {
  }

  /** The state of the polling loop: the collection, the register file
      last read, the replies not yet consumed and the clock. */
  datatype Outcome = Outcome(c: Collection, shadow: seq<Word>, replies: seq<seq<Byte>>, now: int)

  predicate Sound(o: Outcome)
  {
    WellFormed(o.c) && |o.shadow| == REGISTER_COUNT
  }

  /** Milliseconds one poll takes: the wait that follows it. */
  function PollDelay(regs: seq<Word>): (ms: int)
    requires |regs| == REGISTER_COUNT
    ensures ms >= IDLE_DELAY > 0
    ensures ms == READY_DELAY <==> GroupReady(regs)
    ensures !GroupReady(regs) ==> ms == IDLE_DELAY
  {
    if GroupReady(regs) then READY_DELAY else IDLE_DELAY
  }

  /** One pass of the polling loop: read the registers from the next reply,
      poll them and wait. */
  function Step(o: Outcome): (p: Outcome)
    requires Sound(o)
    ensures Sound(p) && p.now > o.now
  {
    var regs := Derotate(NextReply(o.replies));
    Outcome(Poll(o.c, regs), regs, RestReplies(o.replies), o.now + PollDelay(regs))
  }

  /** The loop condition fails: all four pairs are in or the time is up. */
  predicate Done(o: Outcome, endTime: int)
  {
    o.c.count >= PAIR_COUNT || o.now >= endTime
  }

  /** The polling loop, run from `o` until it is done. */
  function Collect(o: Outcome, endTime: int): (r: Outcome)
    requires Sound(o)
    ensures Sound(r)
    decreases endTime - o.now
  {
    if Done(o, endTime) then o else Collect(Step(o), endTime)
  }

  /** The caller's buffer on return: a message cut short by the deadline
      starts with a terminator; otherwise the terminator follows the eighth
      character. */
  function Finish(o: Outcome, endTime: int): (buffer: seq<Byte>)
    requires WellFormed(o.c)
    ensures |buffer| == |o.c.buffer|
  {
    if o.now >= endTime then o.c.buffer[0 := 0] else o.c.buffer[MESSAGE_LENGTH := 0]
  }

  /** The loop only adds pairs: whatever was received is kept. */
  lemma {:induction false} CollectExtends(o: Outcome, endTime: int)
    requires Sound(o)
    ensures Extends(Collect(o, endTime).c, o.c)
    decreases endTime - o.now
  {
    if !Done(o, endTime) {
      var regs := Derotate(NextReply(o.replies));
      PollExtends(o.c, regs);
      CollectExtends(Step(o), endTime);
    }
  }

  /** The loop stops only with all four pairs or at the deadline, and never
      runs the clock back. */
  lemma {:induction false} CollectStops(o: Outcome, endTime: int)
    requires Sound(o)
    ensures var r := Collect(o, endTime);
            (r.c.count == PAIR_COUNT || r.now >= endTime) && r.now >= o.now
    decreases endTime - o.now
  {
    if !Done(o, endTime) {
      CollectStops(Step(o), endTime);
    }
  }

  /** A message that beats the deadline is complete: all four pairs are in
      and the terminator follows them. */
  lemma CompleteBeforeDeadline(o: Outcome, endTime: int)
    requires Sound(o) && Collect(o, endTime).now < endTime
    ensures var r := Collect(o, endTime);
            (forall i :: 0 <= i < PAIR_COUNT ==> r.c.completed[i]) &&
            Finish(r, endTime)[MESSAGE_LENGTH] == 0 &&
            Finish(r, endTime)[..MESSAGE_LENGTH] == r.c.buffer[..MESSAGE_LENGTH]
  {
    var r := Collect(o, endTime);
    CollectStops(o, endTime);
    CountTrueAll(r.c.completed);
  }

  /** A message cut short by the deadline reads as empty. */
  lemma DeadlineEmptiesMessage(o: Outcome, endTime: int)
    requires Sound(o) && Collect(o, endTime).now >= endTime
    ensures Finish(Collect(o, endTime), endTime)[0] == 0
  {
  }

  /** `n` passes of the loop body. */
  function Steps(o: Outcome, n: nat): (p: Outcome)
    requires Sound(o)
    ensures Sound(p)
    decreases n
  {
    if n == 0 then o else Steps(Step(o), n - 1)
  }

  /** The loop condition holds before each of the first `n` passes. */
  predicate Runs(o: Outcome, n: nat, endTime: int)
    requires Sound(o)
    decreases n
  {
    n == 0 || (!Done(o, endTime) && Runs(Step(o), n - 1, endTime))
  }

  /** A loop that keeps running for `n` passes ends where the loop started
      after those passes ends. */
  lemma {:induction false} CollectSkips(o: Outcome, n: nat, endTime: int)
    requires Sound(o) && Runs(o, n, endTime)
    ensures Collect(o, endTime) == Collect(Steps(o, n), endTime)
    decreases n
  {
    if n > 0 {
      CollectSkips(Step(o), n - 1, endTime);
    }
  }

  /** Groups that will all be taken: each holds a group with block B below
      500, and their pairs are distinct and still missing from `c`. */
  predicate AllTaken(c: Collection, snaps: seq<seq<Word>>)
    requires WellFormed(c)
  {
    (forall k :: 0 <= k < |snaps| ==>
       |snaps[k]| == REGISTER_COUNT && GroupReady(snaps[k]) && snaps[k][RDSB] < BLOCK_B_LIMIT &&
       !c.completed[PairIndex(snaps[k][RDSB])]) &&
    (forall k, l :: 0 <= k < l < |snaps| ==> PairIndex(snaps[k][RDSB]) != PairIndex(snaps[l][RDSB]))
  }

  /** Polling each of `snaps` in turn. */
  function PollAll(c: Collection, snaps: seq<seq<Word>>): (d: Collection)
    requires WellFormed(c)
    requires forall k :: 0 <= k < |snaps| ==> |snaps[k]| == REGISTER_COUNT
    ensures WellFormed(d)
    decreases |snaps|
  {
    if snaps == [] then c else PollAll(Poll(c, snaps[0]), snaps[1..])
  }

  /** Taking the first of a run of groups leaves the rest to be taken. */
  lemma TakeFirst(c: Collection, snaps: seq<seq<Word>>)
    requires WellFormed(c) && snaps != [] && AllTaken(c, snaps)
    ensures Accepts(c, snaps[0])
    ensures AllTaken(Poll(c, snaps[0]), snaps[1..])
  {
    var d := Poll(c, snaps[0]);
    PollTakes(c, snaps[0]);
    forall k | 0 <= k < |snaps| - 1
      ensures !d.completed[PairIndex(snaps[1..][k][RDSB])]
    {
      assert PairIndex(snaps[0][RDSB]) != PairIndex(snaps[k + 1][RDSB]);
    }
  }

  /** The replies start with the bursts a device sends when its registers
      hold each of `snaps` in turn. */
  predicate Delivers(replies: seq<seq<Byte>>, snaps: seq<seq<Word>>)
  {
    |snaps| <= |replies| &&
    forall k :: 0 <= k < |snaps| ==> |snaps[k]| == REGISTER_COUNT && replies[k] == DeviceBurst(snaps[k])
  }

  /** A pass that reads the burst of a register file polls exactly that
      register file. */
  lemma StepReads(o: Outcome, snap: seq<Word>)
    requires Sound(o) && |snap| == REGISTER_COUNT
    requires o.replies != [] && o.replies[0] == DeviceBurst(snap)
    ensures Step(o) == Outcome(Poll(o.c, snap), snap, o.replies[1..], o.now + PollDelay(snap))
  {
    ReadRoundTrip(snap);
  }

  /** Milliseconds taken by `n` polls that each find a group. */
  function ReadyTime(n: nat): (ms: int)
    ensures ms == READY_DELAY * n
  {
    if n == 0 then 0 else READY_DELAY + ReadyTime(n - 1)
  }

  /** The last register file read, if any was. */
  function LastRead(shadow: seq<Word>, snaps: seq<seq<Word>>): (regs: seq<Word>)
    requires |shadow| == REGISTER_COUNT && forall k :: 0 <= k < |snaps| ==> |snaps[k]| == REGISTER_COUNT
    ensures |regs| == REGISTER_COUNT
  {
    if snaps == [] then shadow else snaps[|snaps| - 1]
  }

  /** Dropping the first reply and the first register file keeps the rest
      delivered. */
  lemma DeliversRest(replies: seq<seq<Byte>>, snaps: seq<seq<Word>>)
    requires Delivers(replies, snaps) && snaps != []
    ensures |snaps[0]| == REGISTER_COUNT && replies != [] && replies[0] == DeviceBurst(snaps[0])
    ensures Delivers(replies[1..], snaps[1..])
  {
    forall k | 0 <= k < |snaps| - 1
      ensures replies[1..][k] == DeviceBurst(snaps[1..][k])
    {
      assert replies[1..][k] == replies[k + 1];
    }
  }

  lemma LastReadRest(shadow: seq<Word>, snaps: seq<seq<Word>>)
    requires |shadow| == REGISTER_COUNT && snaps != []
    requires forall k :: 0 <= k < |snaps| ==> |snaps[k]| == REGISTER_COUNT
    ensures LastRead(snaps[0], snaps[1..]) == LastRead(shadow, snaps)
  {
  }

  /** Reading a run of groups that will all be taken, one per pass, polls
      each of them in turn, consumes one reply each and takes 40 ms each. */
  lemma {:induction false} StepsTake(o: Outcome, snaps: seq<seq<Word>>)
    requires Sound(o) && AllTaken(o.c, snaps) && Delivers(o.replies, snaps)
    ensures Steps(o, |snaps|)
            == Outcome(PollAll(o.c, snaps), LastRead(o.shadow, snaps), o.replies[|snaps|..], o.now + ReadyTime(|snaps|))
    decreases |snaps|
  {
    if snaps != [] {
      TakeFirst(o.c, snaps);
      DeliversRest(o.replies, snaps);
      StepReads(o, snaps[0]);
      StepsTake(Step(o), snaps[1..]);
      LastReadRest(o.shadow, snaps);
      assert o.replies[1..][|snaps| - 1..] == o.replies[|snaps|..];
    } else {
      assert o.replies[0..] == o.replies;
    }
  }

  /** Taking a run of groups counts each of them. */
  lemma {:induction false} TakeAllCounts(c: Collection, snaps: seq<seq<Word>>)
    requires WellFormed(c) && AllTaken(c, snaps)
    ensures PollAll(c, snaps).count == c.count + |snaps|
    decreases |snaps|
  {
    if snaps != [] {
      TakeFirst(c, snaps);
      PollTakes(c, snaps[0]);
      TakeAllCounts(Poll(c, snaps[0]), snaps[1..]);
    }
  }

  /** While four pairs are not yet in and the deadline allows, the loop
      keeps running through a run of groups that will all be taken. */
  lemma {:induction false} RunsThrough(o: Outcome, snaps: seq<seq<Word>>, endTime: int)
    requires Sound(o) && AllTaken(o.c, snaps) && Delivers(o.replies, snaps)
    requires o.c.count + |snaps| <= PAIR_COUNT && o.now + ReadyTime(|snaps|) <= endTime
    ensures Runs(o, |snaps|, endTime)
    decreases |snaps|
  {
    if snaps != [] {
      TakeFirst(o.c, snaps);
      PollSkips(o.c, snaps[0]);
      DeliversRest(o.replies, snaps);
      StepReads(o, snaps[0]);
      RunsThrough(Step(o), snaps[1..], endTime);
    }
  }

  /** After taking a run of groups, each group's two characters sit in its
      pair's place. */
  lemma {:induction false} TakeAllStores(c: Collection, snaps: seq<seq<Word>>)
    requires WellFormed(c) && AllTaken(c, snaps)
    ensures forall k :: 0 <= k < |snaps| ==>
              PollAll(c, snaps).buffer[2 * PairIndex(snaps[k][RDSB])] == Hi(snaps[k][RDSD]) &&
              PollAll(c, snaps).buffer[2 * PairIndex(snaps[k][RDSB]) + 1] == Lo(snaps[k][RDSD])
    decreases |snaps|
  {
    if snaps != [] {
      var d := Poll(c, snaps[0]);
      TakeFirst(c, snaps);
      PollTakes(c, snaps[0]);
      TakeAllStores(d, snaps[1..]);
      TakeAllExtends(d, snaps[1..]);
      forall k | 1 <= k < |snaps|
        ensures PollAll(c, snaps).buffer[2 * PairIndex(snaps[k][RDSB])] == Hi(snaps[k][RDSD])
        ensures PollAll(c, snaps).buffer[2 * PairIndex(snaps[k][RDSB]) + 1] == Lo(snaps[k][RDSD])
      {
        assert snaps[k] == snaps[1..][k - 1];
      }
    }
  }

  lemma {:induction false} TakeAllExtends(c: Collection, snaps: seq<seq<Word>>)
    requires WellFormed(c)
    requires forall k :: 0 <= k < |snaps| ==> |snaps[k]| == REGISTER_COUNT
    ensures Extends(PollAll(c, snaps), c)
    decreases |snaps|
  {
    if snaps != [] {
      PollExtends(c, snaps[0]);
      TakeAllExtends(Poll(c, snaps[0]), snaps[1..]);
    }
  }

  /** The four pairs of a message, sent as four groups with distinct pair
      indices and block B below 500 and read on four consecutive polls that
      all end before the deadline, give the whole message, terminated. */
  lemma FourGroupsMessage(buffer: seq<Byte>, shadow: seq<Word>, snaps: seq<seq<Word>>,
                          replies: seq<seq<Byte>>, now: int, endTime: int)
    requires |buffer| > MESSAGE_LENGTH && |shadow| == REGISTER_COUNT && |snaps| == PAIR_COUNT
    requires AllTaken(Start(buffer), snaps) && Delivers(replies, snaps)
    requires now + ReadyTime(PAIR_COUNT) < endTime
    ensures var message := Finish(Collect(Outcome(Start(buffer), shadow, replies, now), endTime), endTime);
            message[MESSAGE_LENGTH] == 0 &&
            forall k :: 0 <= k < PAIR_COUNT ==>
              message[2 * PairIndex(snaps[k][RDSB])] == Hi(snaps[k][RDSD]) &&
              message[2 * PairIndex(snaps[k][RDSB]) + 1] == Lo(snaps[k][RDSD])
  {
    var o := Outcome(Start(buffer), shadow, replies, now);
    RunsThrough(o, snaps, endTime);
    CollectSkips(o, PAIR_COUNT, endTime);
    StepsTake(o, snaps);
    TakeAllCounts(Start(buffer), snaps);
    TakeAllStores(Start(buffer), snaps);
    var r := Steps(o, PAIR_COUNT);
    assert Done(r, endTime);
  }
}
