/** One mailbox channel between two cores: a slot of five words and two status
    bits that are cleared by writing ones to them.

    One writer, one reader and the receiver's interrupt handler access the
    registers one at a time, in any interleaving. */
module Mailbox {
  import opened Bits

  const EIO: int := 5
  const EINVAL: int := 22
  const CTRL_INT: nat := 0x8000_0000 // bit 31 of the control word
  const DATA_WORDS: nat := 4

  type Data = d: seq<nat> | |d| == DATA_WORDS witness [0, 0, 0, 0]

  datatype Msg = Msg(ctrl: nat, data: Data)

  datatype Mode = Interrupt | Polling

  /** `intSts` and `sts` are bits 1 and 0 of the status register. */
  datatype Registers = Registers(ctrl: nat, data: Data, intSts: bool, sts: bool)

  /** Between calls, or past the status check with `next` data words written. */
  datatype Writer = NotWriting | Writing(msg: Msg, next: nat)

  /** Between calls, or past the status check with these words read, control word
      first. */
  datatype Reader = NotReading | Reading(words: seq<nat>, intCleared: bool)

  /** Outside the handler, or in the callback. */
  datatype Isr = NotServing | Serving

  /** A message as the reader gets it: the control word without its top bit. */
  function Received(msg: Msg): Msg {
    msg.(ctrl := msg.ctrl % CTRL_INT)
  }

  function AllReceived(msgs: seq<Msg>): (r: seq<Msg>)
    ensures |r| == |msgs|
  {
    seq(|msgs|, i requires 0 <= i < |msgs| => Received(msgs[i]))
  }

  /** `accepted` and `delivered` are the messages written and read by calls that
      returned 0, `notified` the number of callbacks made. */
  datatype State = State(mode: Mode, regs: Registers, writer: Writer, reader: Reader, isr: Isr,
                         accepted: seq<Msg>, delivered: seq<Msg>, notified: nat) {

    /** The words of the slot in the order they are read. */
    function Slot(): seq<nat> {
      [regs.ctrl] + regs.data
    }

    /** Delivered so far and still in the slot: everything accepted, in order. */
    ghost predicate ExactlyOnce() {
      && (regs.sts ==> accepted != [])
      && delivered == AllReceived(if regs.sts then accepted[..|accepted| - 1] else accepted)
      && (regs.sts ==>
            var last := accepted[|accepted| - 1];
            regs.data == last.data && regs.ctrl == last.ctrl % CTRL_INT + CTRL_INT)
    }

    ghost predicate WriterAlone() {
      writer.Writing? ==>
        && !regs.sts && !regs.intSts && reader.NotReading? && isr.NotServing?
        && writer.next <= DATA_WORDS && regs.data[..writer.next] == writer.msg.data[..writer.next]
    }

    ghost predicate ReaderUntorn() {
      reader.Reading? ==>
        && regs.sts && reader.words <= Slot()
        && (reader.intCleared ==> mode.Polling? && !regs.intSts && |reader.words| == 1 + DATA_WORDS)
    }

    /** Every message accepted is or was notified, and none twice. */
    ghost predicate NotifiedOnce() {
      match mode
      case Interrupt =>
        && (isr.Serving? ==> regs.intSts)
        && |accepted| == notified + (if regs.intSts && isr.NotServing? then 1 else 0)
      case Polling =>
        && isr.NotServing? && notified == 0
        && (regs.intSts ==> regs.sts)
        && (regs.sts && !regs.intSts ==> reader.Reading? && reader.intCleared)
    }

    ghost predicate Valid() {
      ExactlyOnce() && WriterAlone() && ReaderUntorn() && NotifiedOnce()
    }

    /** The status check of a write. */
    predicate Free() {
      !regs.sts && !regs.intSts
    }
  }

  function Start(mode: Mode, ctrl: nat, data: Data): (s: State) {
    State(mode, Registers(ctrl, data, false, false), NotWriting, NotReading, NotServing, [], [], 0)
  }

  // ---------------------------------------------------------------------------
  // Register accesses
  // ---------------------------------------------------------------------------

  datatype Step = WriteCheck(msg: Msg) | WriteData | WriteCtrl
                | ReadCheck | ReadWord | ReadClearInt | ReadClearSts
                | IsrCheck | IsrClear

  /** Where the three parties are decides which accesses can come next. */
  predicate Enabled(s: State, step: Step) {
    match step
    case WriteCheck(_) => s.writer.NotWriting?
    case WriteData => s.writer.Writing? && s.writer.next < DATA_WORDS
    case WriteCtrl => s.writer.Writing? && s.writer.next == DATA_WORDS
    case ReadCheck => s.reader.NotReading?
    case ReadWord => s.reader.Reading? && |s.reader.words| <= DATA_WORDS
    case ReadClearInt => s.mode.Polling? && s.reader.Reading? && |s.reader.words| == 1 + DATA_WORDS && !s.reader.intCleared
    case ReadClearSts =>
      s.reader.Reading? && |s.reader.words| == 1 + DATA_WORDS && (s.mode.Polling? ==> s.reader.intCleared)
    case IsrCheck => s.mode.Interrupt? && s.isr.NotServing?
    case IsrClear => s.isr.Serving?
  }

  function Next(s: State, step: Step): State
    requires Enabled(s, step)
  {
    match step
    case WriteCheck(msg) =>
      if s.Free() then s.(writer := Writing(msg, 0)) else s
    case WriteData =>
      var w := s.writer;
      s.(regs := s.regs.(data := s.regs.data[w.next := w.msg.data[w.next]]), writer := w.(next := w.next + 1))
    case WriteCtrl =>
      s.(regs := s.regs.(ctrl := s.writer.msg.ctrl % CTRL_INT + CTRL_INT, intSts := true, sts := true),
         writer := NotWriting, accepted := s.accepted + [s.writer.msg])
    case ReadCheck =>
      if s.regs.sts then s.(reader := Reading([], false)) else s
    case ReadWord =>
      s.(reader := s.reader.(words := s.reader.words + [s.Slot()[|s.reader.words|]]))
    case ReadClearInt =>
      s.(regs := s.regs.(intSts := false), reader := s.reader.(intCleared := true))
    case ReadClearSts =>
      s.(regs := s.regs.(sts := false), reader := NotReading, delivered := s.delivered + [MessageOf(s.reader.words)])
    case IsrCheck =>
      if s.regs.intSts then s.(isr := Serving, notified := s.notified + 1) else s
    case IsrClear =>
      s.(regs := s.regs.(intSts := false), isr := NotServing)
  }

  /** The message read: the control word without its top bit, and the data. */
  function MessageOf(words: seq<nat>): Msg
    requires |words| == 1 + DATA_WORDS
  {
    Msg(words[0] % CTRL_INT, words[1..])
  }

  // ---------------------------------------------------------------------------
  // Every access keeps the invariant
  // ---------------------------------------------------------------------------

  lemma StartIsValid(mode: Mode, ctrl: nat, data: Data)
    ensures Start(mode, ctrl, data).Valid()
  {
  }

  lemma WriteDataKeeps(s: State)
    requires s.Valid() && Enabled(s, WriteData)
    ensures Next(s, WriteData).Valid()
  {
    var t := Next(s, WriteData);
    assert t.regs.data[..t.writer.next] == t.writer.msg.data[..t.writer.next];
  }

  lemma WriteCtrlKeeps(s: State)
    requires s.Valid() && Enabled(s, WriteCtrl)
    ensures Next(s, WriteCtrl).Valid()
  {
    var t := Next(s, WriteCtrl);
    assert t.accepted[..|t.accepted| - 1] == s.accepted;
    assert t.regs.data[..DATA_WORDS] == t.regs.data && s.writer.msg.data[..DATA_WORDS] == s.writer.msg.data;
  }

  lemma ReadWordKeeps(s: State)
    requires s.Valid() && Enabled(s, ReadWord)
    ensures Next(s, ReadWord).Valid()
  {
    var n := |s.reader.words|;
    assert s.Slot()[..n + 1] == s.Slot()[..n] + [s.Slot()[n]];
  }

  lemma ReadClearStsKeeps(s: State)
    requires s.Valid() && Enabled(s, ReadClearSts)
    ensures Next(s, ReadClearSts).Valid()
    ensures s.accepted != []
    ensures MessageOf(s.reader.words) == Received(s.accepted[|s.accepted| - 1])
  {
    var last := s.accepted[|s.accepted| - 1];
    assert s.reader.words == s.Slot() && s.Slot()[1..] == s.regs.data;
    assert s.accepted == s.accepted[..|s.accepted| - 1] + [last];
    assert AllReceived(s.accepted) == AllReceived(s.accepted[..|s.accepted| - 1]) + [Received(last)];
  }

  lemma StepKeeps(s: State, step: Step)
    requires s.Valid() && Enabled(s, step)
    ensures Next(s, step).Valid()
  {
    match step
    case WriteData => WriteDataKeeps(s);
    case WriteCtrl => WriteCtrlKeeps(s);
    case ReadWord => ReadWordKeeps(s);
    case ReadClearSts => ReadClearStsKeeps(s);
    case _ =>
  }

  // ---------------------------------------------------------------------------
  // Whole runs
  // ---------------------------------------------------------------------------

  ghost predicate Follows(s: State, t: State) {
    exists step: Step :: Enabled(s, step) && t == Next(s, step)
  }

  /** Any interleaving of accesses by the three parties. */
  ghost predicate Run(run: seq<State>, mode: Mode, ctrl: nat, data: Data) {
    run != [] && run[0] == Start(mode, ctrl, data) && forall i | 0 <= i < |run| - 1 :: Follows(run[i], run[i + 1])
  }

  lemma {:induction false} RunIsValid(run: seq<State>, mode: Mode, ctrl: nat, data: Data, n: nat)
    requires Run(run, mode, ctrl, data) && n < |run|
    ensures run[n].Valid()
  {
    hide State.Valid, Next;
    if n == 0 {
      StartIsValid(mode, ctrl, data);
    } else {
      RunIsValid(run, mode, ctrl, data, n - 1);
      assert Follows(run[n - 1], run[n]);
      var step :| Enabled(run[n - 1], step) && run[n] == Next(run[n - 1], step);
      StepKeeps(run[n - 1], step);
    }
  }

  /** A message as it is read, and as it was written: only the top bit of the control
      word, which the hardware keeps for itself, is not the writer's. */
  ghost predicate AsWritten(read: Msg, written: Msg) {
    read.data == written.data && read.ctrl == written.ctrl % 0x8000_0000
  }

  lemma DeliveredAsWritten(s: State, i: nat)
    requires s.Valid() && i < |s.delivered|
    ensures i < |s.accepted| && AsWritten(s.delivered[i], s.accepted[i])
  {
    assert s.delivered[i] == Received(s.accepted[i]);
  }

  /** At every instant of every run the messages read are, in order and untorn, the
      messages accepted, but for at most one that is still in the slot. */
  lemma DeliveredExactlyOnce(run: seq<State>, mode: Mode, ctrl: nat, data: Data, n: nat)
    requires Run(run, mode, ctrl, data) && n < |run|
    ensures var s := run[n];
      && |s.delivered| <= |s.accepted| <= |s.delivered| + 1
      && forall i | 0 <= i < |s.delivered| ::
           s.delivered[i].data == s.accepted[i].data && s.delivered[i].ctrl == s.accepted[i].ctrl % 0x8000_0000
  {
    RunIsValid(run, mode, ctrl, data, n);
    forall i: nat | i < |run[n].delivered|
      ensures AsWritten(run[n].delivered[i], run[n].accepted[i])
    {
      DeliveredAsWritten(run[n], i);
    }
  }

  /** In interrupt mode the handler clears the notification it has served: no
      message has been accepted since the callback was made. */
  lemma ClearsItsOwn(s: State)
    requires s.Valid() && Enabled(s, IsrClear)
    ensures s.notified == |s.accepted|
    ensures Next(s, IsrClear).notified == |Next(s, IsrClear).accepted|
  {
  }

  /** A write is accepted exactly when everything accepted before has been read
      and, in interrupt mode, its callback is over. */
  lemma FreeWhenConsumed(s: State)
    requires s.Valid() && s.writer.NotWriting?
    ensures s.Free() <==>
      |s.delivered| == |s.accepted| && (s.mode.Interrupt? ==> s.notified == |s.accepted| && s.isr.NotServing?)
  {
  }

  /** A message that waits in interrupt mode has been, or is going to be, notified. */
  lemma NotificationNotLost(s: State)
    requires s.Valid() && s.mode.Interrupt? && s.notified < |s.accepted|
    ensures s.regs.intSts && Enabled(s, IsrCheck) && Next(s, IsrCheck).notified == |s.accepted|
  {
  }

  datatype Party = TheWriter | TheReader | TheIsr

  function PartyOf(step: Step): Party {
    match step
    case WriteCheck(_) | WriteData | WriteCtrl => TheWriter
    case ReadCheck | ReadWord | ReadClearInt | ReadClearSts => TheReader
    case IsrCheck | IsrClear => TheIsr
  }

  /** Accesses the receiving side still needs before the slot is free. */
  function ReceiverWork(s: State): int {
    (if !s.regs.sts then 0
     else if s.reader.NotReading? then 8
     else 7 - |s.reader.words| - (if s.reader.intCleared then 1 else 0))
    + (if !s.regs.intSts || s.mode.Polling? then 0 else if s.isr.NotServing? then 2 else 1)
  }

  /** The access that brings the receiving side on. */
  function ReceiverStep(s: State): (step: Step)
    ensures PartyOf(step) != TheWriter
  {
    if !s.regs.sts then if s.isr.Serving? then IsrClear else IsrCheck
    else if s.reader.NotReading? then ReadCheck
    else if |s.reader.words| <= DATA_WORDS then ReadWord
    else if s.mode.Polling? && !s.reader.intCleared then ReadClearInt
    else ReadClearSts
  }

  /** A slot that is not free is freed by the reader and the handler: there is
      always an access that does some of the work left. */
  lemma NeverWedged(s: State)
    requires s.Valid() && s.writer.NotWriting? && !s.Free()
    ensures Enabled(s, ReceiverStep(s))
    ensures 0 <= ReceiverWork(Next(s, ReceiverStep(s))) < ReceiverWork(s)
  {
  }

  // No access of theirs adds to it, or lets a writer in.
  lemma NoWorkAdded(s: State, step: Step)
    requires s.Valid() && Enabled(s, step) && PartyOf(step) != TheWriter
    ensures ReceiverWork(Next(s, step)) <= ReceiverWork(s) && Next(s, step).writer == s.writer
  {
  }

  lemma WorkBounds(s: State)
    requires s.Valid() && s.writer.NotWriting?
    ensures 0 <= ReceiverWork(s) <= 10
    ensures s.Free() <==> ReceiverWork(s) == 0
  {
  }

  /** Accesses of the receiving side, in any order. */
  predicate CanDo(s: State, steps: seq<Step>)
    decreases |steps|
  {
    steps == [] || (Enabled(s, steps[0]) && PartyOf(steps[0]) != TheWriter && CanDo(Next(s, steps[0]), steps[1..]))
  }

  function DoAll(s: State, steps: seq<Step>): State
    requires CanDo(s, steps)
    decreases |steps|
  {
    if steps == [] then s else DoAll(Next(s, steps[0]), steps[1..])
  }

  /** How many of them bring it on. */
  function Useful(s: State, steps: seq<Step>): nat
    requires CanDo(s, steps)
    decreases |steps|
  {
    if steps == [] then 0
    else (if steps[0] == ReceiverStep(s) then 1 else 0) + Useful(Next(s, steps[0]), steps[1..])
  }

  lemma {:induction false} WorkGoesDown(s: State, steps: seq<Step>)
    requires s.Valid() && s.writer.NotWriting? && CanDo(s, steps)
    ensures var t := DoAll(s, steps);
      t.Valid() && t.writer.NotWriting? && (t.Free() || ReceiverWork(t) + Useful(s, steps) <= ReceiverWork(s))
    decreases |steps|
  {
    hide State.Valid, Next, ReceiverWork, ReceiverStep, Enabled;
    if steps == [] {
    } else {
      var next := Next(s, steps[0]);
      StepKeeps(s, steps[0]);
      NoWorkAdded(s, steps[0]);
      WorkGoesDown(next, steps[1..]);
      if s.Free() {
        StaysFree(s, steps);
      } else {
        NeverWedged(s);
      }
    }
  }

  // With no writer at work a free slot stays free.
  lemma {:induction false} StaysFree(s: State, steps: seq<Step>)
    requires s.Valid() && s.writer.NotWriting? && CanDo(s, steps) && s.Free()
    ensures DoAll(s, steps).Free()
    decreases |steps|
  {
    hide State.Valid, Next, ReceiverWork, State.Free;
    if steps == [] {
    } else {
      var next := Next(s, steps[0]);
      StepKeeps(s, steps[0]);
      NoWorkAdded(s, steps[0]);
      WorkBounds(s);
      WorkBounds(next);
      StaysFree(next, steps[1..]);
    }
  }

  /** Such a run exists from every state in which no writer is at work: the receiving
      side can free the slot in no more accesses than there is work left. */
  lemma {:induction false} CanBeFreed(s: State) returns (steps: seq<Step>)
    requires s.Valid() && s.writer.NotWriting?
    ensures CanDo(s, steps) && Useful(s, steps) == |steps| <= ReceiverWork(s) <= 10
    ensures DoAll(s, steps).Free()
    decreases ReceiverWork(s)
  {
    hide State.Valid, Next, ReceiverWork, ReceiverStep, Enabled, State.Free;
    WorkBounds(s);
    if s.Free() {
      steps := [];
    } else {
      var step := ReceiverStep(s);
      NeverWedged(s);
      StepKeeps(s, step);
      NoWorkAdded(s, step);
      var rest := CanBeFreed(Next(s, step));
      steps := [step] + rest;
      assert steps[1..] == rest;
    }
  }

  /** In any run of the receiving side in which ten accesses bring it on, whatever
      else it does in between, the slot becomes free. */
  lemma FreedInTen(s: State, steps: seq<Step>)
    requires s.Valid() && s.writer.NotWriting? && CanDo(s, steps) && Useful(s, steps) >= 10
    ensures DoAll(s, steps).Free()
  {
    hide State.Valid, Next, ReceiverWork, Enabled;
    WorkGoesDown(s, steps);
    WorkBounds(s);
    WorkBounds(DoAll(s, steps));
  }

  // ---------------------------------------------------------------------------
  // The driver's calls
  // ---------------------------------------------------------------------------

  /** What the others leave alone while one party is inside a call. */
  ghost predicate Undisturbed(who: Party, s: State, t: State) {
    && t.mode == s.mode
    && match who
       case TheWriter => t.writer == s.writer && t.accepted == s.accepted && (s.Free() ==> t.Free())
       case TheReader => t.reader == s.reader && t.delivered == s.delivered && (s.regs.sts ==> t.regs.sts)
       case TheIsr => t.isr == s.isr && t.notified == s.notified && (s.regs.intSts && s.mode.Interrupt? ==> t.regs.intSts)
  }

  lemma OthersDoNotDisturb(who: Party, s: State, step: Step)
    requires s.Valid() && Enabled(s, step) && PartyOf(step) != who
    ensures Undisturbed(who, s, Next(s, step))
  {
  }

  // ---------------------------------------------------------------------------
  // Which channels the handler looks at
  // ---------------------------------------------------------------------------

  const CHANNELS: nat := 8

  /** The interrupt bit of channel i in the register of all channels. */
  predicate Pending(challSts: Half, i: nat)
    requires i < CHANNELS
  {
    challSts[15 - (2 * i + 1)]
  }

  predicate Masked(mask: Byte, i: nat)
    requires i < CHANNELS
  {
    mask[7 - i]
  }

  lemma ShiftOn(sts: Half, i: nat)
    requires i < CHANNELS
    ensures ShiftRight(ShiftRight(sts, 2 * i), 2) == ShiftRight(sts, 2 * (i + 1))
    ensures ShiftRight(sts, 2 * i)[14] == Pending(sts, i)
  {
    assert ShiftRight(sts, 2 * i)[..14] == Zeros(2 * i) + sts[..14 - 2 * i];
    assert Zeros(2) + (Zeros(2 * i) + sts[..14 - 2 * i]) == Zeros(2 * (i + 1)) + sts[..14 - 2 * i];
  }

  lemma ShiftedOut(sts: Half)
    ensures ShiftRight(sts, 0) == sts
    ensures ShiftRight(sts, 2 * CHANNELS) == Zeros(16)
  {
  }

  lemma NonePending(sts: Half, i: nat, c: nat)
    requires i <= c < CHANNELS && ShiftRight(sts, 2 * i) == Zeros(16)
    ensures !Pending(sts, c)
  {
    assert ShiftRight(sts, 2 * i)[14 - 2 * (c - i)] == sts[14 - 2 * c];
  }

  ghost predicate Serviced(channels: seq<nat>, challSts: Half, mask: Byte, n: nat)
    requires n <= CHANNELS
  {
    && (forall c: nat :: c in channels <==> c < n && challSts[14 - 2 * c] && !mask[7 - c])
    && (forall i, j | 0 <= i < j < |channels| :: channels[i] < channels[j])
  }

  lemma ServiceOne(channels: seq<nat>, challSts: Half, mask: Byte, n: nat)
    requires n < CHANNELS && Serviced(channels, challSts, mask, n)
    ensures Serviced(if Pending(challSts, n) && !Masked(mask, n) then channels + [n] else channels, challSts, mask, n + 1)
  {
    forall i | 0 <= i < |channels|
      ensures channels[i] < n
    {
      assert channels[i] in channels;
    }
  }

  /** The scan of the interrupt handler: it looks at the channels whose interrupt is
      pending and not masked, each once, in ascending order. */
  method Scan(challSts: Half, mask: Byte) returns (channels: seq<nat>)
    ensures Serviced(channels, challSts, mask, CHANNELS)
  {
    channels := [];
    var i := 0;
    var sts := challSts;
    ShiftedOut(challSts);
    hide Serviced, Pending, ShiftRight;
    assert Serviced(channels, challSts, mask, i) by {
      NothingServiced(challSts, mask);
    }
    while sts != Zeros(16)
      invariant i <= CHANNELS && sts == ShiftRight(challSts, 2 * i)
      invariant Serviced(channels, challSts, mask, i)
      decreases CHANNELS - i
    {
      ShiftOn(challSts, i);
      ServiceOne(channels, challSts, mask, i);
      if sts[14] && !Masked(mask, i) {
        channels := channels + [i];
      }
      i, sts := i + 1, ShiftRight(sts, 2);
    }
    NothingMore(channels, challSts, mask, i);
  }

  lemma NothingServiced(challSts: Half, mask: Byte)
    ensures Serviced([], challSts, mask, 0)
  {
  }

  lemma NothingMore(channels: seq<nat>, challSts: Half, mask: Byte, i: nat)
    requires i <= CHANNELS && Serviced(channels, challSts, mask, i) && ShiftRight(challSts, 2 * i) == Zeros(16)
    ensures Serviced(channels, challSts, mask, CHANNELS)
  {
    forall c | i <= c < CHANNELS
      ensures !challSts[14 - 2 * c]
    {
      NonePending(challSts, i, c);
    }
  }

  class Channel {
    var chan: State

    constructor (mode: Mode, ctrl: nat, data: Data)
      ensures chan == Start(mode, ctrl, data)
    {
      chan := Start(mode, ctrl, data);
    }

    method Access(step: Step)
      requires chan.Valid() && Enabled(chan, step)
      modifies this
      ensures chan.Valid() && chan == Next(old(chan), step)
    {
      StepKeeps(chan, step);
      chan := Next(chan, step);
    }

    /** The other parties make any number of accesses. */
    method OthersRun(who: Party)
      requires chan.Valid()
      modifies this
      ensures chan.Valid() && Undisturbed(who, old(chan), chan)
    {
      hide State.Valid;
      var steps: nat := *;
      while steps > 0
        invariant chan.Valid() && Undisturbed(who, old(chan), chan)
      {
        var step: Step := *;
        if Enabled(chan, step) && PartyOf(step) != who {
          OthersDoNotDisturb(who, chan, step);
          Access(step);
        }
        steps := steps - 1;
      }
    }

    /** A write: refused while the previous message has not been consumed. */
    method Write(msg: Msg) returns (rc: int)
      requires chan.Valid() && chan.writer.NotWriting?
      modifies this
      ensures chan.Valid() && chan.writer.NotWriting? && chan.mode == old(chan).mode
      ensures rc == 0 || rc == -EIO
      ensures chan.accepted == old(chan).accepted + (if rc == 0 then [msg] else [])
      ensures old(chan).Free() ==> rc == 0
    {
      hide State.Valid;
      OthersRun(TheWriter);
      var free := chan.Free();
      Access(WriteCheck(msg));
      if !free {
        return -EIO;
      }
      var i := 0;
      while i < DATA_WORDS
        invariant i <= DATA_WORDS && chan.Valid() && chan.writer == Writing(msg, i)
        invariant chan.accepted == old(chan).accepted && chan.mode == old(chan).mode
      {
        OthersRun(TheWriter);
        Access(WriteData);
        i := i + 1;
      }
      OthersRun(TheWriter);
      Access(WriteCtrl);
      return 0;
    }

    /** A read; `active` says whether this core is the channel's destination. */
    method Read(active: bool) returns (rc: int, msg: Msg)
      requires chan.Valid() && chan.reader.NotReading?
      modifies this
      ensures chan.Valid() && chan.reader.NotReading? && chan.mode == old(chan).mode
      ensures rc == 0 || rc == if active then -EIO else -EINVAL
      ensures chan.delivered == old(chan).delivered + (if rc == 0 then [msg] else [])
      ensures old(chan).regs.sts && active ==> rc == 0
      ensures rc == 0 ==> active
      ensures rc == 0 ==>
        var n := |chan.delivered|;
        && 0 < n <= |chan.accepted|
        && msg.data == chan.accepted[n - 1].data && msg.ctrl == chan.accepted[n - 1].ctrl % 0x8000_0000
    {
      hide State.Valid;
      msg := Msg(0, [0, 0, 0, 0]);
      if !active {
        return -EINVAL, msg;
      }
      OthersRun(TheReader);
      var pending := chan.regs.sts;
      Access(ReadCheck);
      if !pending {
        return -EIO, msg;
      }
      var words: seq<nat> := [];
      while |words| <= DATA_WORDS
        invariant |words| <= 1 + DATA_WORDS && chan.Valid() && chan.reader == Reading(words, false)
        invariant chan.delivered == old(chan).delivered && chan.mode == old(chan).mode
      {
        OthersRun(TheReader);
        words := words + [chan.Slot()[|words|]];
        Access(ReadWord);
      }
      if chan.mode.Polling? {
        OthersRun(TheReader);
        Access(ReadClearInt);
      }
      OthersRun(TheReader);
      Access(ReadClearSts);
      DeliveredAsWritten(chan, |chan.delivered| - 1);
      return 0, MessageOf(words);
    }

    /** The interrupt handler on this channel: one callback for one notification. */
    method Serve() returns (called: bool)
      requires chan.Valid() && chan.mode.Interrupt? && chan.isr.NotServing?
      modifies this
      ensures chan.Valid() && chan.mode.Interrupt? && chan.isr.NotServing?
      ensures chan.notified == old(chan).notified + (if called then 1 else 0)
      ensures old(chan).regs.intSts ==> called
    {
      hide State.Valid;
      OthersRun(TheIsr);
      called := chan.regs.intSts;
      Access(IsrCheck);
      if called {
        OthersRun(TheIsr); // the callback, in which the reader may run
        Access(IsrClear);
      }
    }
  }
}
