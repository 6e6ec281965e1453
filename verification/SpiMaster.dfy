/** Interrupt-driven SPI master transfer in full-duplex mode.

    As in the I2C model, the controller takes any number of steps between two
    register accesses of the driver.  Every frame sent brings one frame back,
    chosen by the slave.  A frame stands for the one, two or four bytes that the
    buffer pointers step by. */
module SpiMaster {
  import opened Bits

  const DEPTH: nat := 8 // of both FIFOs
  const TX_THRESHOLD: nat := 5
  const RX_THRESHOLD: nat := 5
  const UINT32: nat := 0x1_0000_0000
  const UINT16: nat := 0x1_0000
  const EINVAL: int := 22

  type Frame = Bits

  datatype Shift = Idle | Busy(frame: Frame)

  /** Thresholds, interrupt mask and enable. */
  datatype Registers = Registers(txTl: nat, rxTl: nat, txUnmasked: bool, rxUnmasked: bool, enabled: bool)

  datatype Hardware = Hardware(txFifo: seq<Frame>, shift: Shift, rxFifo: seq<Frame>, txOver: bool, rxOver: bool)

  /** Frames that have left the TX FIFO, and all frames that have come in. */
  datatype History = History(started: nat, received: seq<Frame>)

  datatype State = State(tx: seq<Frame>, txCounter: nat, rxCounter: nat, callbacks: seq<nat>, regs: Registers,
                         hw: Hardware, history: History, taken: seq<Frame>) {

    function Len(): nat {
      |tx|
    }

    function InShift(): nat {
      if hw.shift.Busy? then 1 else 0
    }

    /** Frames go out in the order of the buffer. */
    ghost predicate SentInOrder() {
      && history.started <= txCounter <= Len()
      && hw.txFifo == tx[history.started..txCounter]
      && (hw.shift.Busy? ==> history.started > 0 && hw.shift.frame == tx[history.started - 1])
    }

    /** One frame comes in for every frame out, first to the RX FIFO and then to the
        buffer. */
    ghost predicate ReceivedInOrder() {
      && |history.received| == history.started - InShift()
      && rxCounter <= |history.received|
      && hw.rxFifo == history.received[rxCounter..]
      && taken == history.received[..rxCounter]
    }

    /** Frames on their way fit the RX FIFO. */
    ghost predicate Bounded() {
      && |hw.txFifo| + InShift() + |hw.rxFifo| <= DEPTH
      && !hw.txOver && !hw.rxOver
    }

    ghost predicate Running() {
      SentInOrder() && ReceivedInOrder() && Bounded()
    }

    /** RX full will be raised before the frames run out. */
    predicate WakesUp() {
      rxCounter < Len() ==> regs.rxTl < Len() - rxCounter && regs.rxTl < DEPTH - 1
    }

    ghost predicate Underway() {
      callbacks == [] && regs.enabled && regs.txUnmasked && regs.rxUnmasked && (Len() > 0 ==> rxCounter < Len())
    }

    ghost predicate Concluded() {
      && callbacks == [Len()] && txCounter == rxCounter == Len()
      && !regs.enabled && !regs.txUnmasked && !regs.rxUnmasked
    }

    ghost predicate Valid() {
      Running() && WakesUp() && (Underway() || Concluded())
    }

    predicate HardwareIdle() {
      hw.shift.Idle? && (hw.txFifo == [] || !regs.enabled)
    }

    ghost predicate Stalled() {
      Underway() && HardwareIdle()
    }

    /** Work left: writing, starting, completing and reading each frame, and the
        report. */
    function Work(): int {
      (Len() - txCounter) + 2 * (Len() - history.started) + InShift() + (Len() - rxCounter)
      + (if callbacks != [] then 0 else 1)
    }
  }

  // The two status bits the handler looks at.
  predicate RxFull(regs: Registers, hw: Hardware) {
    regs.enabled && |hw.rxFifo| > regs.rxTl && regs.rxUnmasked
  }

  predicate TxEmpty(regs: Registers, hw: Hardware) {
    regs.enabled && |hw.txFifo| <= regs.txTl && regs.txUnmasked
  }

  // ---------------------------------------------------------------------------
  // Atomic steps
  // ---------------------------------------------------------------------------

  /** One step of the controller; `frame` is what the slave sends. */
  function HardwareStepped(hw: Hardware, enabled: bool, frame: Frame): Hardware {
    match hw.shift
    case Busy(_) =>
      if |hw.rxFifo| < DEPTH then hw.(shift := Idle, rxFifo := hw.rxFifo + [frame])
      else hw.(shift := Idle, rxOver := true)
    case Idle =>
      if enabled && hw.txFifo != [] then hw.(shift := Busy(hw.txFifo[0]), txFifo := hw.txFifo[1..]) else hw
  }

  function HistoryStepped(s: State, frame: Frame): History {
    if s.hw.shift.Busy? then s.history.(received := s.history.received + [frame])
    else if s.regs.enabled && s.hw.txFifo != [] then s.history.(started := s.history.started + 1)
    else s.history
  }

  function HardwareNext(s: State, frame: Frame): State {
    s.(hw := HardwareStepped(s.hw, s.regs.enabled, frame), history := HistoryStepped(s, frame))
  }

  /** A frame written to the data register. */
  function Write(s: State, frame: Frame): State {
    if |s.hw.txFifo| < DEPTH then s.(hw := s.hw.(txFifo := s.hw.txFifo + [frame])) else s.(hw := s.hw.(txOver := true))
  }

  /** A frame read from the data register into the next place of the buffer. */
  function Take(s: State): State
    requires s.hw.rxFifo != []
  {
    s.(hw := s.hw.(rxFifo := s.hw.rxFifo[1..]), rxCounter := s.rxCounter + 1, taken := s.taken + [s.hw.rxFifo[0]])
  }

  lemma StartKeeps(s: State, frame: Frame)
    requires s.Running() && s.hw.shift.Idle? && s.regs.enabled && s.hw.txFifo != []
    ensures HardwareNext(s, frame).Running()
  {
    var t := HardwareNext(s, frame);
    assert t.hw.txFifo == t.tx[t.history.started..t.txCounter];
  }

  // There is always room for the frame coming in.
  lemma ShiftedKeeps(s: State, frame: Frame)
    requires s.Running() && s.hw.shift.Busy?
    ensures |s.hw.rxFifo| < DEPTH && HardwareNext(s, frame).Running()
  {
    var t := HardwareNext(s, frame);
    assert t.hw.rxFifo == t.history.received[t.rxCounter..];
    assert t.taken == t.history.received[..t.rxCounter];
  }

  /** The controller loses nothing, keeps the number of frames on their way, and
      always moves on. */
  lemma HardwareKeeps(s: State, frame: Frame)
    requires s.Running()
    ensures var t := HardwareNext(s, frame);
      && t.Running()
      && (if s.HardwareIdle() then t == s else t.Work() < s.Work())
      && |s.hw.rxFifo| <= |t.hw.rxFifo| && |t.hw.txFifo| <= |s.hw.txFifo|
  {
    if s.hw.shift.Busy? {
      ShiftedKeeps(s, frame);
    } else if s.regs.enabled && s.hw.txFifo != [] {
      StartKeeps(s, frame);
    }
    hide State.SentInOrder;
    var t := HardwareNext(s, frame);
    StartedAtMost(s);
    StartedAtMost(t);
  }

  lemma StartedAtMost(s: State)
    requires s.Running()
    ensures s.rxCounter + |s.hw.rxFifo| + s.InShift() + |s.hw.txFifo| == s.txCounter <= s.Len()
    ensures s.history.started <= s.txCounter && s.Work() >= 0
  {
  }

  lemma OneLonger(tx: seq<Frame>, from: nat, n: nat)
    requires from <= n < |tx|
    ensures tx[from..n] + [tx[n]] == tx[from..n + 1]
  {
  }

  lemma WriteKeeps(s: State)
    requires s.Running() && s.txCounter < s.Len() && s.txCounter - s.rxCounter < DEPTH
    ensures |s.hw.txFifo| < DEPTH
    ensures var t := Write(s, s.tx[s.txCounter]).(txCounter := s.txCounter + 1);
      t.Running() && t.Work() < s.Work()
  {
    StartedAtMost(s);
    OneLonger(s.tx, s.history.started, s.txCounter);
  }

  lemma TakeKeeps(s: State)
    requires s.Running() && s.hw.rxFifo != []
    ensures s.rxCounter < s.Len() && Take(s).Running() && Take(s).Work() < s.Work()
  {
    StartedAtMost(s);
    var t := Take(s);
    assert t.hw.rxFifo == t.history.received[t.rxCounter..];
    assert t.taken == t.history.received[..t.rxCounter];
  }

  // Order and bounds do not depend on thresholds, masks and reports.
  lemma RegistersKeep(s: State, regs: Registers, callbacks: seq<nat>)
    requires s.Running()
    ensures s.(regs := regs, callbacks := callbacks).Running()
  {
  }

  lemma SameWork(s: State, regs: Registers)
    ensures s.(regs := regs).Work() == s.Work()
  {
  }

  lemma StartsInOrder(s: State)
    requires s.txCounter == s.rxCounter == 0 && s.history == History(0, []) && s.taken == []
    requires s.hw == Hardware([], Idle, [], false, false)
    ensures s.Running()
  {
  }

  lemma WorkIsNatural(s: State)
    requires s.Running()
    ensures s.Work() >= 0
  {
    StartedAtMost(s);
  }

  lemma Unharmed(s: State)
    requires s.Running()
    ensures !s.hw.rxOver && !s.hw.txOver
  {
  }

  // Once every frame has been read, nothing is on its way.
  lemma AllRead(s: State)
    requires s.Running() && s.rxCounter == s.Len()
    ensures s.hw.txFifo == [] && s.hw.shift.Idle? && s.hw.rxFifo == [] && s.txCounter == s.Len()
  {
    StartedAtMost(s);
  }

  /** While a transfer is under way a controller with nothing to do has raised an
      interrupt whose handler has something to do: frames to take, frames to write,
      or the end to report. */
  lemma NeverStalls(s: State)
    requires s.Valid() && s.Stalled() && s.regs.txTl <= TX_THRESHOLD
    ensures TxEmpty(s.regs, s.hw)
    ensures RxFull(s.regs, s.hw) || s.Len() == 0 || (s.txCounter < s.Len() && |s.hw.txFifo| + |s.hw.rxFifo| < DEPTH - 1)
  {
    StartedAtMost(s);
  }

  /** The controller left to itself; the slave sends `frames`, one for each step that
      takes one. */
  function HardwareAfter(s: State, frames: seq<Frame>): State
    decreases |frames|
  {
    if frames == [] then s else HardwareAfter(HardwareNext(s, frames[0]), frames[1..])
  }

  // It keeps the invariant, changes nothing of the driver, and comes to rest.
  lemma {:induction false} ComesToRest(s: State, frames: seq<Frame>)
    requires s.Running()
    ensures var t := HardwareAfter(s, frames);
      && t.Running() && t.tx == s.tx && t.regs == s.regs && t.callbacks == s.callbacks && t.rxCounter == s.rxCounter
      && (|frames| > s.Work() ==> t.HardwareIdle())
      && (s.HardwareIdle() ==> t == s)
    decreases |frames|
  {
    hide State.SentInOrder, State.ReceivedInOrder, State.Bounded, HardwareStepped, HistoryStepped;
    WorkIsNatural(s);
    if frames == [] {
    } else {
      var next := HardwareNext(s, frames[0]);
      HardwareKeeps(s, frames[0]);
      ComesToRest(next, frames[1..]);
    }
  }

  /** From any state of a transfer that is under way, whatever the slave sends, the
      controller comes to rest with an interrupt raised whose handler has something
      to do. */
  lemma DriverIsWoken(s: State, frames: seq<Frame>)
    requires s.Valid() && s.Underway() && s.regs.txTl <= TX_THRESHOLD
    requires |frames| > s.Work()
    ensures var t := HardwareAfter(s, frames);
      && t.Valid() && t.Stalled() && TxEmpty(t.regs, t.hw)
      && (RxFull(t.regs, t.hw) || t.Len() == 0
          || (t.txCounter < t.Len() && |t.hw.txFifo| + |t.hw.rxFifo| < DEPTH - 1))
  {
    hide State.SentInOrder, State.ReceivedInOrder, State.Bounded, HardwareAfter;
    ComesToRest(s, frames);
    NeverStalls(HardwareAfter(s, frames));
  }

  /** When the transfer is over, the buffer holds a frame for every frame sent, the
      i-th at position i. */
  lemma DeliversAll(s: State)
    requires s.Valid() && s.Concluded()
    ensures s.history.started == s.Len() && s.taken == s.history.received && |s.taken| == s.Len()
    ensures s.hw == Hardware([], Idle, [], false, false)
  {
    AllRead(s);
    assert s.history.received[..s.rxCounter] == s.history.received;
  }

  // ---------------------------------------------------------------------------
  // Reading the two levels
  // ---------------------------------------------------------------------------

  /** The TX half reads both FIFO levels in one expression.  C leaves open which of
      them is read first. */
  datatype Order = TxFirst | RxFirst

  /** No order of the reads lets in a frame too many if TX is first, or if there are
      no more frames than the FIFO holds. */
  predicate Harmless(order: Order, len: nat) {
    order.TxFirst? || len <= DEPTH
  }

  /** Where the driver is: outside the TX half, between the two reads with the first
      level known, or with so many frames still to write. */
  datatype Place = Away | Asked(level: nat) | Writing(frames: int)

  datatype Machine = Machine(order: Order, s: State, at: Place)

  /** One register access of the driver, or one step of the controller. */
  datatype Act = Hw(frame: Frame) | Get | AskFirst | AskSecond | Put | Leave

  predicate Enabled(m: Machine, act: Act) {
    match act
    case Hw(_) => true
    case Get => m.at.Away? && m.s.hw.rxFifo != []
    case AskFirst => m.at.Away? && TxEmpty(m.s.regs, m.s.hw) && m.s.txCounter < m.s.Len()
    case AskSecond => m.at.Asked?
    case Put => m.at.Writing? && m.at.frames > 0 && m.s.txCounter < m.s.Len()
    case Leave => m.at.Writing? && (m.at.frames <= 0 || m.s.txCounter == m.s.Len())
  }

  function Do(m: Machine, act: Act): Machine
    requires Enabled(m, act)
  {
    var hw := m.s.hw;
    match act
    case Hw(frame) => m.(s := HardwareNext(m.s, frame))
    case Get => m.(s := Take(m.s))
    case AskFirst => m.(at := Asked(if m.order.TxFirst? then |hw.txFifo| else |hw.rxFifo|))
    case AskSecond =>
      m.(at := Writing(DEPTH - m.at.level - (if m.order.TxFirst? then |hw.rxFifo| else |hw.txFifo|) - 1))
    case Put =>
      var txTl := if m.s.txCounter + 1 == m.s.Len() then 0 else m.s.regs.txTl;
      m.(s := Write(m.s, m.s.tx[m.s.txCounter]).(txCounter := m.s.txCounter + 1, regs := m.s.regs.(txTl := txTl)),
         at := Writing(m.at.frames - 1))
    case Leave => m.(at := Away)
  }

  ghost predicate CanDo(m: Machine, acts: seq<Act>)
    decreases |acts|
  {
    acts == [] || (Enabled(m, acts[0]) && CanDo(Do(m, acts[0]), acts[1..]))
  }

  ghost function DoAll(m: Machine, acts: seq<Act>): Machine
    requires CanDo(m, acts)
    decreases |acts|
  {
    if acts == [] then m else DoAll(Do(m, acts[0]), acts[1..])
  }

  /** What a call of IrqTransfer leaves behind. */
  function Started(tx: seq<Frame>, rxTl: nat): State {
    State(tx, 0, 0, [], Registers(TX_THRESHOLD, if tx == [] then rxTl else FirstThreshold(|tx|), true, true, true),
          Hardware([], Idle, [], false, false), History(0, []), [])
  }

  function FirstThreshold(len: nat): nat
    requires len > 0
  {
    if len < DEPTH then len - 1 else RX_THRESHOLD
  }

  function Initial(order: Order, tx: seq<Frame>): Machine {
    Machine(order, Started(tx, 0), Away)
  }

  /** Frames about to be written fit beside those on their way. */
  predicate Fits(order: Order, onTheirWay: int, frames: int) {
    order.TxFirst? && frames > 0 ==> onTheirWay + frames <= DEPTH
  }

  // The frames written and not yet read, plus those about to be written, fit.
  ghost predicate Sound(m: Machine) {
    && m.s.Running() && Harmless(m.order, m.s.Len())
    && match m.at
       case Away => true
       case Asked(level) => m.order.TxFirst? ==> m.s.txCounter - m.s.rxCounter - level <= 1 + |m.s.hw.rxFifo|
       case Writing(frames) => Fits(m.order, m.s.txCounter - m.s.rxCounter, frames)
  }

  lemma DoKeepsSound(m: Machine, act: Act)
    requires Sound(m) && Enabled(m, act)
    ensures Sound(Do(m, act))
  {
    hide State.SentInOrder, State.ReceivedInOrder, State.Bounded;
    StartedAtMost(m.s);
    match act
    case Hw(frame) => HardwareKeeps(m.s, frame);
    case Get => TakeKeeps(m.s);
    case Put =>
      WriteKeeps(m.s);
      var t := Write(m.s, m.s.tx[m.s.txCounter]).(txCounter := m.s.txCounter + 1);
      RegistersKeep(t, Do(m, act).s.regs, t.callbacks);
    case _ =>
  }

  /** The loop that writes either goes on or ends, and it is entered for frames that
      are still to be written. */
  lemma PutOrLeave(m: Machine)
    requires Sound(m) && m.at.Writing?
    ensures Enabled(m, Put) <==> !Enabled(m, Leave)
    ensures Enabled(m, Put) <==> 0 < m.at.frames && m.s.txCounter < |m.s.tx|
    ensures Enabled(m.(at := Away), AskFirst) ==> m.s.txCounter < |m.s.tx|
  {
  }

  /** An access of the driver moves the first frame of the RX FIFO to the end of what
      the client has, or the next frame of the client to the end of the TX FIFO; the
      threshold falls with the last one. */
  lemma FramesMove(m: Machine, act: Act)
    requires Sound(m) && Enabled(m, act) && (act.Get? || (act.Put? && m.s.txCounter - m.s.rxCounter < DEPTH))
    ensures var s, t := m.s, Do(m, act).s;
      && t.history == s.history && t.hw.shift == s.hw.shift && t.callbacks == s.callbacks
      && (act.Get? ==>
            && t.taken + t.hw.rxFifo == s.taken + s.hw.rxFifo && |t.hw.rxFifo| == |s.hw.rxFifo| - 1
            && t.hw.txFifo == s.hw.txFifo && t.rxCounter == |t.taken| && t.txCounter == s.txCounter && t.regs == s.regs)
      && (act.Put? ==>
            && t.hw.txFifo == s.hw.txFifo + [s.tx[s.txCounter]] && t.txCounter == s.txCounter + 1
            && t.hw.rxFifo == s.hw.rxFifo && t.taken == s.taken
            && t.regs == s.regs.(txTl := if t.txCounter == |s.tx| then 0 else s.regs.txTl))
  {
    StartedAtMost(m.s);
  }

  lemma {:induction false} DoAllKeepsSound(m: Machine, acts: seq<Act>)
    requires Sound(m) && CanDo(m, acts)
    ensures Sound(DoAll(m, acts))
    decreases |acts|
  {
    hide Sound;
    if acts == [] {
    } else {
      DoKeepsSound(m, acts[0]);
      DoAllKeepsSound(Do(m, acts[0]), acts[1..]);
    }
  }

  // Two lists of actions in a row.
  lemma {:induction false} DoAppend(m: Machine, first: seq<Act>, second: seq<Act>)
    requires CanDo(m, first) && CanDo(DoAll(m, first), second)
    ensures CanDo(m, first + second) && DoAll(m, first + second) == DoAll(DoAll(m, first), second)
    decreases |first|
  {
    if first == [] {
      assert first + second == second;
    } else {
      assert (first + second)[1..] == first[1..] + second;
      DoAppend(Do(m, first[0]), first[1..], second);
    }
  }

  // ---------------------------------------------------------------------------
  // A run that overfills
  // ---------------------------------------------------------------------------

  /** All that matters here of a machine: the frames written, where they are, and
      the place of the driver. */
  ghost predicate Counts(m: Machine, written: nat, waiting: nat, shifting: nat, arrived: nat, at: Place) {
    && m.order.RxFirst? && m.s.Len() > DEPTH && m.s.regs.enabled && m.s.regs.txUnmasked
    && (written < m.s.Len() ==> m.s.regs.txTl == TX_THRESHOLD)
    && m.s.txCounter == written && |m.s.hw.txFifo| == waiting && m.s.InShift() == shifting
    && |m.s.hw.rxFifo| == arrived && m.at == at
  }

  // What each action does to the counts.
  lemma Counted(m: Machine, act: Act, written: nat, waiting: nat, shifting: nat, arrived: nat, at: Place)
    requires Counts(m, written, waiting, shifting, arrived, at)
    ensures act.Put? && at.Writing? && at.frames > 0 && written < m.s.Len() && waiting < DEPTH ==>
      Enabled(m, act) && Counts(Do(m, act), written + 1, waiting + 1, shifting, arrived, Writing(at.frames - 1))
    ensures act.Leave? && at.Writing? && at.frames <= 0 ==>
      Enabled(m, act) && Counts(Do(m, act), written, waiting, shifting, arrived, Away)
    ensures act.AskFirst? && at.Away? && waiting <= TX_THRESHOLD && written < m.s.Len() ==>
      Enabled(m, act) && Counts(Do(m, act), written, waiting, shifting, arrived, Asked(arrived))
    ensures act.AskSecond? && at.Asked? ==>
      Enabled(m, act)
      && Counts(Do(m, act), written, waiting, shifting, arrived, Writing(DEPTH - at.level - waiting - 1))
    ensures act.Hw? && shifting == 0 && waiting > 0 ==>
      Enabled(m, act) && Counts(Do(m, act), written, waiting - 1, 1, arrived, at)
    ensures act.Hw? && shifting == 1 && arrived < DEPTH ==>
      Enabled(m, act) && Counts(Do(m, act), written, waiting, 0, arrived + 1, at)
    ensures Enabled(m, act) ==> Do(m, act).s.tx == m.s.tx
  {
  }

  lemma {:induction false} Puts(m: Machine, n: nat, written: nat, waiting: nat, shifting: nat, arrived: nat)
    returns (acts: seq<Act>)
    requires Counts(m, written, waiting, shifting, arrived, Writing(n))
    requires written + n <= m.s.Len() && waiting + n <= DEPTH
    ensures CanDo(m, acts) && DoAll(m, acts).s.tx == m.s.tx
    ensures Counts(DoAll(m, acts), written + n, waiting + n, shifting, arrived, Writing(0))
    decreases n
  {
    hide Counts;
    acts := [];
    if n == 0 {
    } else {
      Counted(m, Put, written, waiting, shifting, arrived, Writing(n));
      var rest := Puts(Do(m, Put), n - 1, written + 1, waiting + 1, shifting, arrived);
      acts := [Put] + rest;
      assert acts[1..] == rest;
    }
  }

  // Frames for which there is no room, with no driver at work.
  lemma {:induction false} Overflows(m: Machine, frame: Frame) returns (acts: seq<Act>)
    requires m.s.regs.enabled && |m.s.hw.rxFifo| <= DEPTH
    requires |m.s.hw.txFifo| + m.s.InShift() + |m.s.hw.rxFifo| > DEPTH
    ensures CanDo(m, acts) && DoAll(m, acts).s.hw.rxOver
    decreases 2 * |m.s.hw.txFifo| + m.s.InShift()
  {
    var next := Do(m, Hw(frame));
    if next.s.hw.rxOver {
      acts := [Hw(frame)];
      assert acts[1..] == [] && DoAll(next, []) == next;
    } else {
      var rest := Overflows(next, frame);
      acts := [Hw(frame)] + rest;
      assert acts[1..] == rest;
    }
  }

  // Any number of actions whose effect is known, and then one more.
  lemma Then(start: Machine, acts: seq<Act>, m: Machine, act: Act) returns (longer: seq<Act>, next: Machine)
    requires CanDo(start, acts) && DoAll(start, acts) == m && Enabled(m, act)
    ensures next == Do(m, act) && CanDo(start, longer) && DoAll(start, longer) == next
  {
    longer, next := acts + [act], Do(m, act);
    assert [act][1..] == [];
    assert CanDo(Do(m, act), []) && DoAll(Do(m, act), []) == Do(m, act);
    DoAppend(start, acts, [act]);
  }

  // The first call of the handler fills seven places; three steps of the controller
  // later it is called again.
  lemma SecondCall(tx: seq<Frame>, frame: Frame) returns (acts: seq<Act>)
    requires |tx| > DEPTH
    ensures CanDo(Initial(RxFirst, tx), acts) && DoAll(Initial(RxFirst, tx), acts).s.tx == tx
    ensures Counts(DoAll(Initial(RxFirst, tx), acts), 7, 5, 1, 1, Away)
  {
    var start := Initial(RxFirst, tx);
    assert Counts(start, 0, 0, 0, 0, Away);
    hide Counts, Do;
    var m := start;
    acts := [];
    Counted(m, AskFirst, 0, 0, 0, 0, Away);
    acts, m := Then(start, acts, m, AskFirst);
    Counted(m, AskSecond, 0, 0, 0, 0, Asked(0));
    acts, m := Then(start, acts, m, AskSecond);
    var puts := Puts(m, 7, 0, 0, 0, 0);
    DoAppend(start, acts, puts);
    acts, m := acts + puts, DoAll(m, puts);
    Counted(m, Leave, 7, 7, 0, 0, Writing(0));
    acts, m := Then(start, acts, m, Leave);
    Counted(m, Hw(frame), 7, 7, 0, 0, Away);
    acts, m := Then(start, acts, m, Hw(frame));
    Counted(m, Hw(frame), 7, 6, 1, 0, Away);
    acts, m := Then(start, acts, m, Hw(frame));
    Counted(m, Hw(frame), 7, 6, 0, 1, Away);
    acts, m := Then(start, acts, m, Hw(frame));
  }

  // Between the two reads of the second call one frame comes in and the next one
  // leaves the TX FIFO; two frames are let in, and nine are on their way.
  lemma NineOnTheirWay(tx: seq<Frame>, frame: Frame) returns (acts: seq<Act>)
    requires |tx| > DEPTH
    ensures CanDo(Initial(RxFirst, tx), acts)
    ensures Counts(DoAll(Initial(RxFirst, tx), acts), 9, 6, 1, 2, Writing(0))
  {
    hide Counts, Do;
    var start := Initial(RxFirst, tx);
    acts := SecondCall(tx, frame);
    var m := DoAll(start, acts);
    Counted(m, AskFirst, 7, 5, 1, 1, Away);
    acts, m := Then(start, acts, m, AskFirst);
    Counted(m, Hw(frame), 7, 5, 1, 1, Asked(1));
    acts, m := Then(start, acts, m, Hw(frame));
    Counted(m, Hw(frame), 7, 5, 0, 2, Asked(1));
    acts, m := Then(start, acts, m, Hw(frame));
    Counted(m, AskSecond, 7, 4, 1, 2, Asked(1));
    acts, m := Then(start, acts, m, AskSecond);
    var puts := Puts(m, 2, 7, 4, 1, 2);
    DoAppend(start, acts, puts);
    acts := acts + puts;
  }

  /** With the RX level read first, every transfer of more frames than the FIFO holds
      has a run in which the RX FIFO overflows. */
  lemma RxFirstOverflows(tx: seq<Frame>, frame: Frame) returns (acts: seq<Act>)
    requires |tx| > DEPTH
    ensures CanDo(Initial(RxFirst, tx), acts) && DoAll(Initial(RxFirst, tx), acts).s.hw.rxOver
  {
    acts := NineOnTheirWay(tx, frame);
    var full := DoAll(Initial(RxFirst, tx), acts);
    var more := Overflows(full, frame);
    DoAppend(Initial(RxFirst, tx), acts, more);
    acts := acts + more;
  }

  ghost predicate CanOverflow(m: Machine) {
    exists acts: seq<Act> :: CanDo(m, acts) && DoAll(m, acts).s.hw.rxOver
  }

  /** A transfer can overflow the RX FIFO exactly if the RX level is read first and
      there are more frames than the FIFO holds. */
  lemma OverflowsIff(order: Order, tx: seq<Frame>)
    ensures CanOverflow(Initial(order, tx)) <==> order.RxFirst? && |tx| > 8
  {
    var start := Initial(order, tx);
    if Harmless(order, |tx|) {
      StartsInOrder(start.s);
      forall acts: seq<Act> | CanDo(start, acts)
        ensures !DoAll(start, acts).s.hw.rxOver
      {
        DoAllKeepsSound(start, acts);
        Unharmed(DoAll(start, acts).s);
      }
    } else {
      var acts := RxFirstOverflows(tx, []);
    }
  }

  // ---------------------------------------------------------------------------
  // The driver
  // ---------------------------------------------------------------------------

  class Master {
    /** How the driver was compiled. */
    const order: Order

    // Driver variables, and the client's buffers.
    var tx: seq<Frame>
    var rx: array<Frame>
    var txCounter: nat
    var rxCounter: nat
    var callbacks: seq<nat>

    // The controller.
    var regs: Registers
    var hw: Hardware
    ghost var history: History

    constructor (order: Order)
      ensures Quiet() && this.order == order
    {
      this.order := order;
      tx, rx := [], new Frame[0];
      txCounter, rxCounter, callbacks := 0, 0, [];
      regs := Registers(0, 0, false, false, false);
      hw := Hardware([], Idle, [], false, false);
      history := History(0, []);
    }

    ghost predicate Quiet()
      reads this
    {
      hw == Hardware([], Idle, [], false, false)
    }

    ghost predicate Sized()
      reads this
    {
      rxCounter <= |tx| <= rx.Length && |tx| < UINT16
    }

    ghost function View(): State
      requires Sized()
      reads this, rx
    {
      State(tx, txCounter, rxCounter, callbacks, regs, hw, history, rx[..rxCounter])
    }

    ghost predicate Running()
      reads this, rx
    {
      Sized() && View().Running()
    }

    ghost predicate Valid()
      reads this, rx
    {
      Sized() && View().Valid() && regs.txTl <= TX_THRESHOLD && Harmless(order, |tx|)
    }

    /** The controller takes one step; the slave picks the frame. */
    method HardwareStep()
      requires Running()
      modifies this`hw, this`history
      ensures Running()
      ensures if old(View().HardwareIdle()) then View() == old(View()) else View().Work() < old(View().Work())
      ensures |old(hw).rxFifo| <= |hw.rxFifo| && |hw.txFifo| <= |old(hw).txFifo|
    {
      hide State.SentInOrder, State.ReceivedInOrder, State.Bounded;
      var frame: Frame := *;
      HardwareKeeps(View(), frame);
      history := HistoryStepped(View(), frame);
      hw := HardwareStepped(hw, regs.enabled, frame);
      assert View() == HardwareNext(old(View()), frame);
    }

    /** The controller works on, for as long as it likes. */
    method HardwareRuns()
      requires Running()
      modifies this`hw, this`history
      ensures Running()
      ensures View().Work() <= old(View().Work())
      ensures old(View().HardwareIdle()) ==> View() == old(View())
      ensures |old(hw).rxFifo| <= |hw.rxFifo| && |hw.txFifo| <= |old(hw).txFifo|
    {
      hide State.SentInOrder, State.ReceivedInOrder, State.Bounded, State.Work;
      var steps: nat := *;
      while steps > 0
        invariant Running()
        invariant View().Work() <= old(View().Work())
        invariant old(View().HardwareIdle()) ==> View() == old(View())
        invariant |old(hw).rxFifo| <= |hw.rxFifo| && |hw.txFifo| <= |old(hw).txFifo|
      {
        HardwareStep();
        steps := steps - 1;
      }
    }

    /** Write the next frame. */
    method WriteFrame()
      requires Running() && txCounter < |tx| && txCounter - rxCounter < DEPTH
      modifies this`hw, this`history, this`txCounter
      ensures Running()
      ensures txCounter == old(txCounter) + 1
      ensures View().Work() < old(View().Work())
    {
      hide State.SentInOrder, State.ReceivedInOrder, State.Bounded;
      HardwareRuns();
      ghost var before := View();
      WriteKeeps(before);
      hw := hw.(txFifo := hw.txFifo + [tx[txCounter]]);
      txCounter := txCounter + 1;
      assert View() == Write(before, before.tx[before.txCounter]).(txCounter := before.txCounter + 1);
    }

    /** Read a frame to its place in the buffer. */
    method ReadFrame()
      requires Running() && hw.rxFifo != []
      modifies this`hw, this`history, this`rxCounter, rx
      ensures Running()
      ensures rxCounter == old(rxCounter) + 1
      ensures View().Work() < old(View().Work())
    {
      hide State.SentInOrder, State.ReceivedInOrder, State.Bounded;
      HardwareRuns();
      ghost var before := View();
      TakeKeeps(before);
      rx[rxCounter] := hw.rxFifo[0];
      hw := hw.(rxFifo := hw.rxFifo[1..]);
      rxCounter := rxCounter + 1;
      assert rx[..rxCounter] == before.taken + [before.hw.rxFifo[0]];
      assert View() == Take(before);
    }

    /** Set the threshold and mask bits. */
    method SetRegisters(next: Registers)
      requires Running()
      modifies this`regs
      ensures Running() && regs == next && View() == old(View()).(regs := next)
      ensures View().Work() == old(View().Work())
    {
      hide State.SentInOrder, State.ReceivedInOrder, State.Bounded, State.Work;
      RegistersKeep(View(), next, callbacks);
      SameWork(View(), next);
      regs := next;
      assert View() == old(View()).(regs := next);
    }

    /** The RX half of the handler: read what there is, mask the interrupt after the
        last frame, and lower the threshold to the frames that remain. */
    method HandleRx()
      requires Valid() && View().Underway() && RxFull(regs, hw)
      modifies this`hw, this`history, this`rxCounter, this`regs, rx
      ensures Running() && View().Work() < old(View().Work())
      ensures rxCounter < |tx| ==> Valid() && View().Underway()
      ensures rxCounter == |tx| ==> !regs.rxUnmasked
      ensures var left := |tx| - rxCounter;
        var rxTl := if left <= old(regs).rxTl then (left + UINT32 - 1) % UINT32 else old(regs).rxTl;
        regs == old(regs).(rxUnmasked := regs.rxUnmasked, rxTl := rxTl)
    {
      hide State.SentInOrder, State.ReceivedInOrder, State.Bounded, State.Work;
      ghost var start := View();
      StartedAtMost(start);
      var level := |hw.rxFifo|;
      while level > 0
        invariant Running() && level <= |hw.rxFifo|
        invariant regs == start.regs.(rxUnmasked := regs.rxUnmasked)
        invariant rxCounter < |tx| && regs.rxUnmasked
        invariant View().Work() <= start.Work()
        invariant rxCounter > start.rxCounter ==> View().Work() < start.Work()
        invariant rxCounter >= start.rxCounter && (rxCounter > start.rxCounter || level > 0)
        decreases |tx| - rxCounter
      {
        ReadFrame();
        if |tx| == rxCounter {
          SetRegisters(regs.(rxUnmasked := false));
          break;
        }
        HardwareRuns();
        level := |hw.rxFifo|;
      }
      var framesLeft := |tx| - rxCounter;
      if framesLeft <= regs.rxTl {
        SetRegisters(regs.(rxTl := (framesLeft + UINT32 - 1) % UINT32));
      }
    }

    /** Read the two levels, in the order they were compiled in: the frames that may
        be written. */
    method FramesToWrite() returns (frames: int)
      requires Running() && Harmless(order, |tx|)
      modifies this`hw, this`history
      ensures Running() && View().Work() <= old(View().Work())
      ensures old(View().HardwareIdle()) ==> View() == old(View()) && frames == DEPTH - |hw.txFifo| - |hw.rxFifo| - 1
      ensures Fits(order, txCounter - rxCounter, frames)
    {
      hide State.SentInOrder, State.ReceivedInOrder, State.Bounded, State.Work;
      HardwareRuns();
      ghost var first := View();
      var txLevel, rxLevel := |hw.txFifo|, |hw.rxFifo|;
      HardwareRuns();
      if order.TxFirst? {
        rxLevel := |hw.rxFifo|;
      } else {
        txLevel := |hw.txFifo|;
      }
      StartedAtMost(first);
      StartedAtMost(View());
      frames := DEPTH - txLevel - rxLevel - 1;
    }

    /** The TX half: write as many frames as are sure not to overfill the RX FIFO. */
    method HandleTx()
      requires Valid() && View().Underway() && txCounter < |tx|
      modifies this`hw, this`history, this`txCounter, this`regs
      ensures Valid() && View().Underway()
      ensures View().Work() <= old(View().Work())
      ensures old(View().HardwareIdle()) && |old(hw).txFifo| + |old(hw).rxFifo| < DEPTH - 1 ==>
        View().Work() < old(View().Work())
      ensures old(View().HardwareIdle()) ==>
        var room, left := DEPTH - |old(hw).txFifo| - |old(hw).rxFifo| - 1, |tx| - old(txCounter);
        txCounter == old(txCounter) + (if room <= 0 then 0 else if room < left then room else left)
      ensures txCounter == |tx| ==> regs == old(regs).(txTl := 0)
      ensures txCounter < |tx| ==> regs == old(regs)
    {
      hide State.SentInOrder, State.ReceivedInOrder, State.Bounded, State.Work;
      var frames := FramesToWrite();
      ghost var start, count := View(), frames;
      while frames > 0
        invariant Running() && txCounter < |tx|
        invariant Fits(order, txCounter - rxCounter, frames)
        invariant regs == start.regs
        invariant View().Work() <= start.Work()
        invariant frames < count ==> View().Work() < start.Work()
        invariant frames <= count && txCounter == start.txCounter + (count - frames)
        invariant frames >= 0 || frames == count
      {
        WriteFrame();
        frames := frames - 1;
        if |tx| == txCounter {
          SetRegisters(regs.(txTl := 0));
          break;
        }
      }
    }

    /** The end: mask everything, disable, and report. */
    method Finish()
      requires Running() && txCounter == rxCounter == |tx| && callbacks == []
      modifies this`regs, this`callbacks
      ensures Running() && View().Concluded() && View().Work() < old(View().Work())
      ensures regs.txTl == old(regs).txTl
    {
      hide State.SentInOrder, State.ReceivedInOrder, State.Bounded;
      var off := regs.(txUnmasked := false, rxUnmasked := false, enabled := false);
      RegistersKeep(View(), off, [|tx|]);
      regs := off;
      callbacks := callbacks + [|tx|];
      assert View() == old(View()).(regs := off, callbacks := [|tx|]);
    }

    /** The interrupt handler, called because an interrupt is raised.  Both status
        bits are read once, at the start. */
    method Isr()
      requires Valid() && (RxFull(regs, hw) || TxEmpty(regs, hw))
      modifies this`hw, this`history, this`txCounter, this`rxCounter, this`callbacks, this`regs, rx
      ensures Valid()
      ensures View().Work() <= old(View().Work())
      ensures old(View().Stalled()) ==> View().Work() < old(View().Work())
    {
      hide State.SentInOrder, State.ReceivedInOrder, State.Bounded, State.Work;
      if old(View().Stalled()) {
        NeverStalls(View());
      }
      HardwareRuns();
      assert !hw.rxOver by {
        Unharmed(View());
      }
      var rxFull, txEmpty := RxFull(regs, hw), TxEmpty(regs, hw);
      if rxFull {
        HandleRx();
      }
      HardwareRuns();
      if rxCounter == |tx| {
        AllRead(View());
      }
      if |tx| == rxCounter && |tx| == txCounter && hw.txFifo == [] && hw.shift.Idle? {
        Finish();
        return;
      }
      if txEmpty && |tx| > txCounter {
        HandleTx();
      }
    }

    /** Start a transfer on a controller at rest.  In full-duplex mode both buffers
        have one length. */
    method IrqTransfer(tx: seq<Frame>, rx: array<Frame>, rxLen: nat) returns (rc: int)
      requires Quiet() && rxLen <= rx.Length && |tx| < UINT16
      modifies this
      ensures rc == if |tx| == rxLen then 0 else -EINVAL
      ensures rc != 0 ==> unchanged(this)
      ensures rc == 0 ==> this.tx == tx && this.rx == rx && Sized() && View() == Started(tx, old(regs).rxTl)
      ensures rc == 0 ==> regs.txTl == 5
      ensures rc == 0 ==> regs.rxTl == if |tx| == 0 then old(regs).rxTl else if |tx| < 8 then |tx| - 1 else 5
      ensures rc == 0 && Harmless(order, |tx|) ==> Valid() && View().Underway()
    {
      hide State.SentInOrder, State.ReceivedInOrder, State.Bounded;
      if |tx| != rxLen {
        return -EINVAL;
      }
      rxCounter, txCounter := 0, 0;
      this.tx, this.rx, callbacks, history := tx, rx, [], History(0, []);
      regs := regs.(txUnmasked := true, rxUnmasked := true);
      if rxLen > 0 {
        regs := regs.(rxTl := if rxLen < DEPTH then rxLen - 1 else RX_THRESHOLD);
      }
      regs := regs.(txTl := TX_THRESHOLD);
      regs := regs.(enabled := true);
      StartsInOrder(View());
      return 0;
    }

    /** Any stretch of time: steps of the controller, and handler calls whenever an
        interrupt is raised. */
    method AnyWhile()
      requires Valid()
      modifies this`hw, this`history, this`txCounter, this`rxCounter, this`callbacks, this`regs, rx
      ensures Valid()
      ensures View().Work() <= old(View().Work())
      ensures old(callbacks) != [] ==> callbacks == old(callbacks)
    {
      hide State.SentInOrder, State.ReceivedInOrder, State.Bounded, State.Work;
      var steps: nat := *;
      while steps > 0
        invariant Valid()
        invariant View().Work() <= old(View().Work())
        invariant old(callbacks) != [] ==> callbacks == old(callbacks)
      {
        var serve: bool := *;
        if serve && (RxFull(regs, hw) || TxEmpty(regs, hw)) {
          Isr();
        } else {
          HardwareStep();
        }
        steps := steps - 1;
      }
    }

    /** Every fair run of a transfer ends, with one report, and nothing is reported
        again.  Fair means that again and again the controller takes a step and an
        interrupt that is raised is served; anything may happen in between. */
    method FairRun()
      requires Valid()
      modifies this`hw, this`history, this`txCounter, this`rxCounter, this`callbacks, this`regs, rx
      ensures Valid() && Quiet()
      ensures callbacks == [|tx|]
      ensures history.started == |tx| == |history.received| && rx[..|tx|] == history.received
    {
      hide State.SentInOrder, State.ReceivedInOrder, State.Bounded, State.Work;
      while callbacks == []
        invariant Valid()
        decreases View().Work()
      {
        AnyWhile();
        if callbacks != [] {
          break;
        }
        HardwareStep();
        if View().Stalled() {
          NeverStalls(View());
        }
        if RxFull(regs, hw) || TxEmpty(regs, hw) {
          Isr();
        }
        WorkIsNatural(View());
      }
      AnyWhile();
      DeliversAll(View());
    }
  }
}
