/** Data stage of control transfers on endpoint 0 (section 8.5.3 of USB 2.0).

    The endpoint driver's write may take fewer bytes than it is given, or fail;
    its read hands over at most as many as are asked for.  Request handlers are
    not modelled: a callback is given the reply of the handler it may call, a
    refusal or a buffer with some length, as a parameter. */
module UsbControl {
  import opened Bits

  const MAX_PACKET: nat := 64
  const TYPES: nat := 4
  const STANDARD: nat := 0
  const CLASS: nat := 1

  type Store = array<Byte>

  /** `kind` is the type field of the request. */
  datatype Setup = Setup(kind: nat, toHost: bool, length: nat)

  /** What the handler answers: the length it offers, and where. */
  datatype Reply = Refuse | Offer(len: nat, at: Store)

  /** The same as a value: the bytes there, and whether the place is the store of the
      request's type, which the handler may have written to. */
  datatype Answer = No | Yes(len: nat, bytes: seq<Byte>, inStore: bool)

  /** What the endpoint driver makes of a write: it takes up to `space` bytes. */
  datatype Write = Fails | Takes(space: nat)

  /** A call of the handler: the request, the length it is told, and the bytes in the
      store it is shown. */
  datatype Request = Request(setup: Setup, len: nat, data: seq<Byte>)

  function Min(a: nat, b: nat): (m: nat)
    ensures m <= a && m <= b && (m == a || m == b)
  {
    if a < b then a else b
  }

  function Flatten(packets: seq<seq<Byte>>): seq<Byte> {
    if packets == [] then [] else Flatten(packets[..|packets| - 1]) + packets[|packets| - 1]
  }

  lemma FlattenMore(packets: seq<seq<Byte>>, packet: seq<Byte>)
    ensures Flatten(packets + [packet]) == Flatten(packets) + packet
  {
    assert (packets + [packet])[..|packets|] == packets;
  }

  lemma {:induction false} FlattenFirst(packets: seq<seq<Byte>>)
    requires packets != []
    ensures Flatten(packets) == packets[0] + Flatten(packets[1..])
    decreases |packets|
  {
    if |packets| == 1 {
      assert packets[..0] == packets[1..] == [];
    } else {
      var front, last := packets[..|packets| - 1], packets[|packets| - 1];
      var head, middle := packets[0], Flatten(front[1..]);
      assert Flatten(packets) == Flatten(front) + last;
      hide Flatten;
      assert Flatten(front) == head + middle by {
        FlattenFirst(front);
      }
      assert Flatten(packets[1..]) == middle + last by {
        assert packets[1..] == front[1..] + [last];
        FlattenMore(front[1..], last);
      }
      assert (head + middle) + last == head + (middle + last);
    }
  }

  // ---------------------------------------------------------------------------
  // What an IN stage owes
  // ---------------------------------------------------------------------------

  /** With no bytes skipped, the packets sent and the bytes still to send make up
      what is due; `rest` always counts right. */
  ghost predicate Owed(sent: seq<seq<Byte>>, rest: seq<Byte>, dropped: nat, due: seq<Byte>) {
    && (forall p | p in sent :: |p| <= MAX_PACKET)
    && |Flatten(sent)| + dropped + |rest| == |due|
    && (dropped == 0 ==> Flatten(sent) + rest == due)
  }

  lemma OwedAfterPacket(sent: seq<seq<Byte>>, rest: seq<Byte>, dropped: nat, due: seq<Byte>, n: nat)
    requires Owed(sent, rest, dropped, due) && n <= |rest| && n <= MAX_PACKET
    ensures Owed(sent + [rest[..n]], rest[n..], dropped, due)
    ensures Owed(sent, rest[n..], dropped + n, due)
  {
    FlattenMore(sent, rest[..n]);
    assert rest == rest[..n] + rest[n..];
    assert Flatten(sent) + rest == Flatten(sent) + rest[..n] + rest[n..];
  }

  lemma NothingSent(bytes: seq<Byte>, n: nat)
    requires n <= |bytes|
    ensures Owed([], bytes[0..n], 0, bytes[..n])
  {
    assert Flatten([]) + bytes[0..n] == bytes[..n];
  }

  lemma NothingButStatus(sent: seq<seq<Byte>>)
    ensures sent == [] || sent == [[]] ==> Owed(sent, [], 0, [])
  {
    FlattenMore([], []);
    assert Flatten([]) == [];
  }

  lemma OwedAt(sent: seq<seq<Byte>>, bytes: seq<Byte>, pos: nat, count: nat, dropped: nat, due: seq<Byte>, n: nat)
    requires pos + count <= |bytes| && n <= count && n <= MAX_PACKET
    requires Owed(sent, bytes[pos..pos + count], dropped, due)
    ensures Owed(sent + [bytes[pos..pos + n]], bytes[pos + n..pos + count], dropped, due)
    ensures Owed(sent, bytes[pos + n..pos + count], dropped + n, due)
  {
    hide Owed;
    var rest := bytes[pos..pos + count];
    assert rest[..n] == bytes[pos..pos + n] && rest[n..] == bytes[pos + n..pos + count];
    OwedAfterPacket(sent, rest, dropped, due, n);
  }

  // Bytes that are neither sent nor skipped nor still to send are missing.
  lemma OwedCounts(sent: seq<seq<Byte>>, rest: seq<Byte>, dropped: nat, due: seq<Byte>)
    ensures Owed(sent, rest, dropped, due) ==> |Flatten(sent)| + dropped + |rest| == |due|
    ensures Flatten(sent + [[]]) == Flatten(sent)
  {
    FlattenMore(sent, []);
  }

  lemma NotOwed(sent: seq<seq<Byte>>, count: nat, dropped: nat, due: seq<Byte>, later: seq<seq<Byte>>, rest: seq<Byte>)
    requires |Flatten(sent)| + dropped + count == |due| && |rest| < count
    requires later == sent || later == sent + [[]]
    ensures !Owed(later, rest, dropped, due)
  {
    OwedCounts(sent, rest, dropped, due);
    OwedCounts(later, rest, dropped, due);
  }

  /** The packets come to what is due exactly if no write that carried bytes has
      failed. */
  lemma CompleteIff(sent: seq<seq<Byte>>, dropped: nat, due: seq<Byte>)
    requires Owed(sent, [], dropped, due)
    ensures Flatten(sent) == due <==> dropped == 0
  {
    assert Flatten(sent) + [] == Flatten(sent);
  }

  lemma NothingLeft(sent: seq<seq<Byte>>, rest: seq<Byte>, due: seq<Byte>)
    requires Owed(sent, rest, 0, due) && rest == []
    ensures Flatten(sent) == due && forall p | p in sent :: |p| <= MAX_PACKET
  {
  }

  // ---------------------------------------------------------------------------
  // Whole packets
  // ---------------------------------------------------------------------------

  /** The packets of an answer, with room for a whole packet at every write. */
  function Packets(due: seq<Byte>): seq<seq<Byte>> {
    if |due| <= MAX_PACKET then [due] else [due[..MAX_PACKET]] + Packets(due[MAX_PACKET..])
  }

  /** The packets sent so far are the first of them, and the bytes left make up the
      others. */
  ghost predicate OnSchedule(sent: seq<seq<Byte>>, rest: seq<Byte>, due: seq<Byte>) {
    sent + (if rest == [] then [] else Packets(rest)) == Packets(due)
  }

  lemma FirstWholePacket(due: seq<Byte>)
    ensures OnSchedule([due[..Min(MAX_PACKET, |due|)]], due[Min(MAX_PACKET, |due|)..], due)
  {
    if |due| <= MAX_PACKET {
      assert due[..|due|] == due;
    } else {
      assert due[MAX_PACKET..] != [];
    }
  }

  lemma NextWholePacket(sent: seq<seq<Byte>>, rest: seq<Byte>, due: seq<Byte>)
    requires OnSchedule(sent, rest, due) && rest != []
    ensures var n := Min(MAX_PACKET, |rest|);
      OnSchedule(sent + [rest[..n]], rest[n..], due)
  {
    var n := Min(MAX_PACKET, |rest|);
    FirstWholePacket(rest);
    hide Packets;
    var others := if rest[n..] == [] then [] else Packets(rest[n..]);
    assert sent + [rest[..n]] + others == sent + ([rest[..n]] + others);
  }

  // The status packet is the first and only one; other answers start with nothing
  // sent.
  lemma ScheduleStarts(bytes: seq<Byte>, n: nat)
    requires n <= |bytes|
    ensures n > 0 ==> OnSchedule([], bytes[0..n], bytes[..n])
    ensures n == 0 ==> OnSchedule([bytes[0..0]], bytes[0..0], bytes[..n])
  {
    if n > 0 {
      assert bytes[0..n] == bytes[..n] && [] + Packets(bytes[..n]) == Packets(bytes[..n]);
    } else {
      assert bytes[..n] == [] && bytes[0..0] == [];
    }
  }

  lemma NextPacketAt(sent: seq<seq<Byte>>, bytes: seq<Byte>, pos: nat, count: nat, due: seq<Byte>)
    requires pos + count <= |bytes| && count > 0
    ensures var n := Min(MAX_PACKET, count);
      OnSchedule(sent, bytes[pos..pos + count], due) ==>
        OnSchedule(sent + [bytes[pos..pos + n]], bytes[pos + n..pos + count], due)
  {
    hide OnSchedule;
    var rest, n := bytes[pos..pos + count], Min(MAX_PACKET, count);
    assert rest[..n] == bytes[pos..pos + n] && rest[n..] == bytes[pos + n..pos + count];
    if OnSchedule(sent, rest, due) {
      NextWholePacket(sent, rest, due);
    }
  }

  lemma AllSent(sent: seq<seq<Byte>>, due: seq<Byte>)
    ensures OnSchedule(sent, [], due) ==> sent == Packets(due)
  {
    assert sent + [] == sent;
  }

  lemma {:induction false} PacketsFit(due: seq<Byte>)
    ensures Packets(due) != [] && forall p | p in Packets(due) :: |p| <= MAX_PACKET
    decreases |due|
  {
    if |due| <= MAX_PACKET {
    } else {
      PacketsFit(due[MAX_PACKET..]);
    }
  }

  /** No packet follows a last packet of full size: the host can tell that the
      answer has ended by a short packet exactly if its length is not a positive
      multiple of the packet size. */
  lemma {:induction false} EndsShort(due: seq<Byte>)
    ensures Packets(due) != []
    ensures |Packets(due)[|Packets(due)| - 1]| < MAX_PACKET <==> due == [] || |due| % MAX_PACKET != 0
    decreases |due|
  {
    PacketsFit(due);
    if |due| <= MAX_PACKET {
    } else {
      var rest := due[MAX_PACKET..];
      EndsShort(rest);
      assert |rest| % MAX_PACKET == |due| % MAX_PACKET;
      var packets := Packets(rest);
      assert Packets(due) == [due[..MAX_PACKET]] + packets;
      assert Packets(due)[|packets|] == packets[|packets| - 1];
    }
  }

  // ---------------------------------------------------------------------------
  // State
  // ---------------------------------------------------------------------------

  /** The part of the control transfer under way: bytes to the host, bytes from the
      host, nothing more after a refusal, or a stage that a callback of the other
      direction has spoilt. */
  datatype Stage = DataIn | DataOut | Refused | Spoilt

  /** `store` is the store of the request's type, `bytes` the buffer that is pointed
      into at `pos`.  An IN stage owes the host what is `due`, of which failed writes
      have skipped `dropped` bytes; `received` is what the host has sent. */
  datatype State = State(setup: Setup, store: seq<Byte>, bytes: seq<Byte>, inStore: bool, pos: nat, dataCount: nat,
                         controlXferLen: nat, stalled: bool, sent: seq<seq<Byte>>, requests: seq<Request>,
                         stage: Stage, due: seq<Byte>, dropped: nat, received: seq<Byte>) {

    predicate Pointing() {
      pos + dataCount <= |bytes| && (inStore ==> bytes == store)
    }

    /** The bytes still to be sent, or places still to be filled. */
    function Rest(): seq<Byte>
      requires Pointing()
    {
      bytes[pos..pos + dataCount]
    }

    /** The answer of an IN stage is as it should be. */
    ghost predicate Owing() {
      Pointing() && Owed(sent, Rest(), dropped, due)
    }

    /** The data of an OUT stage is where it should be. */
    ghost predicate Filling() {
      && Pointing() && inStore && controlXferLen == Min(setup.length, |store|)
      && pos == |received| && pos + dataCount == controlXferLen
      && bytes[..pos] == received && sent == [] && requests == []
    }

    ghost predicate Valid() {
      && Pointing()
      && match stage
         case DataIn => Owing()
         case DataOut => Filling()
         case Refused => stalled
         case Spoilt => true
    }

    /** The packets so far are whole ones. */
    ghost predicate WholePackets() {
      Pointing() && OnSchedule(sent, Rest(), due)
    }

    /** Whether the request has a handler. */
    predicate Handled() {
      setup.kind == STANDARD || setup.kind == CLASS
    }

    /** What a handler called now is shown. */
    function Shown(): Request {
      Request(setup, controlXferLen, store[..Min(controlXferLen, |store|)])
    }

    /** The bytes that the next packet takes from the buffer, sent or skipped. */
    function Chunk(w: Write): (n: nat)
      ensures n <= dataCount && n <= MAX_PACKET
    {
      if w.Fails? then Min(MAX_PACKET, dataCount) else Min(Min(MAX_PACKET, dataCount), w.space)
    }
  }

  predicate Sized(a: Answer, size: nat) {
    a.Yes? ==> a.len <= |a.bytes| && (a.inStore ==> |a.bytes| == size)
  }

  // ---------------------------------------------------------------------------
  // What the callbacks do
  // ---------------------------------------------------------------------------

  /** The next packet, possibly of no bytes. */
  function Transmitted(s: State, w: Write): (t: State)
    requires s.Pointing()
    ensures t.stage == s.stage && t.setup == s.setup && t.requests == s.requests && t.received == s.received
    ensures t.bytes == s.bytes && t.store == s.store && t.inStore == s.inStore && t.stalled == s.stalled
    ensures t.controlXferLen == s.controlXferLen && t.due == s.due && t.pos + t.dataCount == s.pos + s.dataCount
  {
    var n := s.Chunk(w);
    if w.Fails? then s.(pos := s.pos + n, dataCount := s.dataCount - n, dropped := s.dropped + n)
    else s.(pos := s.pos + n, dataCount := s.dataCount - n, sent := s.sent + [s.bytes[s.pos..s.pos + n]])
  }

  /** A packet read to the data pointer, as far as bytes are awaited. */
  function ReadIn(s: State, packet: seq<Byte>): State
    requires s.Pointing()
  {
    var n := Min(|packet|, s.dataCount);
    var bytes := s.bytes[..s.pos] + packet[..n] + s.bytes[s.pos + n..];
    s.(bytes := bytes, store := if s.inStore then bytes else s.store, pos := s.pos + n, dataCount := s.dataCount - n,
       received := s.received + packet[..n], stage := if s.stage == DataIn && packet != [] then Spoilt else s.stage)
  }

  function Accepted(s: State, a: Answer): bool {
    s.Handled() && a.Yes?
  }

  /** The handler called, if there is one. */
  function Asked(s: State, a: Answer): (t: State)
    ensures t.stage == s.stage && t.setup == s.setup && t.dataCount == s.dataCount && t.sent == s.sent
  {
    var t := if s.Handled() then s.(requests := s.requests + [s.Shown()]) else s;
    if Accepted(s, a) then
      t.(controlXferLen := a.len, bytes := a.bytes, inStore := a.inStore, pos := 0,
         store := if a.inStore then a.bytes else s.store)
    else t
  }

  /** The first n bytes of the buffer, to be sent. */
  function Starting(s: State, n: nat): State
    requires n <= |s.bytes|
  {
    s.(dataCount := n, stage := DataIn, due := s.bytes[..n])
  }

  /** A request whose handler has not been called yet. */
  function Requested(stalled: bool, packet: Setup, store: seq<Byte>): (t: State)
    ensures t.Pointing()
  {
    var n := Min(packet.length, |store|);
    State(packet, store, store, true, 0, n, n, stalled, [], [], DataOut, [], 0, [])
  }

  function Refusing(s: State): State {
    s.(stalled := true, stage := Refused)
  }

  /** All bytes awaited have come: the handler is shown the store, and if it accepts
      the status goes out. */
  function Completed(s: State, a: Answer, w: Write): State
    requires s.Pointing() && s.dataCount == 0 && Sized(a, |s.store|)
  {
    var t := Asked(s.(bytes := s.store, inStore := true, pos := 0), a);
    if !Accepted(s, a) then Refusing(t)
    else if s.stage == DataOut then Transmitted(t, w).(stage := DataIn, due := [], dropped := 0)
    else Transmitted(t, w).(stage := Spoilt)
  }

  /** A request without data from the host: the smaller of the lengths requested and
      offered begins to go out. */
  function Answered(s: State, a: Answer, w: Write): State
    requires s.Pointing() && Sized(a, |s.store|)
  {
    var t := Asked(s, a);
    if !Accepted(s, a) then Refusing(t)
    else
      Transmitted(Starting(t, Min(t.controlXferLen, s.setup.length)), w)
  }

  /** A SETUP packet; `store` is the store for its type. */
  function SetupHandled(s: State, packet: Setup, store: seq<Byte>, readable: bool, a: Answer, w: Write): State
    requires readable ==> Sized(a, |store|)
  {
    if !readable then Refusing(s)
    else
      var t := Requested(s.stalled, packet, store);
      if packet.length == 0 || packet.toHost then Answered(t, a, w) else t
  }

  /** An OUT packet.  The driver looks at no stage. */
  function OutHandled(s: State, packet: seq<Byte>, readable: bool, a: Answer, w: Write): State
    requires s.Pointing() && Sized(a, |s.store|)
  {
    if !readable then s.(stalled := true)
    else if s.dataCount == 0 then s
    else
      var t := ReadIn(s, packet);
      if t.dataCount == 0 then Completed(t, a, w) else t
  }

  /** The host has taken a packet.  Here too the driver looks at no stage. */
  function InHandled(s: State, w: Write): State
    requires s.Pointing()
  {
    if s.dataCount == 0 then s
    else Transmitted(s, w).(stage := if s.stage == DataOut then Spoilt else s.stage)
  }

  // ---------------------------------------------------------------------------
  // Each callback
  // ---------------------------------------------------------------------------

  /** A packet moves bytes from what is left to what is sent, or skips them. */
  lemma TransmittedKeeps(s: State, w: Write)
    requires s.Owing()
    ensures Transmitted(s, w).Owing()
    ensures s.WholePackets() && s.dataCount > 0 && w.Takes? && w.space >= MAX_PACKET ==> Transmitted(s, w).WholePackets()
  {
    hide Owed, OnSchedule;
    OwedAt(s.sent, s.bytes, s.pos, s.dataCount, s.dropped, s.due, s.Chunk(w));
    if s.dataCount > 0 {
      NextPacketAt(s.sent, s.bytes, s.pos, s.dataCount, s.due);
    }
  }

  /** The answer to a SETUP packet: the first min(offered, wLength) bytes are due. */
  lemma AnswerIsDue(s: State, a: Answer, w: Write)
    requires s.Pointing() && Sized(a, |s.store|) && s.sent == [] && s.requests == [] && s.dropped == 0
    ensures Answered(s, a, w).Valid() && |Answered(s, a, w).requests| == if s.Handled() then 1 else 0
    ensures var t := Answered(s, a, w);
      if Accepted(s, a) then
        && t.stage == DataIn && t.due == a.bytes[..Min(a.len, s.setup.length)] && t.bytes == a.bytes
        && t.stalled == s.stalled && t.controlXferLen == a.len && t.received == s.received
        && t.store == (if a.inStore then a.bytes else s.store)
        && (w.Takes? && w.space >= MAX_PACKET ==> t.WholePackets() && t.dropped == 0)
      else
        t == s.(stalled := true, stage := Refused, requests := t.requests)
    ensures s.Handled() ==> Answered(s, a, w).requests == [s.Shown()]
  {
    hide Owed, OnSchedule;
    if Accepted(s, a) {
      var t := Asked(s, a);
      var n := Min(a.len, s.setup.length);
      var u := t.(dataCount := n, stage := DataIn, due := t.bytes[..n]);
      NothingSent(a.bytes, n);
      ScheduleStarts(a.bytes, n);
      TransmittedKeeps(u, w);
      assert [] + [a.bytes[0..0]] == [a.bytes[0..0]];
    }
  }

  /** A SETUP packet starts a stage of its own direction: the store of its type, with
      as much room as is asked for and there is, or the answer of its handler. */
  lemma SetupStarts(s: State, packet: Setup, store: seq<Byte>, a: Answer, w: Write)
    requires Sized(a, |store|)
    ensures var t := SetupHandled(s, packet, store, true, a, w);
      var n := if packet.length < |store| then packet.length else |store|;
      var shown := if packet.kind < 2 then [Request(packet, n, store[..n])] else [];
      && t.Valid() && t.setup == packet
      && if packet.length > 0 && !packet.toHost then
           t == State(packet, store, store, true, 0, n, n, s.stalled, [], [], DataOut, [], 0, [])
         else if packet.kind < 2 && a.Yes? then // standard and class requests
           && t.stage == DataIn && t.due == a.bytes[..Min(a.len, packet.length)] && t.requests == shown
           && t.stalled == s.stalled && t.bytes == a.bytes && t.store == (if a.inStore then a.bytes else store)
           && (w.Takes? && w.space >= MAX_PACKET ==> t.WholePackets() && t.dropped == 0)
         else
           t == State(packet, store, store, true, 0, n, n, true, [], shown, Refused, [], 0, [])
  {
    var t := Requested(s.stalled, packet, store);
    hide Owed, OnSchedule, Min;
    if packet.length == 0 || packet.toHost {
      AnswerIsDue(t, a, w);
    }
  }

  lemma AskedWhateverTheStall(s: State, stalled: bool, a: Answer)
    ensures Asked(s.(stalled := stalled), a) == Asked(s, a).(stalled := stalled)
  {
  }

  lemma TransmittedWhateverTheStall(s: State, stalled: bool, w: Write)
    requires s.Pointing()
    ensures Transmitted(s.(stalled := stalled), w) == Transmitted(s, w).(stalled := stalled)
  {
    hide Min;
  }

  lemma StallDoesNotMatter(s: State, stalled: bool, a: Answer, w: Write)
    requires s.Pointing() && Sized(a, |s.store|)
    ensures Answered(s.(stalled := stalled), a, w).(stalled := true) == Answered(s, a, w).(stalled := true)
  {
    AskedWhateverTheStall(s, stalled, a);
    if Accepted(s, a) {
      var t := Starting(Asked(s, a), Min(Asked(s, a).controlXferLen, s.setup.length));
      TransmittedWhateverTheStall(t, stalled, w);
    }
    hide Asked, Transmitted, Min;
  }

  /** And it forgets everything that went on before, but for the stall. */
  lemma SetupForgets(s: State, t: State, packet: Setup, store: seq<Byte>, a: Answer, w: Write)
    requires Sized(a, |store|)
    ensures SetupHandled(s, packet, store, true, a, w).(stalled := true)
      == SetupHandled(t, packet, store, true, a, w).(stalled := true)
  {
    hide Answered;
    var u := Requested(s.stalled, packet, store);
    StallDoesNotMatter(u, t.stalled, a, w);
  }

  lemma ReadInKeeps(s: State, packet: seq<Byte>)
    requires s.Valid()
    ensures ReadIn(s, packet).Valid()
    ensures s.stage == DataIn && packet != [] ==> ReadIn(s, packet).stage == Spoilt
  {
    hide Owed;
    var t := ReadIn(s, packet);
    if s.stage == DataIn && packet == [] {
      assert t.bytes == s.bytes;
    } else if s.stage == DataOut {
      assert t.bytes[..t.pos] == s.bytes[..s.pos] + packet[..Min(|packet|, s.dataCount)];
    }
  }

  lemma CompletedKeeps(s: State, a: Answer, w: Write)
    requires s.Valid() && s.dataCount == 0 && s.stage != DataIn && Sized(a, |s.store|)
    ensures var t := Completed(s, a, w);
      && t.Valid() && t.dataCount == 0
      && t.stage == (if !Accepted(s, a) then Refused else if s.stage == DataOut then DataIn else Spoilt)
      && t.sent == (if Accepted(s, a) && w.Takes? then s.sent + [[]] else s.sent)
      && (s.stage != DataOut ==> t.due == s.due && t.dropped == s.dropped)
      && t.requests == (if s.Handled() then s.requests + [s.Shown()] else s.requests)
      && t.stalled == (s.stalled || !Accepted(s, a)) && t.received == s.received
      && (if Accepted(s, a) then
            t.bytes == a.bytes && t.controlXferLen == a.len && t.store == (if a.inStore then a.bytes else s.store)
          else
            t.bytes == t.store == s.store && t.controlXferLen == s.controlXferLen && t.inStore)
      && t.pos == 0
  {
    hide Owed, Flatten;
    NothingButStatus(Completed(s, a, w).sent);
  }

  /** An OUT packet in an OUT stage lands in the store, after the ones before; the
      handler is called exactly when the last byte wanted comes, and is shown them. */
  lemma OutFills(s: State, packet: seq<Byte>, a: Answer, w: Write)
    requires s.Valid() && s.stage == DataOut && s.dataCount > 0 && Sized(a, |s.store|)
    ensures var t := OutHandled(s, packet, true, a, w);
      var n := Min(|packet|, s.dataCount);
      && t.Valid() && t.received == s.received + packet[..n] && t.setup == s.setup
      && if n < s.dataCount then
           && t.stage == DataOut && t.dataCount == s.dataCount - n && t.stalled == s.stalled && |t.store| == |s.store|
           && t.store == s.store[..s.pos] + packet[..n] + s.store[s.pos + n..]
         else
           && t.stalled == (s.stalled || s.setup.kind >= 2 || a.No?)
           && t.store == (if s.setup.kind < 2 && a.Yes? && a.inStore then a.bytes
                          else s.store[..s.pos] + packet[..n] + s.store[s.pos + n..])
           && t.dataCount == 0 && t.stage == (if s.setup.kind < 2 && a.Yes? then DataIn else Refused)
           && t.requests == if s.setup.kind < 2 then [Request(s.setup, |t.received|, t.received)] else []
  {
    ReadInKeeps(s, packet);
    var t := ReadIn(s, packet);
    if t.dataCount == 0 {
      assert t.store[..t.controlXferLen] == t.received;
      CompletedKeeps(t, a, w);
    }
  }

  /** An OUT packet never leaves a state that is not valid. */
  lemma OutKeeps(s: State, packet: seq<Byte>, readable: bool, a: Answer, w: Write)
    requires s.Valid() && Sized(a, |s.store|)
    ensures OutHandled(s, packet, readable, a, w).Valid()
  {
    hide Owed, Flatten;
    ReadInKeeps(s, packet);
    var t := ReadIn(s, packet);
    if readable && s.dataCount > 0 && t.dataCount == 0 {
      assert t.stage != DataIn;
      CompletedKeeps(t, a, w);
    }
  }

  /** An OUT packet that nothing awaits, such as the status of an IN transfer, has no
      effect whatever the stage; one that cannot be read stalls the endpoint, and
      has no other. */
  lemma OutIgnored(s: State, packet: seq<Byte>, readable: bool, a: Answer, w: Write)
    requires s.Pointing() && Sized(a, |s.store|)
    requires !readable || s.dataCount == 0
    ensures OutHandled(s, packet, readable, a, w) == s.(stalled := s.stalled || !readable)
  {
  }

  /** The answer of an IN stage stays what is due exactly if no OUT packet with data
      comes while bytes are left. */
  lemma OutSpares(s: State, packet: seq<Byte>, readable: bool, a: Answer, w: Write)
    requires s.Valid() && s.stage == DataIn && Sized(a, |s.store|)
    ensures var t := OutHandled(s, packet, readable, a, w);
      && t.Valid()
      && (t.Owing() && t.due == s.due <==> !readable || s.dataCount == 0 || packet == [])
      && (!readable || s.dataCount == 0 || packet == [] ==> t == s.(stalled := s.stalled || !readable))
  {
    hide Owed, ReadIn, Completed;
    OutKeeps(s, packet, readable, a, w);
    if readable && s.dataCount > 0 {
      ReadInKeeps(s, packet);
      if packet == [] {
        NothingRead(s);
      } else {
        OutOverwrites(s, packet, a, w);
      }
    }
  }

  lemma NothingRead(s: State)
    requires s.Pointing()
    ensures ReadIn(s, []) == s
  {
    assert ReadIn(s, []).bytes == s.bytes;
    assert s.received + [] == s.received;
  }

  // Bytes of the answer that are read over are missing from it.
  lemma OutOverwrites(s: State, packet: seq<Byte>, a: Answer, w: Write)
    requires s.Valid() && s.stage == DataIn && Sized(a, |s.store|) && s.dataCount > 0 && packet != []
    ensures !OutHandled(s, packet, true, a, w).Owing() || OutHandled(s, packet, true, a, w).due != s.due
  {
    hide Owed, Flatten;
    ReadInKeeps(s, packet);
    var t := ReadIn(s, packet);
    OwedCounts(s.sent, s.Rest(), s.dropped, s.due);
    if t.dataCount == 0 {
      CompletedKeeps(t, a, w);
    }
    hide Completed;
    var u := OutHandled(s, packet, true, a, w);
    if u.Pointing() {
      NotOwed(s.sent, s.dataCount, s.dropped, s.due, u.sent, u.Rest());
    }
  }

  /** An IN completion sends the next packet of an IN stage.  An OUT stage goes on
      filling its store as it should exactly if it waits for no data then. */
  lemma InSpares(s: State, w: Write)
    requires s.Valid()
    ensures var t := InHandled(s, w);
      && t.Valid() && (s.dataCount == 0 ==> t == s)
      && t.stalled == s.stalled && t.requests == s.requests && t.received == s.received && t.setup == s.setup
      && t.bytes == s.bytes && t.store == s.store && t.controlXferLen == s.controlXferLen
      && (s.stage == DataIn ==> t.stage == DataIn && t.due == s.due)
      && (w.Takes? ==> t.dropped == s.dropped) && (w.Takes? && w.space > 0 && s.dataCount > 0 ==> t.dataCount < s.dataCount)
      && (s.stage == DataOut ==> (t.Filling() <==> s.dataCount == 0))
      && (s.stage == DataIn && s.WholePackets() && w.Takes? && w.space >= MAX_PACKET ==> t.WholePackets())
  {
    hide Owed, OnSchedule;
    if s.stage == DataIn && s.dataCount > 0 {
      TransmittedKeeps(s, w);
    }
  }

  // ---------------------------------------------------------------------------
  // Whole stages
  // ---------------------------------------------------------------------------

  /** The packets of a host until no more bytes are awaited. */
  function OutAll(s: State, packets: seq<seq<Byte>>, a: Answer, w: Write): State
    requires s.Valid() && s.stage == DataOut && Sized(a, |s.store|)
    decreases |packets|
  {
    if s.dataCount == 0 || packets == [] then s
    else
      OutFills(s, packets[0], a, w);
      var t := OutHandled(s, packets[0], true, a, w);
      if t.dataCount > 0 then OutAll(t, packets[1..], a, w) else t
  }

  /** A whole OUT stage, however the host divides the data: the handler runs once,
      when the last byte wanted has come, and is shown the data in order. */
  lemma {:induction false} WholeDataOut(s: State, packets: seq<seq<Byte>>, a: Answer, w: Write)
    requires s.Valid() && s.stage == DataOut && Sized(a, |s.store|)
    requires 0 < s.dataCount <= |Flatten(packets)|
    ensures var t := OutAll(s, packets, a, w);
      && t.Valid() && t.setup == s.setup && t.dataCount == 0
      && t.stage == (if s.setup.kind < 2 && a.Yes? then DataIn else Refused)
      && t.received == s.received + Flatten(packets)[..s.dataCount]
      && t.stalled == (s.stalled || s.setup.kind >= 2 || a.No?)
      && t.requests == if s.setup.kind < 2 then [Request(s.setup, |t.received|, t.received)] else []
    decreases |packets|
  {
    hide OutHandled, Owed, State.Filling;
    OutFills(s, packets[0], a, w);
    var t := OutHandled(s, packets[0], true, a, w);
    var n := Min(|packets[0]|, s.dataCount);
    FlattenFirst(packets);
    FirstThenRest(s.received, packets[0], Flatten(packets[1..]), s.dataCount);
    if n < s.dataCount {
      assert t.dataCount <= |Flatten(packets[1..])|;
      hide Flatten;
      WholeDataOut(t, packets[1..], a, w);
    }
  }

  /** As long as bytes are missing the handler is not called. */
  lemma {:induction false} PartOfDataOut(s: State, packets: seq<seq<Byte>>, a: Answer, w: Write)
    requires s.Valid() && s.stage == DataOut && Sized(a, |s.store|)
    requires |Flatten(packets)| < s.dataCount
    ensures var t := OutAll(s, packets, a, w);
      && t.Valid() && t.stage == DataOut && t.setup == s.setup && t.stalled == s.stalled
      && t.received == s.received + Flatten(packets) && t.dataCount == s.dataCount - |Flatten(packets)|
      && t.requests == [] && t.sent == []
    decreases |packets|
  {
    hide OutHandled, Owed;
    if packets == [] {
      assert s.received + Flatten([]) == s.received;
    } else {
      var first, rest := packets[0], packets[1..];
      OutFills(s, first, a, w);
      FlattenFirst(packets);
      var t := OutHandled(s, first, true, a, w);
      assert first[..|first|] == first;
      assert OutAll(s, packets, a, w) == OutAll(t, rest, a, w) && t.requests == [] && t.sent == [];
      hide Flatten, OutAll, State.Filling, State.Valid;
      PartOfDataOut(t, rest, a, w);
      assert (s.received + first) + Flatten(rest) == s.received + (first + Flatten(rest));
    }
  }

  lemma FirstThenRest(before: seq<Byte>, first: seq<Byte>, rest: seq<Byte>, n: nat)
    requires n <= |first + rest|
    ensures n <= |first| ==> before + first[..n] == before + (first + rest)[..n]
    ensures n > |first| ==>
      first[..|first|] == first && before + first + rest[..n - |first|] == before + (first + rest)[..n]
  {
    if n <= |first| {
      assert (first + rest)[..n] == first[..n];
    } else {
      assert (first + rest)[..n] == first + rest[..n - |first|];
      assert before + first + rest[..n - |first|] == before + (first + rest[..n - |first|]);
    }
  }

  /** The IN completions of a stage, with what the endpoint driver makes of each write. */
  function InAll(s: State, writes: seq<Write>): State
    requires s.Valid()
    decreases |writes|
  {
    if writes == [] then s
    else
      InSpares(s, writes[0]);
      InAll(InHandled(s, writes[0]), writes[1..])
  }

  /** The rest of an IN stage in which every write takes something: the packets
      together are exactly what is due.  With room for a whole packet every time they
      are the packets that the answer divides into, and the last is short exactly if
      the length is not a positive multiple of the packet size. */
  lemma {:induction false} WholeDataIn(s: State, writes: seq<Write>)
    requires s.Valid() && s.stage == DataIn && s.dropped == 0 && |writes| >= s.dataCount
    requires forall w | w in writes :: w.Takes? && w.space > 0
    ensures var t := InAll(s, writes);
      && t.Valid() && t.stage == DataIn && t.due == s.due && t.dataCount == 0
      && t.stalled == s.stalled && t.requests == s.requests && t.store == s.store && t.setup == s.setup
      && Flatten(t.sent) == t.due && (forall p | p in t.sent :: |p| <= 64)
      && (s.WholePackets() && (forall w | w in writes :: w.space >= MAX_PACKET) ==>
            && t.sent == Packets(t.due) && t.sent != []
            && (|t.sent[|t.sent| - 1]| < 64 <==> t.due == [] || |t.due| % 64 != 0))
    decreases |writes|
  {
    hide Owed, OnSchedule, Flatten, Packets;
    if writes == [] {
      NothingLeft(s.sent, s.Rest(), s.due);
      EndsShort(s.due);
      AllSent(s.sent, s.due);
    } else {
      InSpares(s, writes[0]);
      WholeDataIn(InHandled(s, writes[0]), writes[1..]);
    }
  }

  // ---------------------------------------------------------------------------
  // The driver
  // ---------------------------------------------------------------------------

  class ControlEndpoint {
    /** One store for each request type; those without one are empty. */
    const stores: seq<Store>

    var setup: Setup
    var buf: Store // data_buf points to buf[pos]
    var pos: nat
    var dataCount: nat
    var controlXferLen: nat
    var stalled: bool

    /** Packets given to the endpoint since the last SETUP, and handler calls. */
    var sent: seq<seq<Byte>>
    var requests: seq<Request>

    // The course of the transfer, as State has it.
    ghost var stage: Stage
    ghost var due: seq<Byte>
    ghost var dropped: nat
    ghost var received: seq<Byte>

    ghost predicate Typed()
      reads this
    {
      |stores| == TYPES && setup.kind < TYPES
    }

    ghost predicate Placed()
      reads this
    {
      Typed() && pos + dataCount <= buf.Length
    }

    ghost function View(): State
      requires Typed()
      reads this, buf, stores[setup.kind]
    {
      var store := stores[setup.kind];
      State(setup, store[..], buf[..], buf == store, pos, dataCount, controlXferLen, stalled, sent, requests,
            stage, due, dropped, received)
    }

    /** The reply as a value. */
    ghost function AnswerOf(reply: Reply): Answer
      requires Typed()
      reads this, if reply.Offer? then {reply.at} else {}
    {
      match reply
      case Refuse => No
      case Offer(len, at) => Yes(len, at[..], at == stores[setup.kind])
    }

    constructor (stores: seq<Store>, none: Store)
      requires |stores| == TYPES
      ensures Placed() && this.stores == stores && View().Valid() && dataCount == 0
    {
      this.stores := stores;
      setup := Setup(0, false, 0);
      buf, pos, dataCount, controlXferLen, stalled := none, 0, 0, 0, true;
      sent, requests := [], [];
      stage, due, dropped, received := Refused, [], 0, [];
    }

    /** Send the next packet, possibly of no bytes.  A failed write is not noticed:
        its bytes are skipped. */
    method TransmitData(w: Write)
      requires Placed()
      modifies this`pos, this`dataCount, this`sent, this`dropped
      ensures Placed() && View() == Transmitted(old(View()), w)
    {
      ghost var before := View();
      var chunk := Min(MAX_PACKET, dataCount);
      if w.Takes? {
        chunk := Min(chunk, w.space);
        sent := sent + [buf[..][pos..pos + chunk]];
      } else {
        dropped := dropped + chunk;
      }
      pos := pos + chunk;
      dataCount := dataCount - chunk;
      assert buf[..] == before.bytes && stores[setup.kind][..] == before.store;
    }

    /** Call the handler for the request's type, showing it the store. */
    method HandleRequest(reply: Reply) returns (ok: bool)
      requires Placed() && (reply.Offer? ==> reply.len <= reply.at.Length)
      modifies this`requests, this`controlXferLen, this`buf, this`pos
      ensures Typed()
      ensures ok == Accepted(old(View()), old(AnswerOf(reply)))
      ensures if ok then buf == reply.at && pos == 0 && controlXferLen == reply.len else buf == old(buf) && pos == old(pos)
      ensures View() == Asked(old(View()), old(AnswerOf(reply)))
    {
      hide Min;
      ghost var before, answer := View(), AnswerOf(reply);
      if setup.kind != STANDARD && setup.kind != CLASS {
        return false;
      }
      var store := stores[setup.kind];
      requests := requests + [Request(setup, controlXferLen, store[..][..Min(controlXferLen, store.Length)])];
      assert buf[..] == before.bytes && store[..] == before.store;
      match reply {
        case Refuse =>
          return false;
        case Offer(len, at) =>
          controlXferLen, buf, pos := len, at, 0;
          assert buf[..] == answer.bytes;
          return true;
      }
    }

    /** Refuse the request. */
    method Refuse()
      requires Typed()
      modifies this`stalled, this`stage
      ensures Typed() && View() == Refusing(old(View()))
    {
      ghost var before := View();
      stalled, stage := true, Refused;
      assert buf[..] == before.bytes && stores[setup.kind][..] == before.store;
    }

    /** A SETUP packet, if it could be read. */
    method HandleSetupPacket(packet: Setup, readable: bool, reply: Reply, w: Write)
      requires Placed() && packet.kind < TYPES && (reply.Offer? ==> reply.len <= reply.at.Length)
      modifies this
      ensures Placed()
      ensures readable ==> setup == packet
      ensures var store := stores[packet.kind][..];
        View() == SetupHandled(old(View()), packet, store, readable, AnswerOf(reply), w)
    {
      hide Min, Transmitted, Answered, Refusing;
      if !readable {
        Refuse();
        return;
      }
      Reset(packet);
      assert View() == Requested(old(stalled), packet, stores[packet.kind][..]);
      if setup.length == 0 || setup.toHost {
        AnswerSetup(reply, w);
      }
    }

    /** The state for a new request: the store of its type, and room for its data. */
    method Reset(packet: Setup)
      requires Placed() && packet.kind < TYPES
      modifies this`setup, this`sent, this`requests, this`stage, this`due, this`dropped, this`received, this`buf,
        this`pos, this`dataCount, this`controlXferLen
      ensures setup == packet && sent == [] && requests == [] && stage == DataOut && due == [] && dropped == 0
      ensures received == [] && buf == stores[packet.kind] && pos == 0
      ensures controlXferLen == dataCount == Min(packet.length, buf.Length)
    {
      setup := packet;
      sent, requests, stage, due, dropped, received := [], [], DataOut, [], 0, [];
      buf, pos := stores[setup.kind], 0;
      dataCount := Min(setup.length, buf.Length);
      controlXferLen := dataCount;
    }

    /** A request without data from the host goes to its handler at once, and the
        first packet of the answer, possibly the status, goes out. */
    method AnswerSetup(reply: Reply, w: Write)
      requires Placed() && (reply.Offer? ==> reply.len <= reply.at.Length)
      modifies this`buf, this`pos, this`requests, this`controlXferLen, this`stalled, this`stage, this`due, this`dropped,
        this`sent, this`dataCount
      ensures Placed() && View() == Answered(old(View()), AnswerOf(reply), w)
      ensures AnswerOf(reply) == old(AnswerOf(reply))
    {
      hide Min, Transmitted, Refusing;
      ghost var before, answer := View(), AnswerOf(reply);
      var ok := HandleRequest(reply);
      if !ok {
        Refuse();
      } else {
        // The smaller of the lengths requested and offered.
        StartDataIn(Min(controlXferLen, setup.length));
        TransmitData(w);
      }
    }

    method StartDataIn(n: nat)
      requires Typed() && pos == 0 && n <= buf.Length
      modifies this`dataCount, this`stage, this`due
      ensures Placed() && View() == Starting(old(View()), n)
    {
      ghost var before := View();
      dataCount := n;
      stage, due := DataIn, buf[..][..n];
      assert buf[..] == before.bytes && stores[setup.kind][..] == before.store;
    }

    /** An OUT packet. */
    method HandleOutControlTransfer(packet: seq<Byte>, readable: bool, reply: Reply, w: Write)
      requires Placed() && (reply.Offer? ==> reply.len <= reply.at.Length)
      modifies this`buf, this`pos, this`requests, this`controlXferLen, this`stalled, this`stage, this`due, this`dropped,
        this`sent, this`dataCount, this`received, buf
      ensures Placed() && View() == OutHandled(old(View()), packet, readable, AnswerOf(reply), w)
    {
      hide Min, Completed, ReadIn;
      if dataCount > 0 {
        if !readable {
          stalled := true;
          return;
        }
        ReadPacket(packet);
        if dataCount == 0 {
          DataComplete(reply, w);
        }
      } else if !readable {
        stalled := true;
      }
    }

    /** Read what fits of a packet to the data pointer. */
    method ReadPacket(packet: seq<Byte>)
      requires Placed()
      modifies this`pos, this`dataCount, this`received, this`stage, buf
      ensures Placed() && View() == ReadIn(old(View()), packet)
    {
      hide Min;
      ghost var before := View();
      var chunk := Min(|packet|, dataCount);
      CopyIn(packet[..chunk]);
      ghost var bytes := buf[..];
      assert bytes == ReadIn(before, packet).bytes;
      received := received + packet[..chunk];
      pos := pos + chunk;
      dataCount := dataCount - chunk;
      if stage == DataIn && packet != [] {
        stage := Spoilt;
      }
      assert buf[..] == bytes && stores[setup.kind][..] == ReadIn(before, packet).store;
    }

    /** The bytes the endpoint driver reads, at the data pointer. */
    method CopyIn(bytes: seq<Byte>)
      requires pos + |bytes| <= buf.Length
      modifies buf
      ensures buf[..] == old(buf[..])[..pos] + bytes + old(buf[..])[pos + |bytes|..]
    {
      var i := 0;
      while i < |bytes|
        invariant 0 <= i <= |bytes|
        invariant forall k | 0 <= k < buf.Length ::
          buf[k] == if pos <= k < pos + i then bytes[k - pos] else old(buf[k])
      {
        buf[pos + i] := bytes[i];
        i := i + 1;
      }
    }

    /** All data is in the store: hand it to the handler, and send the status. */
    method DataComplete(reply: Reply, w: Write)
      requires Placed() && dataCount == 0 && (reply.Offer? ==> reply.len <= reply.at.Length)
      modifies this`buf, this`pos, this`requests, this`controlXferLen, this`stalled, this`stage, this`due, this`dropped,
        this`sent, this`dataCount
      ensures Placed() && View() == Completed(old(View()), AnswerOf(reply), w)
    {
      hide Min, Transmitted, Refusing, Asked;
      ghost var before, answer := View(), AnswerOf(reply);
      buf, pos := stores[setup.kind], 0;
      assert View() == before.(bytes := before.store, inStore := true, pos := 0) && AnswerOf(reply) == answer;
      var ok := HandleRequest(reply);
      if !ok {
        Refuse();
      } else {
        TransmitData(w); // the status
        EnterStatus();
      }
      assert AnswerOf(reply) == answer;
    }

    ghost method EnterStatus()
      requires Placed()
      modifies this`stage, this`due, this`dropped
      ensures Placed()
      ensures View() == var s := old(View());
        if s.stage == DataOut then s.(stage := DataIn, due := [], dropped := 0) else s.(stage := Spoilt)
    {
      ghost var before := View();
      if stage == DataOut {
        stage, due, dropped := DataIn, [], 0;
      } else {
        stage := Spoilt;
      }
      assert buf[..] == before.bytes && stores[setup.kind][..] == before.store;
    }

    /** The host has taken a packet: send the next, if there is more. */
    method HandleInControlTransfer(w: Write)
      requires Placed()
      modifies this`pos, this`dataCount, this`sent, this`dropped, this`stage
      ensures Placed() && View() == InHandled(old(View()), w)
    {
      hide Transmitted;
      if dataCount != 0 {
        TransmitData(w);
        if stage == DataOut {
          stage := Spoilt;
        }
      }
    }
  }
}
