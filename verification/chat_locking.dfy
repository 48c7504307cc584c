/** The budget chat room behind its `RwLock`, with the write-locked
    sections as the source writes them: the admission with no name check
    of its own (lines 65-75), a line read by an inbound thread (lines
    113-141), and the outbound thread's pop (lines 96-97), which trusts a
    probe it took earlier under a read lock (lines 82-91). A thread that
    panics while it holds the write guard poisons the lock; from then on
    every `read().unwrap()` and `write().unwrap()` of every thread panics. */
module ChatLocking {
  import opened Wrappers
  import opened ChatText
  import opened ChatRoom
  import opened ChatSession

  /** The lock: usable with the room it guards, or poisoned. */
  datatype Lock = Usable(room: Room) | Poisoned

  /** One write-locked section run by some thread. */
  datatype Section =
    | Enter(who: Name, keys: seq<Name>)
    | Read(who: Name, input: ReadResult)
    | Pop(who: Name)

  /** One section. As written (`atomicPop` false), a pop whose member has
      vanished or whose mailbox is empty panics with the write guard held and
      poisons the lock. With `atomicPop` the probe is taken again under the
      write guard, and a missing or empty mailbox is left alone. A key order
      that is not an enumeration of the room cannot come out of the map, and
      such a section changes nothing. */
  function Step(lock: Lock, s: Section, atomicPop: bool): Lock {
    match lock
    case Poisoned => Poisoned
    case Usable(room) =>
      match s
      case Enter(w, keys) =>
        if IsEnumeration(keys, room.Keys) then Usable(AdmitRoom(room, w, keys)) else lock
      case Read(w, input) => Usable(InboundStep(room, w, input).room)
      case Pop(w) =>
        match PopHead(room, w)
        case Some((_, rest)) => Usable(rest)
        case None => if atomicPop then lock else Poisoned
  }

  /** The sections applied in order. */
  function RunSections(lock: Lock, ss: seq<Section>, atomicPop: bool): Lock
    decreases |ss|
  {
    if ss == [] then lock else RunSections(Step(lock, ss[0], atomicPop), ss[1..], atomicPop)
  }

  /** Poisoning is permanent: whatever any thread does next, the lock stays
      poisoned, because every later lock acquisition panics. */
  lemma {:induction false} PoisonIsPermanent(ss: seq<Section>, atomicPop: bool)
    ensures RunSections(Poisoned, ss, atomicPop) == Poisoned
    decreases |ss|
  {
    if ss != [] {
      PoisonIsPermanent(ss[1..], atomicPop);
    }
  }

  /** As written: alice has one pending line and her outbound thread's probe
      sees it. Before the thread takes the write lock, alice disconnects
      (`read_line` yields the empty string at end of stream) and her inbound
      thread removes her. The pop then panics and poisons the lock, and
      every later section finds the lock poisoned. */
  lemma DepartureBetweenProbeAndPop(later: seq<Section>)
    ensures var room := map["alice" := [EnteredLine("bob")], "bob" := [RosterLine(["alice"])]];
      && ProbeMailbox(room, "alice") == Pending
      && RunSections(Usable(room), [Read("alice", Received("")), Pop("alice")] + later, false) == Poisoned
  {
    var room := map["alice" := [EnteredLine("bob")], "bob" := [RosterLine(["alice"])]];
    var ss := [Read("alice", Received("")), Pop("alice")] + later;
    assert ss[0] == Read("alice", Received(""));
    assert ss[1..][0] == Pop("alice");
    assert ss[1..][1..] == later;
    assert StripLineBreaks("") == "" by {
      assert RemoveChar("", '\r') == "";
    }
    var left := LeaveRoom(room, "alice");
    assert "alice" !in left;
    assert Step(Usable(room), ss[0], false) == Usable(left);
    assert Step(Usable(left), Pop("alice"), false) == Poisoned;
    PoisonIsPermanent(later, false);
  }

  /** As written, after the duplicate-name race both "carol" connections
      share one entry holding one line, and both outbound threads can see it
      pending. The first pop takes it; the second finds the mailbox empty and
      poisons the lock. */
  lemma SharedEntryPopRace()
    ensures var room := AdmitRoom(AdmitRoom(map[], "carol", []), "carol", ["carol"]);
      && ProbeMailbox(room, "carol") == Pending
      && RunSections(Usable(room), [Pop("carol"), Pop("carol")], false) == Poisoned
  {
    var room := AdmitRoom(AdmitRoom(map[], "carol", []), "carol", ["carol"]);
    assert room == map["carol" := [RosterLine(["carol"])]];
    var ss := [Pop("carol"), Pop("carol")];
    assert ss[1..] == [Pop("carol")];
    assert Step(Usable(room), Pop("carol"), false) == Usable(map["carol" := []]);
  }

  /** Corrected: with the probe repeated inside the pop's write section, no
      interleaving of admissions, reads and pops ever poisons the lock. */
  lemma {:induction false} AtomicPopNeverPoisons(room: Room, ss: seq<Section>)
    ensures RunSections(Usable(room), ss, true).Usable?
    decreases |ss|
  {
    if ss != [] {
      var next := Step(Usable(room), ss[0], true);
      assert next.Usable?;
      AtomicPopNeverPoisons(next.room, ss[1..]);
    }
  }

  /** The corrected sections are the steps of the session model: an atomic
      pop is a `Deliver`, a read is a `Say` or, once the reads fail, a
      `Quit`, and an admission that passes the name check is a `Join`. So
      the first-in first-out property of mailboxes proved there holds for
      the corrected server. */
  lemma CorrectedStepIsApply(room: Room, w: Name, text: string, keys: seq<Name>)
    ensures Step(Usable(room), Pop(w), true) == Usable(Apply(room, Deliver(w)).0)
    ensures Step(Usable(room), Read(w, Received(text)), true) == Usable(Apply(room, Say(w, text)).0)
    ensures Step(Usable(room), Read(w, Failed), true) == Usable(Apply(room, Quit(w)).0)
    ensures IsEnumeration(keys, room.Keys) && NameAccepted(room, w) ==>
      Step(Usable(room), Enter(w, keys), true) == Usable(Apply(room, Join(w, keys)).0)
  {
  }
}
