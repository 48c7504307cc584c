/** Sessions of the budget chat server over the shared room: the inbound
    thread of one member, and interleavings of many members' steps, under
    which every mailbox stays first-in first-out. */
module ChatSession {
  import opened Wrappers
  import opened ChatText
  import opened ChatRoom

  /** Outcome of one `read_line` call: the text read (empty at end of
      stream) or a failure (timeout, reset, bytes that are not UTF-8). */
  datatype ReadResult = Received(text: string) | Failed

  /** Whether the inbound thread keeps going or has left the room. */
  datatype Inbound = Continue(room: Room) | Finished(room: Room)

  /** One pass of the inbound thread's loop (lines 113-133); a failed read or
      an unacceptable line takes the exit path instead (lines 136-141). */
  function InboundStep(room: Room, name: Name, input: ReadResult): Inbound {
    match input
    case Failed => Finished(LeaveRoom(room, name))
    case Received(text) =>
      var msg := StripLineBreaks(text);
      if IsValidMessage(msg) then Continue(BroadcastRoom(room, name, msg))
      else Finished(LeaveRoom(room, name))
  }

  /** Reads that end a session: failures, and lines that are empty or not
      ASCII once their line breaks are gone. */
  predicate Ends(input: ReadResult) {
    input.Failed? || |StripLineBreaks(input.text)| == 0 || !IsAscii(StripLineBreaks(input.text))
  }

  predicate Terminates(inputs: seq<ReadResult>) {
    exists i :: 0 <= i < |inputs| && Ends(inputs[i])
  }

  /** The chat lines a session relays: one per read, up to the first read
      that ends it. */
  function Relayed(name: Name, inputs: seq<ReadResult>): seq<Line> {
    if inputs == [] || Ends(inputs[0]) then []
    else [ChatLine(name, StripLineBreaks(inputs[0].text))] + Relayed(name, inputs[1..])
  }

  /** The inbound thread fed `inputs` while no other session acts: the
      final room and whether the thread has left its loop. */
  function RunInbound(room: Room, name: Name, inputs: seq<ReadResult>): (Room, bool) {
    if inputs == [] then (room, false)
    else
      match InboundStep(room, name, inputs[0])
      case Finished(r) => (r, true)
      case Continue(r) => RunInbound(r, name, inputs[1..])
  }

  /** A read that does not end the session is relayed and the session
      continues; one that ends it takes the member out. */
  lemma InboundStepRule(room: Room, name: Name, input: ReadResult)
    ensures Ends(input) ==> InboundStep(room, name, input) == Finished(LeaveRoom(room, name))
    ensures !Ends(input) ==>
      InboundStep(room, name, input) == Continue(BroadcastRoom(room, name, StripLineBreaks(input.text)))
  {
    if input.Received? {
      MessageRule(StripLineBreaks(input.text));
    }
  }

  lemma TerminatesTail(inputs: seq<ReadResult>)
    requires inputs != [] && !Ends(inputs[0])
    ensures Terminates(inputs) <==> Terminates(inputs[1..])
  {
    if Terminates(inputs) {
      var i :| 0 <= i < |inputs| && Ends(inputs[i]);
      assert inputs[1..][i - 1] == inputs[i];
    }
    if Terminates(inputs[1..]) {
      var i :| 0 <= i < |inputs[1..]| && Ends(inputs[1..][i]);
      assert inputs[i + 1] == inputs[1..][i];
    }
  }

  /** The session leaves its loop exactly when some read ends it, and the
      member is removed exactly then; until then its own mailbox is
      untouched, so its own lines never come back to it. */
  lemma {:induction false} InboundOutcome(room: Room, name: Name, inputs: seq<ReadResult>)
    ensures RunInbound(room, name, inputs).1 == Terminates(inputs)
    ensures RunInbound(room, name, inputs).0.Keys ==
      if Terminates(inputs) then room.Keys - {name} else room.Keys
    ensures !Terminates(inputs) && name in room ==> RunInbound(room, name, inputs).0[name] == room[name]
  {
    if inputs != [] {
      InboundStepRule(room, name, inputs[0]);
      if Ends(inputs[0]) {
        assert Terminates(inputs);
      } else {
        var next := BroadcastRoom(room, name, StripLineBreaks(inputs[0].text));
        InboundOutcome(next, name, inputs[1..]);
        TerminatesTail(inputs);
      }
    }
  }

  /** Every other member receives the session's chat lines in order and,
      if the session ended, exactly one departure notice after them. */
  lemma {:induction false} InboundSession(room: Room, name: Name, inputs: seq<ReadResult>)
    ensures forall k :: k in room && k != name ==>
      && k in RunInbound(room, name, inputs).0
      && RunInbound(room, name, inputs).0[k] ==
        room[k] + Relayed(name, inputs) + (if Terminates(inputs) then [LeftLine(name)] else [])
  {
    InboundOutcome(room, name, inputs);
    if inputs != [] {
      var input := inputs[0];
      InboundStepRule(room, name, input);
      if Ends(input) {
        assert Terminates(inputs);
        assert Relayed(name, inputs) == [];
      } else {
        var msg := StripLineBreaks(input.text);
        var next := BroadcastRoom(room, name, msg);
        var tail := inputs[1..];
        InboundSession(next, name, tail);
        TerminatesTail(inputs);
        assert RunInbound(room, name, inputs) == RunInbound(next, name, tail);
        assert Relayed(name, inputs) == [ChatLine(name, msg)] + Relayed(name, tail);
        var ending: seq<Line> := if Terminates(inputs) then [LeftLine(name)] else [];
        forall k | k in room && k != name
          ensures RunInbound(room, name, inputs).0[k] == room[k] + Relayed(name, inputs) + ending
        {
          assert next[k] == room[k] + [ChatLine(name, msg)];
          Reassociate(room[k], [ChatLine(name, msg)], Relayed(name, tail), ending);
        }
      }
    }
  }

  /** A step of some session somewhere in the server: a newcomer's
      admission (with the key order the map yielded), a line read by a
      member's inbound thread, a member's departure, or one line written
      by a member's outbound thread. */
  datatype Event =
    | Join(who: Name, keys: seq<Name>)
    | Say(who: Name, text: string)
    | Quit(who: Name)
    | Deliver(who: Name)

  /** A line written to a member's connection. */
  datatype Delivery = Delivery(to: Name, line: Line)

  /** The effect of one event on the room, and the line it writes, if any.
      These are the corrected sections: admission takes the name check in
      the same step, and a write takes its probe and pop in one step (the
      sections as written are in `ChatLocking`). A key order that is not an
      enumeration of the room, or a write to a member that is gone or has
      no mail, leaves the room as it is. */
  function Apply(room: Room, e: Event): (Room, Option<Delivery>) {
    match e
    case Join(w, keys) =>
      if !IsEnumeration(keys, room.Keys) then (room, None)
      else (match TryAdmit(room, w, keys) case None => room case Some(r) => r, None)
    case Say(w, text) => (InboundStep(room, w, Received(text)).room, None)
    case Quit(w) => (LeaveRoom(room, w), None)
    case Deliver(w) =>
      match PopHead(room, w)
      case None => (room, None)
      case Some((line, r)) => (r, Some(Delivery(w, line)))
  }

  /** The events applied in order: final room and every line written. */
  function Run(room: Room, events: seq<Event>): (Room, seq<Delivery>)
    decreases |events|
  {
    if events == [] then (room, [])
    else
      var step := Apply(room, events[0]);
      var rest := Run(step.0, events[1..]);
      (rest.0, (if step.1.Some? then [step.1.value] else []) + rest.1)
  }

  /** Events that leave member `m` registered: no admission or departure
      under its name and no line of its own that would end its session. */
  predicate KeepsMember(e: Event, m: Name) {
    match e
    case Join(w, _) => w != m
    case Quit(w) => w != m
    case Say(w, text) => w != m || !Ends(Received(text))
    case Deliver(_) => true
  }

  /** The lines an event adds to the end of `m`'s mailbox, stated line by
      line: a notice for an accepted newcomer, another member's chat
      line or departure notice, nothing otherwise. */
  function Appended(room: Room, e: Event, m: Name): seq<Line> {
    match e
    case Join(w, keys) =>
      if IsEnumeration(keys, room.Keys) && IsValidUsername(w) && w !in room then [EnteredLine(w)] else []
    case Say(w, text) =>
      if w == m then []
      else if Ends(Received(text)) then [LeftLine(w)]
      else [ChatLine(w, StripLineBreaks(text))]
    case Quit(w) => [LeftLine(w)]
    case Deliver(_) => []
  }

  /** Everything the events add to `m`'s mailbox, in order. */
  function Enqueued(room: Room, events: seq<Event>, m: Name): seq<Line>
    decreases |events|
  {
    if events == [] then []
    else Appended(room, events[0], m) + Enqueued(Apply(room, events[0]).0, events[1..], m)
  }

  /** The lines written to member `m`'s connection, in order. */
  function DeliveredTo(out: seq<Delivery>, m: Name): seq<Line> {
    if out == [] then []
    else (if out[0].to == m then [out[0].line] else []) + DeliveredTo(out[1..], m)
  }

  /** One event either appends its lines to `m`'s mailbox or, if it is
      `m`'s own delivery, takes the head of it. */
  lemma ApplyKeepsOrder(room: Room, e: Event, m: Name)
    requires m in room && KeepsMember(e, m)
    ensures m in Apply(room, e).0
    ensures Apply(room, e).1.Some? && Apply(room, e).1.value.to == m ==>
      [Apply(room, e).1.value.line] + Apply(room, e).0[m] == room[m] + Appended(room, e, m)
    ensures !(Apply(room, e).1.Some? && Apply(room, e).1.value.to == m) ==>
      Apply(room, e).0[m] == room[m] + Appended(room, e, m)
  {
    match e
    case Join(w, keys) =>
    case Say(w, text) =>
      MessageRule(StripLineBreaks(text));
    case Quit(w) =>
    case Deliver(w) =>
  }

  lemma Reassociate<T>(a: seq<T>, b: seq<T>, c: seq<T>, d: seq<T>)
    ensures (a + b) + c + d == a + (b + c) + d
  {
  }

  /** Regrouping of the two halves of the FIFO argument: the head taken in
      this step, then what later steps deliver and leave pending. */
  lemma Regroup<T>(h: seq<T>, d: seq<T>, pending: seq<T>, mid: seq<T>, later: seq<T>, start: seq<T>, app: seq<T>)
    requires h + mid == start + app
    requires d + pending == mid + later
    ensures (h + d) + pending == start + (app + later)
  {
    calc {
      (h + d) + pending;
      h + (d + pending);
      h + (mid + later);
      (h + mid) + later;
      (start + app) + later;
    }
  }

  /** The lines written to `m` by a run: those of its first step, then
      those of the rest. */
  lemma DeliveredToFirst(room: Room, events: seq<Event>, m: Name)
    requires events != []
    ensures var step := Apply(room, events[0]);
      DeliveredTo(Run(room, events).1, m) ==
        (if step.1.Some? && step.1.value.to == m then [step.1.value.line] else [])
        + DeliveredTo(Run(step.0, events[1..]).1, m)
  {
    var step := Apply(room, events[0]);
    var rest := Run(step.0, events[1..]);
    if step.1.Some? {
      var all := [step.1.value] + rest.1;
      assert all[0] == step.1.value;
      assert all[1..] == rest.1;
    } else {
      assert [] + rest.1 == rest.1;
    }
  }

  /** Mailboxes are first-in first-out under any interleaving of sessions:
      what has been written to a member so far, followed by what is still
      pending, is exactly its initial mailbox followed by every line queued
      for it, in queueing order. */
  lemma {:induction false} MailboxFifo(room: Room, events: seq<Event>, m: Name)
    requires m in room
    requires forall i :: 0 <= i < |events| ==> KeepsMember(events[i], m)
    ensures m in Run(room, events).0
    ensures DeliveredTo(Run(room, events).1, m) + Run(room, events).0[m] ==
      room[m] + Enqueued(room, events, m)
    decreases |events|
  {
    if events != [] {
      var e := events[0];
      var step := Apply(room, e);
      ApplyKeepsOrder(room, e, m);
      MailboxFifo(step.0, events[1..], m);
      DeliveredToFirst(room, events, m);
      var rest := Run(step.0, events[1..]);
      var h := if step.1.Some? && step.1.value.to == m then [step.1.value.line] else [];
      Regroup(h, DeliveredTo(rest.1, m), rest.0[m], step.0[m],
        Enqueued(step.0, events[1..], m), room[m], Appended(room, e, m));
    }
  }

  /** A two-client exchange: alice joins an empty room, bob joins, alice
      sends "hi", bob disconnects. Each mailbox holds exactly the lines the
      admission, broadcast and departure sections produce, in order; the
      outbound threads write them in that order. */
  lemma AliceBobScenario()
    ensures var r1 := AdmitRoom(map[], "alice", []);
      var r2 := AdmitRoom(r1, "bob", ["alice"]);
      var r3 := InboundStep(r2, "alice", Received("hi\r\n"));
      var r4 := LeaveRoom(r3.room, "bob");
      && NameAccepted(map[], "alice") && NameAccepted(r1, "bob") && IsEnumeration(["alice"], r1.Keys)
      && r2.Keys == {"alice", "bob"}
      && r2["alice"] == [RosterLine([]), EnteredLine("bob")]
      && r2["bob"] == [RosterLine(["alice"])]
      && r3.Continue?
      && r3.room["alice"] == r2["alice"]
      && r3.room["bob"] == [RosterLine(["alice"]), ChatLine("alice", "hi")]
      && r4.Keys == {"alice"}
      && r4["alice"] == [RosterLine([]), EnteredLine("bob"), LeftLine("bob")]
  {
    ScenarioJoins();
    var r2 := AdmitRoom(AdmitRoom(map[], "alice", []), "bob", ["alice"]);
    ScenarioChatAndLeave(r2);
  }

  /** Admissions of the exchange: alice into the empty room, then bob. */
  lemma ScenarioJoins()
    ensures var r1 := AdmitRoom(map[], "alice", []);
      var r2 := AdmitRoom(r1, "bob", ["alice"]);
      && NameAccepted(map[], "alice") && NameAccepted(r1, "bob") && IsEnumeration(["alice"], r1.Keys)
      && r2.Keys == {"alice", "bob"}
      && r2["alice"] == [RosterLine([]), EnteredLine("bob")]
      && r2["bob"] == [RosterLine(["alice"])]
  {
    ScenarioNames();
    ScenarioSecondJoin(AdmitRoom(map[], "alice", []));
  }

  lemma ScenarioSecondJoin(r1: Room)
    requires r1.Keys == {"alice"}
    ensures "bob" !in r1 && IsEnumeration(["alice"], r1.Keys)
    ensures var r2 := AdmitRoom(r1, "bob", ["alice"]);
      && r2.Keys == {"alice", "bob"}
      && r2["alice"] == r1["alice"] + [EnteredLine("bob")]
      && r2["bob"] == [RosterLine(["alice"])]
  {
  }

  /** The rest of the exchange: alice's line reaches bob only, then bob
      leaves and only alice is told. */
  lemma ScenarioChatAndLeave(r2: Room)
    requires r2.Keys == {"alice", "bob"}
    ensures var r3 := InboundStep(r2, "alice", Received("hi\r\n"));
      var r4 := LeaveRoom(r3.room, "bob");
      && r3.Continue?
      && r3.room["alice"] == r2["alice"]
      && r3.room["bob"] == r2["bob"] + [ChatLine("alice", "hi")]
      && r4.Keys == {"alice"}
      && r4["alice"] == r2["alice"] + [LeftLine("bob")]
  {
    ScenarioChatLine();
    var r4 := LeaveRoom(BroadcastRoom(r2, "alice", "hi"), "bob");
    assert r4.Keys == {"alice"};
  }

  lemma ScenarioNames()
    ensures IsValidUsername("alice") && IsValidUsername("bob")
  {
    UsernameRule("alice");
    UsernameRule("bob");
    assert forall i :: 0 <= i < |"alice"| ==> IsAsciiAlphanumeric("alice"[i]);
    assert forall i :: 0 <= i < |"bob"| ==> IsAsciiAlphanumeric("bob"[i]);
  }

  /** The line "hi" followed by CR LF is relayed as "hi". */
  lemma ScenarioChatLine()
    ensures StripLineBreaks("hi\r\n") == "hi"
    ensures IsValidMessage("hi")
  {
    assert "hi\r\n" == "hi" + "\r\n";
    RemoveCharAppend("hi", "\r\n", '\r');
    RemoveCharAbsent("hi", '\r');
    assert RemoveChar("\r\n", '\r') == "\n";
    RemoveCharAppend("hi", "\n", '\n');
    RemoveCharAbsent("hi", '\n');
    assert RemoveChar("\n", '\n') == "";
    MessageRule("hi");
    assert IsAscii("hi");
  }

  /** The roster and notice lines of the exchange, as the clients read them. */
  lemma ScenarioTexts()
    ensures RosterLine([]) == "* The room contains: "
    ensures RosterLine(["alice"]) == "* The room contains: alice"
    ensures EnteredLine("bob") == "* bob has entered the room"
    ensures ChatLine("alice", "hi") == "[alice] hi"
    ensures LeftLine("bob") == "* bob has left the room"
  {
    assert JoinNames(["alice"]) == "alice";
  }
}
