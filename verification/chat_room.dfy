/** The budget chat room registry: the shared map from member name to that
    member's mailbox of pending outbound lines, and the transitions each
    write-locked section of the server performs on it. Every transition is
    one atomic step; `HashMap` iteration order is a parameter `keys` that
    lists every key once, in any order. */
module ChatRoom {
  import opened Wrappers
  import opened ChatText

  type Name = string
  type Line = string

  /** Member name to pending outbound lines, oldest first. */
  type Room = map<Name, seq<Line>>

  function EnteredLine(name: Name): Line {
    "* " + name + " has entered the room"
  }

  function LeftLine(name: Name): Line {
    "* " + name + " has left the room"
  }

  function ChatLine(sender: Name, msg: string): Line {
    "[" + sender + "] " + msg
  }

  function RosterLine(names: seq<Name>): Line {
    "* The room contains: " + JoinNames(names)
  }

  /** `keys` lists every member of `members` exactly once. */
  predicate IsEnumeration(keys: seq<Name>, members: set<Name>) {
    && (forall i, j :: 0 <= i < j < |keys| ==> keys[i] != keys[j])
    && (forall k :: k in keys ==> k in members)
    && (forall k :: k in members ==> k in keys)
  }

  /** Reference definition of a fan-out: every member outside `skip` gets
      `line` at the end of its mailbox; nothing else changes. */
  function Post(room: Room, skip: set<Name>, line: Line): (r: Room)
    ensures r.Keys == room.Keys
    ensures forall k :: k in room && k in skip ==> r[k] == room[k]
    ensures forall k :: k in room && k !in skip ==> r[k] == room[k] + [line]
  {
    map k | k in room :: if k in skip then room[k] else room[k] + [line]
  }

  /** `Post` carried out for the members listed in `done` only. */
  function PostTo(room: Room, done: seq<Name>, skip: set<Name>, line: Line): Room {
    map k | k in room :: if k in done && k !in skip then room[k] + [line] else room[k]
  }

  /** Once every member is listed, the partial fan-out is the whole one. */
  lemma PostToAll(room: Room, keys: seq<Name>, skip: set<Name>, line: Line)
    requires forall k :: k in room ==> k in keys
    ensures PostTo(room, keys, skip, line) == Post(room, skip, line)
  {
  }

  /** In a list without repetitions, an entry does not occur before itself. */
  lemma NotYetVisited(keys: seq<Name>, i: nat)
    requires i < |keys|
    requires forall a, b :: 0 <= a < b < |keys| ==> keys[a] != keys[b]
    ensures keys[i] !in keys[..i]
  {
  }

  /** One more member handled by the fan-out loop. */
  lemma PostToStep(room: Room, done: seq<Name>, key: Name, skip: set<Name>, line: Line)
    requires key in room && key !in done
    ensures PostTo(room, done + [key], skip, line) ==
      (if key in skip then PostTo(room, done, skip, line)
       else PostTo(room, done, skip, line)[key := room[key] + [line]])
  {
  }

  /** Every registered member accepted by the server has a valid name. */
  predicate WellFormed(room: Room) {
    forall k :: k in room ==> IsValidUsername(k)
  }

  /** Reference definition of the admission section (lines 65-75). */
  function AdmitRoom(room: Room, name: Name, roster: seq<Name>): Room {
    Post(room, {}, EnteredLine(name))[name := [RosterLine(roster)]]
  }

  /** Reference definition of a chat broadcast (lines 126-133). */
  function BroadcastRoom(room: Room, sender: Name, msg: string): Room {
    Post(room, {sender}, ChatLine(sender, msg))
  }

  /** Reference definition of the departure section (lines 136-141). */
  function LeaveRoom(room: Room, name: Name): Room {
    var rest := room - {name};
    Post(rest, {}, LeftLine(name))
  }

  /** The fan-out loop shared by admission, broadcast and departure: walks
      the key list and pushes `line` onto every mailbox not in `skip`. */
  method Notify(room: Room, keys: seq<Name>, skip: set<Name>, line: Line) returns (after: Room)
    requires IsEnumeration(keys, room.Keys)
    ensures after == Post(room, skip, line)
  {
    after := room;
    var i := 0;
    while i < |keys|
      invariant 0 <= i <= |keys|
      invariant after == PostTo(room, keys[..i], skip, line)
    {
      var key := keys[i];
      assert keys[..i + 1] == keys[..i] + [key];
      NotYetVisited(keys, i);
      PostToStep(room, keys[..i], key, skip, line);
      if key !in skip {
        after := after[key := after[key] + [line]];
      }
      i := i + 1;
    }
    assert keys[..|keys|] == keys;
    PostToAll(room, keys, skip, line);
  }

  /** Admission (lines 65-75): the roster is the key list as it stood, every
      existing member is told about the newcomer, and the newcomer's mailbox
      is replaced by the single roster line. */
  method Admit(room: Room, name: Name, keys: seq<Name>) returns (after: Room)
    requires IsEnumeration(keys, room.Keys)
    ensures after.Keys == room.Keys + {name}
    ensures after[name] == [RosterLine(keys)]
    ensures forall k :: k in room && k != name ==> after[k] == room[k] + [EnteredLine(name)]
    ensures after == AdmitRoom(room, name, keys)
  {
    var present: seq<Name> := keys;
    var notified := Notify(room, keys, {}, EnteredLine(name));
    after := notified[name := [RosterLine(present)]];
  }

  /** Chat broadcast (lines 126-133): every member except the sender gets
      the chat line; the sender's own mailbox and the key set are untouched. */
  method Broadcast(room: Room, sender: Name, msg: string, keys: seq<Name>) returns (after: Room)
    requires IsEnumeration(keys, room.Keys)
    ensures after.Keys == room.Keys
    ensures sender in room ==> after[sender] == room[sender]
    ensures forall k :: k in room && k != sender ==> after[k] == room[k] + [ChatLine(sender, msg)]
    ensures after == BroadcastRoom(room, sender, msg)
  {
    after := Notify(room, keys, {sender}, ChatLine(sender, msg));
  }

  /** Departure (lines 136-141): the member is removed (a missing entry is
      tolerated), then each remaining member gets one departure notice.
      `keys` enumerates the room as it stands after the removal. */
  method Leave(room: Room, name: Name, keys: seq<Name>) returns (after: Room)
    requires IsEnumeration(keys, room.Keys - {name})
    ensures after.Keys == room.Keys - {name}
    ensures forall k :: k in room && k != name ==> after[k] == room[k] + [LeftLine(name)]
    ensures after == LeaveRoom(room, name)
  {
    var rest := room - {name};
    after := Notify(rest, keys, {}, LeftLine(name));
  }

  /** What the outbound thread sees under its read lock (lines 82-91). */
  datatype Probe = Departed | Idle | Pending

  function ProbeMailbox(room: Room, name: Name): Probe {
    if name !in room then Departed
    else if room[name] == [] then Idle
    else Pending
  }

  /** The write-locked pop (lines 96-97): the head of the mailbox and the
      room without it. `None` is where the source's `unwrap` or `remove(0)`
      would panic: the member vanished or its mailbox is empty. */
  function PopHead(room: Room, name: Name): (r: Option<(Line, Room)>)
    ensures r.Some? <==> name in room && room[name] != []
    ensures r.Some? ==> r.value.1.Keys == room.Keys
    ensures r.Some? ==> [r.value.0] + r.value.1[name] == room[name]
    ensures r.Some? ==> forall k :: k in room && k != name ==> r.value.1[k] == room[k]
  {
    if name in room && room[name] != [] then
      Some((room[name][0], room[name := room[name][1..]]))
    else
      None
  }

  /** The outbound thread's loop (lines 81-104) run for `steps` iterations
      while no other thread touches the room: the lines it writes, the room
      it leaves, and whether the loop ended because the member was gone. */
  function Outbound(room: Room, name: Name, steps: nat): (Room, seq<Line>, bool)
    decreases steps
  {
    if steps == 0 then (room, [], false)
    else
      match ProbeMailbox(room, name)
      case Departed => (room, [], true)
      case Idle => Outbound(room, name, steps - 1)
      case Pending =>
        match PopHead(room, name)
        case None => (room, [], true)
        case Some((line, rest)) =>
          var next := Outbound(rest, name, steps - 1);
          (next.0, [line] + next.1, next.2)
  }

  /** The outbound thread delivers its mailbox head first: after `steps`
      iterations it has written the first `steps` pending lines (or all of
      them) in order and the rest wait in order. It never stops while the
      member is present. */
  lemma {:induction false} OutboundIsFifo(room: Room, name: Name, steps: nat)
    requires name in room
    ensures var n := if steps < |room[name]| then steps else |room[name]|;
      && Outbound(room, name, steps).1 == room[name][..n]
      && Outbound(room, name, steps).0 == room[name := room[name][n..]]
      && !Outbound(room, name, steps).2
    decreases steps
  {
    if steps > 0 && room[name] != [] {
      var rest := room[name := room[name][1..]];
      OutboundIsFifo(rest, name, steps - 1);
      assert room[name][1..][(if steps - 1 < |room[name]| - 1 then steps - 1 else |room[name]| - 1)..]
        == room[name][(if steps < |room[name]| then steps else |room[name]|)..];
      assert rest[name := room[name][(if steps < |room[name]| then steps else |room[name]|)..]]
        == room[name := room[name][(if steps < |room[name]| then steps else |room[name]|)..]];
    } else if steps > 0 {
      OutboundIsFifo(room, name, steps - 1);
    }
  }

  /** Once the member has left, the outbound thread stops at its next
      iteration without writing anything. */
  lemma OutboundStopsAfterLeave(room: Room, name: Name, steps: nat)
    requires name !in room && steps > 0
    ensures Outbound(room, name, steps) == (room, [], true)
  {
  }

  /** The name check of the handshake (line 57), under its own read lock. */
  predicate NameAccepted(room: Room, name: Name) {
    IsValidUsername(name) && name !in room
  }

  /** As written, the name check (line 57) and the admission (lines 65-75)
      are separate critical sections. Two connections claiming "carol" can
      both pass the check on the empty room; both are then admitted, the
      second admission overwrites the first one's entry, and the roster it
      sends lists "carol" herself. */
  lemma DuplicateNameRace()
    ensures NameAccepted(map[], "carol")
    ensures IsEnumeration(["carol"], AdmitRoom(map[], "carol", []).Keys)
    ensures AdmitRoom(AdmitRoom(map[], "carol", []), "carol", ["carol"]).Keys == {"carol"}
    ensures AdmitRoom(AdmitRoom(map[], "carol", []), "carol", ["carol"])["carol"]
      == ["* The room contains: carol"]
  {
    UsernameRule("carol");
    var first := AdmitRoom(map[], "carol", []);
    assert first.Keys == {"carol"};
    var second := AdmitRoom(first, "carol", ["carol"]);
    assert JoinNames(["carol"]) == "carol";
    assert RosterLine(["carol"]) == "* The room contains: carol";
    assert second.Keys == {"carol"};
    assert second["carol"] == [RosterLine(["carol"])];
  }

  /** Admission with the name check inside the same atomic step as the
      insertion: the result is defined exactly when the name is valid and
      free, and then the newcomer joins the existing members. */
  function TryAdmit(room: Room, name: Name, keys: seq<Name>): (r: Option<Room>)
    requires IsEnumeration(keys, room.Keys)
    ensures r.Some? <==> IsValidUsername(name) && name !in room
    ensures r.Some? ==> r.value.Keys == room.Keys + {name} && name !in room
    ensures r.Some? ==> r.value[name] == [RosterLine(keys)]
    ensures r.Some? ==> forall k :: k in room ==> r.value[k] == room[k] + [EnteredLine(name)]
    ensures WellFormed(room) && r.Some? ==> WellFormed(r.value)
  {
    if NameAccepted(room, name) then Some(AdmitRoom(room, name, keys)) else None
  }

  /** With the atomic check, a second claim on an admitted name is refused:
      of two connections asking for the same name exactly one gets in. */
  lemma SecondClaimRefused(room: Room, name: Name, keys: seq<Name>, keys': seq<Name>)
    requires IsEnumeration(keys, room.Keys)
    requires TryAdmit(room, name, keys).Some?
    requires IsEnumeration(keys', TryAdmit(room, name, keys).value.Keys)
    ensures TryAdmit(TryAdmit(room, name, keys).value, name, keys') == None
  {
  }

  /** In a room of accepted names the newcomer's roster line reads back as
      exactly the members present before it joined, each once. */
  lemma AdmitRosterListsMembers(room: Room, name: Name, keys: seq<Name>)
    requires WellFormed(room)
    requires IsEnumeration(keys, room.Keys)
    requires TryAdmit(room, name, keys).Some?
    ensures var line := TryAdmit(room, name, keys).value[name][0];
      && line == "* The room contains: " + JoinNames(keys)
      && ParseRoster(line[|"* The room contains: "|..]) == keys
      && (forall n :: n in ParseRoster(line[|"* The room contains: "|..]) <==> n in room)
  {
    forall i | 0 <= i < |keys| ensures IsRosterName(keys[i]) {
      ValidNameIsRosterName(keys[i]);
    }
    RosterRoundTrip(keys);
    var line := TryAdmit(room, name, keys).value[name][0];
    assert line[|"* The room contains: "|..] == JoinNames(keys);
  }

  /** Broadcast and departure keep every registered name valid. */
  lemma TransitionsKeepWellFormed(room: Room, name: Name, msg: string)
    requires WellFormed(room)
    ensures WellFormed(BroadcastRoom(room, name, msg))
    ensures WellFormed(LeaveRoom(room, name))
    ensures PopHead(room, name).Some? ==> WellFormed(PopHead(room, name).value.1)
  {
  }
}
