# Budget chat room and means-to-an-end price store, in Dafny

This project models two small TCP servers from a Protohackers
collection and proves properties of the models.

**Budget chat** (`0003_budget_chat`). This is a line-oriented chat room.
- A client connects and sends a name. The server checks it: 1 to 50 ASCII
  letters or digits, and not already in use.
- An accepted client joins a single shared room. The room maps each member
  name to a mailbox, which is a first-in first-out list of lines waiting to
  be written to that member.
- Admission gives the newcomer a roster line and tells every existing member
  that the newcomer entered.
- Each line a member sends is relayed as `[name] line` to every other member.
- When the member disconnects, or sends an empty or non-ASCII line, the
  member is removed and the others are told it left.
- A per-member writer thread pops its mailbox head and writes that line.
  It stops once the member's name is gone from the room.

The model is a `map<string, seq<string>>`. Every write-locked section of the
server is one atomic transition on it. `HashMap` iteration order is an
explicit parameter: any list of the keys, each key once.

**Means to an end** (`0002_means_to_an_end`). This is a binary price server.
- Each request is a 9-byte frame. Byte 0 is the opcode: `'I'` (0x49) or
  `'Q'` (0x51). Bytes 1-4 and 5-8 are two big-endian signed 32-bit integers.
- An insert frame stores the pair (timestamp, price) in a per-connection
  ordered set. Transactions compare and are equal by timestamp alone.
- A query frame asks for the mean price over an inclusive timestamp range.
  The answer goes back as 4 big-endian bytes.
- Any other opcode is skipped.

The model covers the byte codec, the store as a sequence strictly ascending
by timestamp, the range filter and its edge cases, opcode dispatch, and the
connection loop over a byte stream.

Files:
- `wrappers.dfy`: `Option`.
- `chat_text.dfy`: name and message rules, line-break removal, roster text.
- `chat_room.dfy`: room transitions, the writer loop, and the duplicate-name
  finding.
- `chat_session.dfy`: the reader thread, interleavings of many sessions,
  and the two-client exchange.
- `chat_locking.dfy`: the write-locked sections as the source splits them,
  the lock poisoned by a panicking writer, and the corrected atomic pop.
- `big_endian.dfy`: `i32` big-endian codec.
- `price_store.dfy`: the price server.

## Model

| member | source | states |
|---|---|---|
| ChatText.IsValidUsername | 0003_budget_chat/src/main.rs:155-161 | The name check as written: the UTF-8 byte length is from 1 to 50, the string is ASCII, and every character is alphanumeric. Its meaning is stated by `ChatText.UsernameRule` and `ChatText.Utf8LenBounds`. |
| ChatText.Utf8LenBounds | 0003_budget_chat/src/main.rs:156 | `str::len` counts UTF-8 bytes. That count is at least the character count, and equal to it exactly for ASCII strings. |
| ChatText.UsernameRule | 0003_budget_chat/src/main.rs:155-161 | A name is accepted if and only if it has 1 to 50 characters and each is an ASCII letter or digit. Both directions are proved. |
| ChatText.UsernameExamples | 0003_budget_chat/src/main.rs:155-161 | `Bob123` is accepted. The empty name and `bob!` are rejected. |
| ChatText.ValidNameIsRosterName | 0003_budget_chat/src/main.rs:155-161 | An accepted name is non-empty and contains no comma, so it can stand in the comma-separated roster. |
| ChatText.IsValidMessage | 0003_budget_chat/src/main.rs:163-165 | The line check as written: ASCII, with a byte length of at least 1. Its meaning is stated by `ChatText.MessageRule`. |
| ChatText.MessageRule | 0003_budget_chat/src/main.rs:163-165 | A chat line is accepted if and only if it is non-empty and all ASCII. |
| ChatText.RemoveChar | 0003_budget_chat/src/main.rs:52 | `replace(c, "")` leaves no `c` in the result. Every character of the result comes from the input. |
| ChatText.RemoveCharCounts | 0003_budget_chat/src/main.rs:52 | Removing `c` keeps the number of occurrences of every other character. |
| ChatText.RemoveCharAppend | 0003_budget_chat/src/main.rs:52 | Removal acts piece by piece on a concatenation, so the order of the other characters is kept. |
| ChatText.RemoveCharCommutes | 0003_budget_chat/src/main.rs:119 | Removing two characters gives the same string in either order. |
| ChatText.StripLineBreaks | 0003_budget_chat/src/main.rs:52 | The cleaned name line contains neither `\r` nor `\n`. |
| ChatText.StripOrderIrrelevant | 0003_budget_chat/src/main.rs:119 | The chat-line cleaning (`\n` first, then `\r`) gives the same result as the name-line cleaning (`\r` first, then `\n`). |
| ChatText.StripLineBreaksFacts | 0003_budget_chat/src/main.rs:52 | Cleaning keeps every other character with its count and works piecewise. A line without breaks is unchanged. Cleaning twice equals cleaning once. |
| ChatText.StripLineBreaksExample | 0003_budget_chat/src/main.rs:52 | Breaks in the middle of a line are removed too: `a\rb\n` becomes `ab`. |
| ChatText.RosterRoundTrip | 0003_budget_chat/src/main.rs:74 | A roster joined with `", "` from non-empty, comma-free names reads back as exactly those names, in order. |
| ChatRoom.Notify | 0003_budget_chat/src/main.rs:126-133 | The fan-out loop, run over any enumeration of the keys, equals the reference fan-out. Every mailbox outside the skip set gets the line once at its end. The others are unchanged. |
| ChatRoom.Admit | 0003_budget_chat/src/main.rs:65-75 | The key set becomes the old keys plus the newcomer. The newcomer's mailbox is exactly one line: `* The room contains: ` followed by the pre-existing keys joined with `, `. Every other member gets `* <name> has entered the room` at its end. Nothing else changes. |
| ChatRoom.Broadcast | 0003_budget_chat/src/main.rs:126-133 | Every member except the sender gets `[<sender>] <msg>` at its end. The sender's mailbox and the key set are unchanged. |
| ChatRoom.Leave | 0003_budget_chat/src/main.rs:136-141 | The departing name is removed, whether or not it was present. Each remaining member gets exactly one `* <name> has left the room` at its end. |
| ChatRoom.PopHead | 0003_budget_chat/src/main.rs:96-97 | A pop succeeds exactly when the member exists and has mail. The head followed by the new mailbox is the old mailbox. The key set and all other mailboxes are unchanged. |
| ChatRoom.Outbound | 0003_budget_chat/src/main.rs:81-104 | The writer loop with no other thread acting: probe under the read lock, sleep when idle, pop and write when mail is pending, stop when the name is gone. Its contract is stated by `ChatRoom.OutboundIsFifo` and `ChatRoom.OutboundStopsAfterLeave`. |
| ChatRoom.OutboundIsFifo | 0003_budget_chat/src/main.rs:81-104 | With no other activity, `n` iterations of the writer loop write the first `min(n, pending)` lines in order. The rest stay queued in order. The loop does not stop while the member is present. |
| ChatRoom.OutboundStopsAfterLeave | 0003_budget_chat/src/main.rs:82-87 | Once the name is no longer a key, the writer loop stops and writes nothing. |
| ChatRoom.DuplicateNameRace | 0003_budget_chat/src/main.rs:56-75 | As written, two connections claiming `carol` in an empty room can both pass the check. Both admissions then run. The room ends with one `carol` entry whose only line is `* The room contains: carol`. |
| ChatRoom.TryAdmit | 0003_budget_chat/src/main.rs:56-75 | With the check inside the atomic step, admission happens if and only if the name is valid and absent. The key set is then the old keys plus that name, and the rest is as in `Admit`. It keeps every registered name valid. |
| ChatRoom.SecondClaimRefused | 0003_budget_chat/src/main.rs:57 | With the atomic check, once a name has been admitted, any later claim on the same name is refused. So of two claims on one name, only the first gets in. |
| ChatRoom.AdmitRosterListsMembers | 0003_budget_chat/src/main.rs:66-74 | In a room of valid names, the newcomer's roster line parses back to exactly the members present before it joined. |
| ChatRoom.TransitionsKeepWellFormed | 0003_budget_chat/src/main.rs:126-141 | Broadcast, departure and pop keep every registered name valid. |
| ChatSession.InboundStep | 0003_budget_chat/src/main.rs:113-141 | One pass of the reader loop, or its exit path. Its contract is stated by `ChatSession.InboundStepRule`. |
| ChatSession.RunInbound | 0003_budget_chat/src/main.rs:113-141 | The reader loop over a sequence of reads. Its contract is stated by `ChatSession.InboundOutcome` and `ChatSession.InboundSession`. |
| ChatSession.InboundStepRule | 0003_budget_chat/src/main.rs:113-133 | A failed read, or a line that is empty or non-ASCII after cleaning, takes the exit path. Any other line is broadcast as its cleaned text, and the loop continues. |
| ChatSession.InboundOutcome | 0003_budget_chat/src/main.rs:113-141 | The reader loop ends exactly when some read ends it. The member is removed exactly then. Until then its own mailbox is untouched, so its own lines never reach it. |
| ChatSession.InboundSession | 0003_budget_chat/src/main.rs:113-141 | Every other member receives the session's chat lines in order. If the session ended, it then receives exactly one departure notice. |
| ChatSession.Apply | 0003_budget_chat/src/main.rs:65-141 | One step of some session, using the corrected sections: admission takes the name check in the same step, and a write takes its probe and pop in one step. Its contract is stated by `ChatSession.ApplyKeepsOrder` and `ChatSession.MailboxFifo`. `ChatLocking.CorrectedStepIsApply` ties it to the corrected lock sections. |
| ChatSession.ApplyKeepsOrder | 0003_budget_chat/src/main.rs:65-141 | Each step of any session either appends the protocol's lines to a member's mailbox or, for that member's own write, removes exactly its head. |
| ChatSession.MailboxFifo | 0003_budget_chat/src/main.rs:94-103 | Take any interleaving of admissions, chat lines, departures and writes, with admission and write in their corrected atomic form. The lines written to a member, followed by its pending lines, equal its initial mailbox followed by every line queued for it, in queue order. |
| ChatSession.AliceBobScenario | 0003_budget_chat/src/main.rs:65-141 | alice joins an empty room, then bob joins. bob's roster names alice, and alice is told bob entered. alice's `hi\r\n` reaches bob only, as `[alice] hi`. bob leaves, and only alice is told. |
| ChatSession.ScenarioTexts | 0003_budget_chat/src/main.rs:71-140 | The lines of the exchange as the clients read them: `* The room contains: `, `* The room contains: alice`, `* bob has entered the room`, `[alice] hi` and `* bob has left the room`. These are the formats at lines 71, 74, 131 and 140. |
| ChatLocking.Step | 0003_budget_chat/src/main.rs:82-97 | One write-locked section, as the source splits them. Admission has no name check of its own. A pop trusts an earlier read-locked probe, and poisons the lock when the member is gone or has no mail. With `atomicPop` the pop leaves such a mailbox alone. Its contract is stated by the lemmas below. |
| ChatLocking.PoisonIsPermanent | 0003_budget_chat/src/main.rs:96 | Once the lock is poisoned it stays poisoned whatever any thread does, because every later `read().unwrap()` or `write().unwrap()` panics. |
| ChatLocking.DepartureBetweenProbeAndPop | 0003_budget_chat/src/main.rs:82-97 | As written: alice's writer sees one pending line. alice then disconnects, and her reader removes her before the writer takes the write lock. The pop panics, and the lock is poisoned for every later section. |
| ChatLocking.SharedEntryPopRace | 0003_budget_chat/src/main.rs:82-97 | As written: after the duplicate-name race, the two `carol` writers share one entry holding one line, and both see it pending. The second pop finds it empty and poisons the lock. |
| ChatLocking.AtomicPopNeverPoisons | 0003_budget_chat/src/main.rs:82-97 | Corrected: with the probe repeated inside the pop's write section, no sequence of admissions, reads and pops ever poisons the lock. This holds by construction, since the atomic pop has no poisoning outcome. The content of the corrected half is in `ChatLocking.CorrectedStepIsApply` together with `ChatSession.MailboxFifo`. |
| ChatLocking.CorrectedStepIsApply | 0003_budget_chat/src/main.rs:65-141 | The corrected sections are exactly the steps of the session model. An atomic pop is a write, and a read is a chat line or, when the read fails, a departure. An admission that passes the name check is a join. So `ChatSession.MailboxFifo` holds for the corrected server. |
| BigEndian.FromBeBytes | 0002_means_to_an_end/src/main.rs:97 | `i32::from_be_bytes`: four bytes, most significant first, read as two's complement. Its contract is stated by `BigEndian.SignBit`, `BigEndian.ReadWrite` and `BigEndian.WriteRead`. |
| BigEndian.ToBeBytes | 0002_means_to_an_end/src/main.rs:75 | `i32::to_be_bytes`: always four bytes, and the inverse of `FromBeBytes` in both directions, as `BigEndian.ReadWrite` and `BigEndian.WriteRead` state. |
| BigEndian.SignBit | 0002_means_to_an_end/src/main.rs:97 | A decoded `i32` is negative exactly when the top bit of its first byte is set. |
| BigEndian.ReadWrite | 0002_means_to_an_end/src/main.rs:75 | Encoding an `i32` with `to_be_bytes` and decoding with `from_be_bytes` gives the value back. |
| BigEndian.WriteRead | 0002_means_to_an_end/src/main.rs:95-100 | Decoding any 4 bytes and encoding the value again gives the same bytes. |
| PriceStore.SameTransaction | 0002_means_to_an_end/src/main.rs:14-18 | `PartialEq` of a transaction. Its contract is stated by `PriceStore.OrderIgnoresAmount`. |
| PriceStore.Compare | 0002_means_to_an_end/src/main.rs:26-30 | `Ord::cmp` of a transaction. Its contract is stated by `PriceStore.OrderIgnoresAmount`. |
| PriceStore.OrderIgnoresAmount | 0002_means_to_an_end/src/main.rs:14-30 | Equality and ordering of transactions ignore the amount. Equality agrees with the ordering, and the ordering is antisymmetric and transitive. |
| PriceStore.OnePerTimestamp | 0002_means_to_an_end/src/main.rs:53 | An ordered store holds at most one transaction per timestamp. |
| PriceStore.Insert | 0002_means_to_an_end/src/main.rs:70 | Insert keeps the store ordered and keeps every transaction with another timestamp. Afterwards the store has the new timestamp. A fresh timestamp adds exactly the new transaction. For an existing timestamp the size is unchanged, and the store either takes the new transaction or stays as it was. |
| PriceStore.InRange | 0002_means_to_an_end/src/main.rs:114-119 | A transaction contributes if and only if it is in the store and `min <= timestamp <= max`, inclusive at both ends. |
| PriceStore.EvaluateQuery | 0002_means_to_an_end/src/main.rs:102-126 | `min > max` gives 0, and no match gives 0. Exactly one match gives that price. Two or more give `mean` of the matching prices in store order. The loop keeps `entries == 1 + matches`, so the `entries == 0` guard is unreachable. |
| PriceStore.DecodeTransaction | 0002_means_to_an_end/src/main.rs:95-100 | The insert frame decoder. Its contract is stated by `PriceStore.FrameRoundTrip`. |
| PriceStore.FrameRoundTrip | 0002_means_to_an_end/src/main.rs:95-100 | An insert frame built from (timestamp, price) decodes to exactly that transaction: timestamp from bytes 1-4, price from bytes 5-8. Every frame is its opcode followed by its two re-encoded fields. |
| PriceStore.Handle | 0002_means_to_an_end/src/main.rs:65-88 | `I` inserts the decoded transaction and writes nothing. `Q` leaves the store unchanged and writes 4 bytes that decode to the query answer. Any other opcode changes nothing and writes nothing. |
| PriceStore.Serve | 0002_means_to_an_end/src/main.rs:55-89 | The connection loop keeps the store ordered. A trailing partial frame ends the connection. The length of its output is stated by `PriceStore.ServeOutput`, and its contents by `PriceStore.ServeConcat` with `PriceStore.Handle`. |
| PriceStore.ServeOutput | 0002_means_to_an_end/src/main.rs:55-89 | Over a whole byte stream, the server writes exactly 4 bytes per `Q` frame. A stream with only other opcodes leaves the store unchanged and gets no reply. |
| PriceStore.ServeConcat | 0002_means_to_an_end/src/main.rs:55-89 | The loop serves the stream frame by frame. For a prefix `a` of whole frames, serving `a + b` gives the store and replies of serving `b` after `a`, and the replies of `a` come first. So each frame's reply is the one `PriceStore.Handle` states for the store left by the frames before it. |

## Left out

- Sockets are not modelled: listeners, port parsing, `BufReader`, `write_all`, read and write timeouts, `shutdown`, and logging with `println!`. A read is a `ReadResult` (`Received(text)` or `Failed`). Write failures are not modelled.
- The thread pool, the two threads per chat session and their `join` are not modelled. Of the `RwLock`, blocking and mutual exclusion are not modelled: each locked section is one atomic transition. Poisoning is modelled, in `ChatLocking`. `ChatSession.MailboxFifo` covers interleavings of the corrected sections, not of the sections as written (see the `ChatSession.Apply` line below).
- The writer thread's 100 ms sleep when the mailbox is empty is an idle iteration in `Outbound`.
- `HashMap` iteration order is a `keys` parameter. It is required to list every key exactly once, which is all the source relies on.
- ChatRoom.Outbound: it assumes no other thread acts during its run, so its pop always finds the line its probe saw. The window between the read-locked probe (lines 82-91) and the write-locked pop (lines 96-97) is modelled in `ChatLocking`. There, a pop that finds the member gone or its mailbox empty panics with the write guard held. That poisons the `RwLock`, and every later lock acquisition in every thread panics (see Findings).
- ChatSession.Apply: it uses the corrected sections. Admission takes the name check in the same step (`ChatRoom.TryAdmit`), and a write takes its probe and pop in one step. So `ChatSession.MailboxFifo` is proved for the corrected server, not for the split sections as written. The as-written sections and their two failure modes are `ChatRoom.DuplicateNameRace` and the `ChatLocking` lemmas.
- What a panic does to the rest of the process is not modelled beyond the poisoned lock. For a new connection with a valid name, the check at line 57 then panics inside a thread-pool job. An invalid name returns first, because the `||` at line 57 short-circuits. Under the pool's default panic handling that would end the process.
- Unicode letters and digits accepted by `char::is_alphanumeric` are not modelled. The source asks `is_alphanumeric` only of strings that already passed `is_ascii`, so only ASCII letters and digits matter.
- `read_line` failing on bytes that are not UTF-8 is the `Failed` read.
- PriceStore.EvaluateQuery: with two or more matches, the answer is only `mean(prices)`, an uninterpreted parameter. The `f64` running mean and its `as i32` cast are floating point and are not modelled. The zero-match and one-match answers are exact in the source and are stated exactly.
- PriceStore.Insert: when an equal-timestamp transaction is already stored, the flag `replaceEqual` says whether the new one replaces it. `RotatedArraySet` is a third-party crate and is not part of this model.
- The byte-echo server (`0000_smoke_test`) and the JSON primality server (`0001_prime_time`) are not modelled. The first is pure I/O. The second is JSON parsing plus a third-party primality test.
- Three details follow the code exactly:
  - `\r` and `\n` are removed anywhere in a line, not only at its end.
  - A writer pops and writes one line per iteration.
  - The duplicate-name check is not atomic with the admission (see Findings).

## Findings

| source | as written | input that shows it | evidently intended | confidence | as-written member | corrected member |
|---|---|---|---|---|---|---|
| 0003_budget_chat/src/main.rs:57-74 | The name check runs under a read lock at line 57. The admission runs under a separate write lock at lines 67-74, and `HashMap::insert` overwrites an existing entry. | Two connections send `carol` to an empty room, and both pass line 57 before either takes the write lock. Both are admitted into one shared entry. The second admission replaces the first's roster line with `* The room contains: carol`, which lists carol to herself. | Exactly one of two simultaneous claims on a name is admitted. The other is closed without joining. | not executed; the window needs two connections to race between lines 57 and 67 | ChatRoom.DuplicateNameRace | ChatRoom.TryAdmit |
| 0003_budget_chat/src/main.rs:82-97 | The writer probes its mailbox under a read lock at lines 82-91 and releases it. It then takes the write lock at line 96, and at line 97 calls `unwrap` on the entry and `remove(0)` on the mailbox. A panic there poisons the `RwLock`. Every later `read().unwrap()` or `write().unwrap()` (lines 57, 67, 82, 96, 126, 136) then panics. | alice has one pending line and her writer's probe sees it. She disconnects, and her reader removes her at line 137 before the writer reaches line 96. The `unwrap` panics. A second input: the two `carol` writers left by the duplicate-name race both probe their shared one-line mailbox, and the second `remove(0)` panics. | A member who leaves, or a mailbox emptied by another thread, makes the writer stop. The room stays usable. The corrected steps are exactly `ChatSession.Apply` (`ChatLocking.CorrectedStepIsApply`), for which `ChatSession.MailboxFifo` proves first-in first-out delivery. | not executed; the window needs a disconnect to land between lines 91 and 96 | ChatLocking.DepartureBetweenProbeAndPop | ChatLocking.AtomicPopNeverPoisons |
