/** The means-to-an-end price server: each connection reads 9-byte request
    frames, keeps its own store of timestamped prices (equal and ordered by
    timestamp alone), and answers range queries with a mean price. */
module PriceStore {
  import opened BigEndian

  const FrameLength: nat := 9

  /** Opcode byte 'I': insert a price. */
  const OpInsert: byte := 0x49

  /** Opcode byte 'Q': query the mean over a timestamp range. */
  const OpQuery: byte := 0x51

  /** A price at a point in time. */
  datatype Transaction = Transaction(amount: i32, timestamp: i32)

  datatype Ordering = Less | Equal | Greater

  /** `Ord::cmp` for transactions (lines 26-30): by timestamp only. */
  function Compare(a: Transaction, b: Transaction): Ordering {
    if a.timestamp < b.timestamp then Less
    else if a.timestamp == b.timestamp then Equal
    else Greater
  }

  /** `PartialEq::eq` for transactions (lines 14-18). */
  predicate SameTransaction(a: Transaction, b: Transaction) {
    a.timestamp == b.timestamp
  }

  /** Equality and order never look at the amount; equality agrees with the
      order, and the order is antisymmetric and transitive. */
  lemma OrderIgnoresAmount(a: Transaction, b: Transaction, c: Transaction, x: i32, y: i32)
    ensures Compare(a.(amount := x), b.(amount := y)) == Compare(a, b)
    ensures SameTransaction(a.(amount := x), b.(amount := y)) == SameTransaction(a, b)
    ensures SameTransaction(a, b) <==> Compare(a, b) == Equal
    ensures Compare(a, b) == Less <==> Compare(b, a) == Greater
    ensures Compare(a, b) == Less && Compare(b, c) == Less ==> Compare(a, c) == Less
  {
  }

  /** The store as the set keeps it: strictly ascending by timestamp. */
  predicate Ordered(s: seq<Transaction>) {
    forall i, j :: 0 <= i < j < |s| ==> Compare(s[i], s[j]) == Less
  }

  /** An ordered store holds at most one transaction per timestamp. */
  lemma OnePerTimestamp(s: seq<Transaction>, i: nat, j: nat)
    requires Ordered(s)
    requires i < |s| && j < |s| && s[i].timestamp == s[j].timestamp
    ensures i == j
  {
  }

  /** Whether the store holds a transaction equal to `t`. */
  predicate HasTimestamp(s: seq<Transaction>, ts: i32) {
    exists u :: u in s && u.timestamp == ts
  }

  /** `RotatedArraySet::insert`. Which of two equal transactions the set
      keeps is the crate's choice, so `replaceEqual` says whether the new
      one overwrites the old. */
  function Insert(s: seq<Transaction>, t: Transaction, replaceEqual: bool): (r: seq<Transaction>)
    requires Ordered(s)
    ensures Ordered(r)
    ensures forall u :: u in r ==> u in s || u == t
    ensures forall u :: u in s && u.timestamp != t.timestamp ==> u in r
    ensures HasTimestamp(r, t.timestamp)
    ensures !HasTimestamp(s, t.timestamp) ==> t in r && |r| == |s| + 1
    ensures HasTimestamp(s, t.timestamp) ==> |r| == |s| && (if replaceEqual then t in r else r == s)
  {
    if s == [] then [t]
    else if Compare(t, s[0]) == Less then
      LaterThanHead(s);
      PrependSmaller(t, s);
      [t] + s
    else if Compare(t, s[0]) == Equal then
      LaterThanHead(s);
      PrependSmaller(t, s[1..]);
      assert s == [s[0]] + s[1..];
      assert HasTimestamp(s, t.timestamp) by { assert s[0] in s; }
      if replaceEqual then [t] + s[1..] else s
    else
      var rest := Insert(s[1..], t, replaceEqual);
      LaterThanHead(s);
      PrependSmaller(s[0], rest);
      assert s == [s[0]] + s[1..];
      [s[0]] + rest
  }

  /** In an ordered store every later entry has a larger timestamp than
      the first. */
  lemma LaterThanHead(s: seq<Transaction>)
    requires Ordered(s) && s != []
    ensures forall u :: u in s[1..] ==> s[0].timestamp < u.timestamp
    ensures Ordered(s[1..])
  {
    forall u | u in s[1..] ensures s[0].timestamp < u.timestamp {
      var k :| 0 <= k < |s[1..]| && s[1..][k] == u;
      assert Compare(s[0], s[k + 1]) == Less;
    }
  }

  /** A transaction earlier than everything in an ordered store can go in
      front of it, and its timestamp was not there yet. */
  lemma PrependSmaller(t: Transaction, s: seq<Transaction>)
    requires Ordered(s)
    requires forall u :: u in s ==> t.timestamp < u.timestamp
    ensures Ordered([t] + s)
    ensures !HasTimestamp(s, t.timestamp)
  {
    forall i, j | 0 <= i < j < |[t] + s| ensures Compare(([t] + s)[i], ([t] + s)[j]) == Less {
      if i > 0 {
        assert ([t] + s)[i] == s[i - 1];
      }
      assert ([t] + s)[j] == s[j - 1];
    }
  }

  /** Transactions with `lo <= timestamp <= hi`, both ends included, in
      store order. */
  function InRange(s: seq<Transaction>, lo: i32, hi: i32): (r: seq<Transaction>)
    ensures |r| <= |s|
    ensures forall u :: u in r <==> u in s && lo <= u.timestamp <= hi
  {
    if s == [] then []
    else (if lo <= s[0].timestamp <= hi then [s[0]] else []) + InRange(s[1..], lo, hi)
  }

  lemma {:induction false} InRangeAppend(s: seq<Transaction>, t: Transaction, lo: i32, hi: i32)
    ensures InRange(s + [t], lo, hi) == InRange(s, lo, hi) + (if lo <= t.timestamp <= hi then [t] else [])
  {
    if s == [] {
      assert [] + [t] == [t];
    } else {
      assert (s + [t])[1..] == s[1..] + [t];
      InRangeAppend(s[1..], t, lo, hi);
    }
  }

  function Amounts(ts: seq<Transaction>): (r: seq<i32>)
    ensures |r| == |ts|
  {
    seq(|ts|, i requires 0 <= i < |ts| => ts[i].amount)
  }

  /** The answer a query owes: 0 for an empty or inverted range, the single
      price when exactly one matches, and otherwise `mean` of the matching
      prices in store order. `mean` stands for the floating-point running
      mean and its cast back to `i32`. */
  function QueryAnswer(store: seq<Transaction>, lo: i32, hi: i32, mean: seq<i32> -> i32): i32 {
    if lo > hi then 0
    else
      var prices := Amounts(InRange(store, lo, hi));
      if |prices| == 0 then 0 else if |prices| == 1 then prices[0] else mean(prices)
  }

  /** `evaluate_query` (lines 102-126): bounds from bytes 1-4 and 5-8, a scan
      of the store counting matches from 1, and the answer. The guard for a
      zero count is unreachable: the count is always one more than the
      number of matches. */
  method EvaluateQuery(frame: seq<byte>, store: seq<Transaction>, mean: seq<i32> -> i32) returns (answer: i32)
    requires |frame| == FrameLength
    ensures var lo := FromBeBytes(frame[1..5]); var hi := FromBeBytes(frame[5..9]);
      var prices := Amounts(InRange(store, lo, hi));
      && (lo > hi ==> answer == 0)
      && (|prices| == 0 ==> answer == 0)
      && (lo <= hi && |prices| == 1 ==> answer == prices[0])
      && (lo <= hi && |prices| >= 2 ==> answer == mean(prices))
    ensures answer == QueryAnswer(store, FromBeBytes(frame[1..5]), FromBeBytes(frame[5..9]), mean)
  {
    var lo := FromBeBytes(frame[1..5]);
    var hi := FromBeBytes(frame[5..9]);
    if lo > hi {
      return 0;
    }
    var matched: seq<Transaction> := [];
    var entries: nat := 1;
    var i := 0;
    while i < |store|
      invariant 0 <= i <= |store|
      invariant matched == InRange(store[..i], lo, hi)
      invariant entries == 1 + |matched|
    {
      var t := store[i];
      assert store[..i + 1] == store[..i] + [t];
      InRangeAppend(store[..i], t, lo, hi);
      if t.timestamp >= lo && t.timestamp <= hi {
        matched := matched + [t];
        entries := entries + 1;
      }
      i := i + 1;
    }
    assert store[..|store|] == store;
    if entries == 0 {
      assert false;
    }
    var prices := Amounts(matched);
    answer := if |prices| == 0 then 0 else if |prices| == 1 then prices[0] else mean(prices);
  }

  /** `evaluate_transaction` (lines 95-100): timestamp from bytes 1-4,
      amount from bytes 5-8. */
  function DecodeTransaction(frame: seq<byte>): Transaction
    requires |frame| == FrameLength
  {
    Transaction(FromBeBytes(frame[5..9]), FromBeBytes(frame[1..5]))
  }

  /** A request frame as a client builds it. */
  function EncodeFrame(op: byte, first: i32, second: i32): (f: seq<byte>)
    ensures |f| == FrameLength
  {
    [op] + ToBeBytes(first) + ToBeBytes(second)
  }

  /** An insert frame built from a timestamp and a price decodes to that
      transaction; every frame is rebuilt from its opcode and two fields. */
  lemma FrameRoundTrip(ts: i32, amount: i32, frame: seq<byte>)
    requires |frame| == FrameLength
    ensures DecodeTransaction(EncodeFrame(OpInsert, ts, amount)) == Transaction(amount, ts)
    ensures EncodeFrame(frame[0], FromBeBytes(frame[1..5]), FromBeBytes(frame[5..9])) == frame
  {
    var f := EncodeFrame(OpInsert, ts, amount);
    assert f[1..5] == ToBeBytes(ts);
    assert f[5..9] == ToBeBytes(amount);
    ReadWrite(ts);
    ReadWrite(amount);
    WriteRead(frame[1..5]);
    WriteRead(frame[5..9]);
    assert frame == [frame[0]] + frame[1..5] + frame[5..9];
  }

  /** One pass of the connection loop (lines 55-88) on a whole frame: the
      new store and the bytes written back. */
  function Handle(frame: seq<byte>, store: seq<Transaction>, mean: seq<i32> -> i32, replaceEqual: bool)
    : (r: (seq<Transaction>, seq<byte>))
    requires |frame| == FrameLength && Ordered(store)
    ensures Ordered(r.0)
    ensures frame[0] == OpInsert ==> r.0 == Insert(store, DecodeTransaction(frame), replaceEqual) && r.1 == []
    ensures frame[0] == OpQuery ==>
      && r.0 == store
      && |r.1| == 4
      && FromBeBytes(r.1) == QueryAnswer(store, FromBeBytes(frame[1..5]), FromBeBytes(frame[5..9]), mean)
    ensures frame[0] != OpInsert && frame[0] != OpQuery ==> r.0 == store && r.1 == []
  {
    if frame[0] == OpInsert then
      (Insert(store, DecodeTransaction(frame), replaceEqual), [])
    else if frame[0] == OpQuery then
      var answer := QueryAnswer(store, FromBeBytes(frame[1..5]), FromBeBytes(frame[5..9]), mean);
      ReadWrite(answer);
      (store, ToBeBytes(answer))
    else
      (store, [])
  }

  /** The connection loop over everything the client sends: whole frames
      are handled in order; a trailing partial frame ends the connection. */
  function Serve(input: seq<byte>, store: seq<Transaction>, mean: seq<i32> -> i32, replaceEqual: bool)
    : (r: (seq<Transaction>, seq<byte>))
    requires Ordered(store)
    ensures Ordered(r.0)
    decreases |input|
  {
    if |input| < FrameLength then (store, [])
    else
      var step := Handle(input[..FrameLength], store, mean, replaceEqual);
      var rest := Serve(input[FrameLength..], step.0, mean, replaceEqual);
      (rest.0, step.1 + rest.1)
  }

  /** Number of whole frames in `input` whose opcode is 'Q'. */
  function QueryCount(input: seq<byte>): nat
    decreases |input|
  {
    if |input| < FrameLength then 0
    else (if input[0] == OpQuery then 1 else 0) + QueryCount(input[FrameLength..])
  }

  /** Whether every whole frame in `input` has an opcode other than 'I'
      and 'Q'. */
  predicate OnlyUnknownOpcodes(input: seq<byte>)
    decreases |input|
  {
    |input| < FrameLength ||
      (input[0] != OpInsert && input[0] != OpQuery && OnlyUnknownOpcodes(input[FrameLength..]))
  }

  /** The server writes exactly four bytes per query frame and nothing
      else; frames with other opcodes change nothing. */
  lemma {:induction false} ServeOutput(input: seq<byte>, store: seq<Transaction>, mean: seq<i32> -> i32, replaceEqual: bool)
    requires Ordered(store)
    ensures |Serve(input, store, mean, replaceEqual).1| == 4 * QueryCount(input)
    ensures OnlyUnknownOpcodes(input) ==> Serve(input, store, mean, replaceEqual) == (store, [])
    decreases |input|
  {
    if |input| >= FrameLength {
      var step := Handle(input[..FrameLength], store, mean, replaceEqual);
      ServeOutput(input[FrameLength..], step.0, mean, replaceEqual);
    }
  }

  /** One pass of the connection loop: the first frame is handled, then
      the rest of the stream against the store it leaves. */
  lemma ServeStep(input: seq<byte>, store: seq<Transaction>, mean: seq<i32> -> i32, replaceEqual: bool)
    requires Ordered(store) && |input| >= FrameLength
    ensures var step := Handle(input[..FrameLength], store, mean, replaceEqual);
      var rest := Serve(input[FrameLength..], step.0, mean, replaceEqual);
      Serve(input, store, mean, replaceEqual) == (rest.0, step.1 + rest.1)
  {
  }

  /** An empty prefix contributes nothing. */
  lemma ServeConcatEmpty(b: seq<byte>, store: seq<Transaction>, mean: seq<i32> -> i32, replaceEqual: bool)
    requires Ordered(store)
    ensures var first := Serve([], store, mean, replaceEqual);
      var second := Serve(b, first.0, mean, replaceEqual);
      Serve([] + b, store, mean, replaceEqual) == (second.0, first.1 + second.1)
  {
    assert [] + b == b;
    assert [] + Serve(b, store, mean, replaceEqual).1 == Serve(b, store, mean, replaceEqual).1;
  }

  /** Regrouping of the replies: the first frame's, then the rest of the
      prefix's, then the suffix's. */
  lemma ReplyRegroup<S>(whole: (S, seq<byte>), prefix: (S, seq<byte>), head: seq<byte>, mid: (S, seq<byte>), tail: (S, seq<byte>))
    requires prefix == (mid.0, head + mid.1)
    requires whole == (tail.0, head + (mid.1 + tail.1))
    ensures whole == (tail.0, prefix.1 + tail.1)
  {
    assert head + (mid.1 + tail.1) == (head + mid.1) + tail.1;
  }

  /** A prefix of whole frames splits into its first frame and the rest. */
  lemma ServeConcatStep(a: seq<byte>, b: seq<byte>, store: seq<Transaction>, mean: seq<i32> -> i32, replaceEqual: bool)
    requires Ordered(store) && |a| >= FrameLength
    requires var step := Handle(a[..FrameLength], store, mean, replaceEqual);
      var first := Serve(a[FrameLength..], step.0, mean, replaceEqual);
      var second := Serve(b, first.0, mean, replaceEqual);
      Serve(a[FrameLength..] + b, step.0, mean, replaceEqual) == (second.0, first.1 + second.1)
    ensures var first := Serve(a, store, mean, replaceEqual);
      var second := Serve(b, first.0, mean, replaceEqual);
      Serve(a + b, store, mean, replaceEqual) == (second.0, first.1 + second.1)
  {
    var step := Handle(a[..FrameLength], store, mean, replaceEqual);
    var mid := Serve(a[FrameLength..], step.0, mean, replaceEqual);
    var tail := Serve(b, mid.0, mean, replaceEqual);
    var prefix := Serve(a, store, mean, replaceEqual);
    ServeStep(a, store, mean, replaceEqual);
    var ab := a + b;
    assert ab[..FrameLength] == a[..FrameLength];
    assert ab[FrameLength..] == a[FrameLength..] + b;
    ServeStep(ab, store, mean, replaceEqual);
    ReplyRegroup(Serve(ab, store, mean, replaceEqual), prefix, step.1, mid, tail);
  }

  /** The connection is served frame by frame: a stream that starts with
      whole frames `a` gives the replies to `a`, then the replies to the
      rest `b` against the store `a` left behind. With `Handle`'s contract
      this pins down every reply byte, not only their number. */
  lemma {:induction false} ServeConcat(a: seq<byte>, b: seq<byte>, store: seq<Transaction>, mean: seq<i32> -> i32, replaceEqual: bool)
    requires Ordered(store)
    requires |a| % FrameLength == 0
    ensures var first := Serve(a, store, mean, replaceEqual);
      var second := Serve(b, first.0, mean, replaceEqual);
      Serve(a + b, store, mean, replaceEqual) == (second.0, first.1 + second.1)
    decreases |a|
  {
    if a == [] {
      ServeConcatEmpty(b, store, mean, replaceEqual);
    } else {
      assert |a| >= FrameLength;
      var step := Handle(a[..FrameLength], store, mean, replaceEqual);
      ServeConcat(a[FrameLength..], b, step.0, mean, replaceEqual);
      ServeConcatStep(a, b, store, mean, replaceEqual);
    }
  }
}
