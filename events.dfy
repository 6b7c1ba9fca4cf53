/**
 * What a processor does to its writer, as a log of events. The writer of
 * the js-runner framework offers `buffer`, `string`, `stream` and `close`;
 * the timer waits a processor awaits between two writes (`setTimeout`,
 * `sleep`) are recorded in the same log so that their position relative to
 * the emissions is visible.
 */
module Events {

  newtype Byte = x: int | 0 <= x < 256

  type Bytes = seq<Byte>

  datatype Event =
    | Buffer(bytes: Bytes)         // writer.buffer(bytes)
    | Text(text: string)           // writer.string(text)
    | Stream(chunks: seq<Bytes>)   // writer.stream(chunks), drained in order
    | Pause(ms: int)               // a timer wait of ms milliseconds
    | Close                        // writer.close()

  /** An event that carries data downstream. */
  predicate IsPayload(e: Event)
  {
    e.Buffer? || e.Text? || e.Stream?
  }

  /** The data-carrying events of a log, in order. */
  function Payloads(log: seq<Event>): (r: seq<Event>)
    ensures |r| <= |log|
    ensures forall i :: 0 <= i < |r| ==> IsPayload(r[i])
  {
    if log == [] then []
    else if IsPayload(log[0]) then [log[0]] + Payloads(log[1..])
    else Payloads(log[1..])
  }

  /** The number of `close` calls in a log. */
  function Closes(log: seq<Event>): nat
  {
    if log == [] then 0
    else (if log[0].Close? then 1 else 0) + Closes(log[1..])
  }

  /** The number of timer waits in a log. */
  function Pauses(log: seq<Event>): nat
  {
    if log == [] then 0
    else (if log[0].Pause? then 1 else 0) + Pauses(log[1..])
  }

  /**
   * The lifecycle rule for a stage's downstream channel: the writer is
   * closed exactly once, and that close is the last thing that happens to it.
   */
  predicate ClosedOnceAtEnd(log: seq<Event>)
  {
    |log| > 0 && log[|log| - 1].Close? && Closes(log[..|log| - 1]) == 0
  }

  lemma {:induction false} PayloadsAppend(a: seq<Event>, b: seq<Event>)
    ensures Payloads(a + b) == Payloads(a) + Payloads(b)
  {
    if a == [] {
      assert a + b == b;
    } else {
      assert (a + b)[1..] == a[1..] + b;
      PayloadsAppend(a[1..], b);
    }
  }

  lemma {:induction false} ClosesAppend(a: seq<Event>, b: seq<Event>)
    ensures Closes(a + b) == Closes(a) + Closes(b)
  {
    if a == [] {
      assert a + b == b;
    } else {
      assert (a + b)[1..] == a[1..] + b;
      ClosesAppend(a[1..], b);
    }
  }

  lemma {:induction false} PausesAppend(a: seq<Event>, b: seq<Event>)
    ensures Pauses(a + b) == Pauses(a) + Pauses(b)
  {
    if a == [] {
      assert a + b == b;
    } else {
      assert (a + b)[1..] == a[1..] + b;
      PausesAppend(a[1..], b);
    }
  }

  /** A log made only of payloads is its own payload log and holds no close and no wait. */
  lemma {:induction false} AllPayloads(log: seq<Event>)
    requires forall i :: 0 <= i < |log| ==> IsPayload(log[i])
    ensures Payloads(log) == log && Closes(log) == 0 && Pauses(log) == 0
  {
    if log != [] {
      AllPayloads(log[1..]);
    }
  }

  /** Appending a close to a log without one satisfies the lifecycle rule. */
  lemma CloseOnce(log: seq<Event>)
    requires Closes(log) == 0
    ensures ClosedOnceAtEnd(log + [Close])
  {
    assert (log + [Close])[..|log|] == log;
  }

  /** The events a stage writes for its inputs: those for each input, one input after the other. */
  function FlatMap<T>(xs: seq<T>, f: T -> seq<Event>): seq<Event>
    decreases |xs|
  {
    if xs == [] then [] else FlatMap(xs[..|xs| - 1], f) + f(xs[|xs| - 1])
  }

  /** Inputs are handled independently: the events for a concatenation are the concatenation of the events. */
  lemma {:induction false} FlatMapAppend<T>(a: seq<T>, b: seq<T>, f: T -> seq<Event>)
    ensures FlatMap(a + b, f) == FlatMap(a, f) + FlatMap(b, f)
    decreases |b|
  {
    if b == [] {
      assert a + b == a;
    } else {
      var n := |b| - 1;
      FlatMapAppend(a, b[..n], f);
      assert (a + b)[..|a + b| - 1] == a + b[..n];
    }
  }

  /** One input in the middle of others contributes exactly its own events, in place. */
  lemma FlatMapIsolation<T>(a: seq<T>, x: T, b: seq<T>, f: T -> seq<Event>)
    ensures FlatMap(a + [x] + b, f) == FlatMap(a, f) + f(x) + FlatMap(b, f)
  {
    FlatMapAppend(a + [x], b, f);
    FlatMapAppend(a, [x], f);
    assert [x][..0] == [];
  }

  /** The events for a longer prefix of the inputs extend those for the shorter one. */
  lemma FlatMapSnoc<T>(xs: seq<T>, i: nat, f: T -> seq<Event>)
    requires i < |xs|
    ensures FlatMap(xs[..i + 1], f) == FlatMap(xs[..i], f) + f(xs[i])
  {
    assert xs[..i + 1][..i] == xs[..i];
  }

  /** A stage writing one event per input writes them in input order. */
  lemma {:induction false} FlatMapOne<T>(xs: seq<T>, f: T -> seq<Event>)
    requires forall x :: |f(x)| == 1
    ensures |FlatMap(xs, f)| == |xs|
    ensures forall i :: 0 <= i < |xs| ==> FlatMap(xs, f)[i] == f(xs[i])[0]
    decreases |xs|
  {
    if xs != [] {
      var n := |xs| - 1;
      FlatMapOne(xs[..n], f);
      assert forall i :: 0 <= i < n ==> xs[..n][i] == xs[i];
    }
  }

  /** A stage that writes only data and then closes emits exactly that data and closes once, last. */
  lemma PayloadStage(items: seq<Event>)
    requires forall i :: 0 <= i < |items| ==> IsPayload(items[i])
    ensures Payloads(items + [Close]) == items
    ensures Pauses(items + [Close]) == 0
    ensures ClosedOnceAtEnd(items + [Close])
  {
    AllPayloads(items);
    PayloadsAppend(items, [Close]);
    PausesAppend(items, [Close]);
    assert [Close][1..] == [];
    CloseOnce(items);
  }

  /**
   * The downstream end of a channel, as the processors see it: every call
   * appends one event to `events`.
   */
  class Writer {
    var events: seq<Event>

    constructor ()
      ensures events == []
    {
      events := [];
    }

    method Buffer(bytes: Bytes)
      modifies this
      ensures events == old(events) + [Event.Buffer(bytes)]
    {
      events := events + [Event.Buffer(bytes)];
    }

    method String(text: string)
      modifies this
      ensures events == old(events) + [Event.Text(text)]
    {
      events := events + [Event.Text(text)];
    }

    method Stream(chunks: seq<Bytes>)
      modifies this
      ensures events == old(events) + [Event.Stream(chunks)]
    {
      events := events + [Event.Stream(chunks)];
    }

    /** A timer wait the producing loop awaits before its next step. */
    method Sleep(ms: int)
      modifies this
      ensures events == old(events) + [Event.Pause(ms)]
    {
      events := events + [Event.Pause(ms)];
    }

    method Close()
      modifies this
      ensures events == old(events) + [Event.Close]
    {
      events := events + [Event.Close];
    }
  }
}
