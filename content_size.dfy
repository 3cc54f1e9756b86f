/**
 * The content-size guard: it wraps the channel an HTTP request's body
 * arrives on, adds up the body bytes of every body message it hands on, and
 * fails with a 413 error once that running total is more than the configured
 * limit (in megabytes of 1024 * 1024 bytes). The limit is read afresh on every
 * message, and a missing limit switches the check off for that message.
 */
module ContentSize {
  import opened Wrappers

  newtype byte = x: int | 0 <= x < 256

  const MiB: nat := 1024 * 1024

  /** The message type that carries body bytes, and the only one counted. */
  const HttpRequest: string := "http.request"

  /** The connection type the guard applies to; other scopes pass untouched. */
  const HttpScope: string := "http"

  /** One message from the receive channel: its type and, if present, its body. */
  datatype Message = Message(kind: string, body: Option<seq<byte>>)

  /** One call of the wrapped receive: the message that arrived and the limit
      (in megabytes, `None` for no limit) read from the settings on that call. */
  datatype Call = Call(msg: Message, limitMb: Option<int>)

  /** What one call of the wrapped receive gives the application: the message
      itself, or the 413 error carrying the limit and the total received. */
  datatype Received = Pass(msg: Message) | TooLarge(limitMb: int, received: nat)

  /** The body length of a message; a message without a body has length 0. */
  function BodyLen(m: Message): nat {
    match m.body
    case None => 0
    case Some(b) => |b|
  }

  /** Whether a call takes part in the count: a body message under a set limit. */
  predicate Counted(c: Call) {
    c.msg.kind == HttpRequest && c.limitMb.Some?
  }

  /** How much one call adds to the running total. */
  function CountedLen(c: Call): (n: nat)
    ensures !Counted(c) ==> n == 0
    ensures Counted(c) ==> n == BodyLen(c.msg)
  {
    if Counted(c) then BodyLen(c.msg) else 0
  }

  /** The sum of the body lengths of the counted calls among `calls`. */
  function CountedTotal(calls: seq<Call>): nat {
    if calls == [] then 0
    else CountedTotal(calls[..|calls| - 1]) + CountedLen(calls[|calls| - 1])
  }

  /** Strictly more bytes than the limit allows; exactly the limit is fine. */
  predicate Exceeds(total: nat, limitMb: int) {
    total > limitMb * MiB
  }

  /** One call of the wrapped receive on a counter holding `received`: the new
      counter and what the application is given. */
  function Step(received: nat, c: Call): (r: (nat, Received))
    ensures r.0 == received + CountedLen(c)
    ensures !Counted(c) ==> r == (received, Pass(c.msg))
    ensures Counted(c) ==> (r.1.TooLarge? <==> Exceeds(r.0, c.limitMb.value))
    ensures r.1.Pass? ==> r.1.msg == c.msg
    ensures r.1.TooLarge? ==> r.1 == TooLarge(c.limitMb.value, r.0)
  {
    if !Counted(c) then (received, Pass(c.msg))
    else
      var total := received + BodyLen(c.msg);
      if Exceeds(total, c.limitMb.value) then (total, TooLarge(c.limitMb.value, total))
      else (total, Pass(c.msg))
  }

  /** The receive wrapper of one request. Its counter is its own: a new
      wrapper is made for every request and starts at zero. */
  class ReceiveWrapper {
    var received: nat
    /** The calls made so far, oldest first. */
    ghost var calls: seq<Call>

    ghost predicate Valid()
      reads this
    {
      received == CountedTotal(calls)
    }

    constructor ()
      ensures Valid()
      ensures received == 0 && calls == []
    {
      received := 0;
      calls := [];
    }

    /** One call of the wrapped receive: `msg` is what the inner receive
        delivered and `limitMb` is the setting read on this call. */
    method Receive(msg: Message, limitMb: Option<int>) returns (r: Received)
      requires Valid()
      modifies this
      ensures Valid()
      ensures calls == old(calls) + [Call(msg, limitMb)]
      ensures (received, r) == Step(old(received), Call(msg, limitMb))
      ensures !Counted(Call(msg, limitMb)) ==> r == Pass(msg) && received == old(received)
      ensures Counted(Call(msg, limitMb)) ==>
        received == old(received) + BodyLen(msg)
        && (r.TooLarge? <==> Exceeds(received, limitMb.value))
      ensures r.Pass? ==> r.msg == msg
    {
      ghost var c := Call(msg, limitMb);
      assert (calls + [c])[..|calls|] == calls;
      if msg.kind != HttpRequest || limitMb.None? {
        calls := calls + [c];
        return Pass(msg);
      }
      var bodyLen := BodyLen(msg);
      received := received + bodyLen;
      calls := calls + [c];
      if received > limitMb.value * MiB {
        return TooLarge(limitMb.value, received);
      }
      return Pass(msg);
    }
  }

  // ---------------------------------------------------------------------------
  // A whole request body read through one wrapper

  /** What the application sees of a stream of calls: every message, or the
      error at the call with index `at`, after which it reads no more. */
  datatype Stream = Delivered(msgs: seq<Message>) | Aborted(at: nat, limitMb: int, received: nat)

  function Messages(calls: seq<Call>): (ms: seq<Message>)
    ensures |ms| == |calls|
    ensures forall i :: 0 <= i < |calls| ==> ms[i] == calls[i].msg
  {
    seq(|calls|, i requires 0 <= i < |calls| => calls[i].msg)
  }

  /** Feed `calls` one by one through a counter that starts at `received`,
      stopping at the first error. */
  function Run(received: nat, calls: seq<Call>): Stream
    decreases |calls|
  {
    if calls == [] then Delivered([])
    else
      var (n, out) := Step(received, calls[0]);
      match out
      case TooLarge(l, t) => Aborted(0, l, t)
      case Pass(m) =>
        match Run(n, calls[1..])
        case Delivered(ms) => Delivered([m] + ms)
        case Aborted(i, l, t) => Aborted(i + 1, l, t)
  }

  /** The call with index `k` raises: it is counted and brings the total,
      counted from `start`, over the limit read on that call. */
  predicate TripsAt(start: nat, calls: seq<Call>, k: nat)
    requires k < |calls|
  {
    Counted(calls[k]) && Exceeds(start + CountedTotal(calls[..k + 1]), calls[k].limitMb.value)
  }

  /** The ASGI entry point: a non-HTTP scope is given the original receive,
      so nothing is counted; an HTTP scope reads through a fresh wrapper. */
  function Serve(scopeType: string, calls: seq<Call>): (s: Stream)
    ensures scopeType != HttpScope ==> s == Delivered(Messages(calls))
    ensures scopeType == HttpScope ==> s == Run(0, calls)
  {
    if scopeType != HttpScope then Delivered(Messages(calls)) else Run(0, calls)
  }

  /** `s` preceded by the messages `ms` already delivered: an error index
      moves past them. */
  function Prepend(ms: seq<Message>, s: Stream): Stream {
    match s
    case Delivered(rest) => Delivered(ms + rest)
    case Aborted(j, l, t) => Aborted(|ms| + j, l, t)
  }

  /** The application reading a request body through one fresh wrapper: it
      makes the calls in order and stops at the first error. What it sees is
      exactly `Run(0, calls)`. */
  method ReadThrough(calls: seq<Call>) returns (s: Stream)
    ensures s == Run(0, calls)
  {
    var w := new ReceiveWrapper();
    var msgs: seq<Message> := [];
    var i := 0;
    while i < |calls|
      invariant 0 <= i <= |calls| && |msgs| == i
      invariant w.Valid() && w.calls == calls[..i]
      invariant Run(0, calls) == Prepend(msgs, Run(w.received, calls[i..]))
    {
      var c := calls[i];
      ghost var before := w.received;
      assert calls[i..][0] == c && calls[i..][1..] == calls[i + 1..];
      var r := w.Receive(c.msg, c.limitMb);
      assert calls[..i + 1] == calls[..i] + [c];
      match r
      case TooLarge(l, t) =>
        return Aborted(i, l, t);
      case Pass(m) =>
        assert Run(before, calls[i..]) == Prepend([m], Run(w.received, calls[i + 1..]));
        ghost var tail := Run(w.received, calls[i + 1..]);
        if tail.Delivered? {
          assert msgs + ([m] + tail.msgs) == (msgs + [m]) + tail.msgs;
        }
        msgs := msgs + [m];
        i := i + 1;
    }
    assert calls[i..] == [];
    assert msgs + [] == msgs;
    return Delivered(msgs);
  }

  // ---------------------------------------------------------------------------
  // Lemmas

  lemma {:induction false} CountedTotalConcat(a: seq<Call>, b: seq<Call>)
    ensures CountedTotal(a + b) == CountedTotal(a) + CountedTotal(b)
  {
    if b == [] {
      assert a + b == a;
    } else {
      var b' := b[..|b| - 1];
      assert (a + b)[..|a + b| - 1] == a + b';
      assert (a + b)[|a + b| - 1] == b[|b| - 1];
      CountedTotalConcat(a, b');
    }
  }

  /** The total only grows as more calls are made. */
  lemma PrefixTotalBelow(calls: seq<Call>, k: nat)
    requires k <= |calls|
    ensures CountedTotal(calls[..k]) <= CountedTotal(calls)
  {
    assert calls == calls[..k] + calls[k..];
    CountedTotalConcat(calls[..k], calls[k..]);
  }

  /** The total of the first `k + 2` calls, split after the first call. */
  lemma PrefixTotalShift(calls: seq<Call>, k: nat)
    requires k + 1 < |calls|
    ensures CountedTotal(calls[..k + 2]) == CountedLen(calls[0]) + CountedTotal(calls[1..][..k + 1])
  {
    assert calls[..k + 2] == [calls[0]] + calls[1..][..k + 1];
    CountedTotalConcat([calls[0]], calls[1..][..k + 1]);
    assert [calls[0]][..0] == [];
  }

  /** Dropping the first call moves its length into the starting count. */
  lemma TripsAtShift(start: nat, calls: seq<Call>, n: nat)
    requires calls != [] && n == start + CountedLen(calls[0])
    ensures forall k :: 0 <= k < |calls| - 1 ==>
      (TripsAt(start, calls, k + 1) <==> TripsAt(n, calls[1..], k))
  {
    forall k | 0 <= k < |calls| - 1
      ensures TripsAt(start, calls, k + 1) <==> TripsAt(n, calls[1..], k)
    {
      PrefixTotalShift(calls, k);
    }
  }

  /** The first call trips exactly when its step raises. */
  lemma FirstCallTrips(start: nat, calls: seq<Call>)
    requires calls != []
    ensures TripsAt(start, calls, 0) <==> Step(start, calls[0]).1.TooLarge?
  {
    assert calls[..1] == [calls[0]];
    assert CountedTotal([calls[0]]) == CountedLen(calls[0]) by {
      assert [calls[0]][..0] == [];
    }
  }

  /** The stream read through a wrapper: all messages arrive unchanged exactly
      when no call raises, and otherwise the error comes at the first call
      that raises and carries that call's limit and the total counted so far. */
  lemma {:induction false} RunFirstTrip(start: nat, calls: seq<Call>)
    decreases |calls|
    ensures Run(start, calls).Delivered? <==> forall k :: 0 <= k < |calls| ==> !TripsAt(start, calls, k)
    ensures Run(start, calls).Delivered? ==> Run(start, calls).msgs == Messages(calls)
    ensures Run(start, calls).Aborted? ==>
      var a := Run(start, calls);
      a.at < |calls| && TripsAt(start, calls, a.at)
      && (forall j :: 0 <= j < a.at ==> !TripsAt(start, calls, j))
      && a.limitMb == calls[a.at].limitMb.value
      && a.received == start + CountedTotal(calls[..a.at + 1])
  {
    if calls != [] {
      FirstCallTrips(start, calls);
      if Step(start, calls[0]).1.Pass? {
        var n := start + CountedLen(calls[0]);
        RunFirstTrip(n, calls[1..]);
        TripsAtShift(start, calls, n);
        RunAfterPass(start, calls, n);
      } else {
        assert calls[..1] == [calls[0]];
        assert CountedTotal([calls[0]]) == CountedLen(calls[0]) by {
          assert [calls[0]][..0] == [];
        }
        assert Run(start, calls) == Aborted(0, calls[0].limitMb.value, start + CountedLen(calls[0]));
      }
    }
  }

  /** The inductive step of `RunFirstTrip`, when the first call passes. */
  lemma RunAfterPass(start: nat, calls: seq<Call>, n: nat)
    requires calls != [] && Step(start, calls[0]).1.Pass?
    requires n == start + CountedLen(calls[0])
    requires !TripsAt(start, calls, 0)
    requires var rest := calls[1..];
      (Run(n, rest).Delivered? <==> forall k :: 0 <= k < |rest| ==> !TripsAt(n, rest, k))
      && (Run(n, rest).Delivered? ==> Run(n, rest).msgs == Messages(rest))
      && (Run(n, rest).Aborted? ==>
        var a := Run(n, rest);
        a.at < |rest| && TripsAt(n, rest, a.at)
        && (forall j :: 0 <= j < a.at ==> !TripsAt(n, rest, j))
        && a.limitMb == rest[a.at].limitMb.value
        && a.received == n + CountedTotal(rest[..a.at + 1]))
    requires forall k :: 0 <= k < |calls| - 1 ==>
      (TripsAt(start, calls, k + 1) <==> TripsAt(n, calls[1..], k))
    ensures Run(start, calls).Delivered? <==> forall k :: 0 <= k < |calls| ==> !TripsAt(start, calls, k)
    ensures Run(start, calls).Delivered? ==> Run(start, calls).msgs == Messages(calls)
    ensures Run(start, calls).Aborted? ==>
      var a := Run(start, calls);
      a.at < |calls| && TripsAt(start, calls, a.at)
      && (forall j :: 0 <= j < a.at ==> !TripsAt(start, calls, j))
      && a.limitMb == calls[a.at].limitMb.value
      && a.received == start + CountedTotal(calls[..a.at + 1])
  {
    var c := calls[0];
    var rest := calls[1..];
    match Run(n, rest)
    case Delivered(ms) =>
      assert Messages(calls) == [c.msg] + Messages(rest);
      forall k | 0 <= k < |calls| ensures !TripsAt(start, calls, k) {
        if k > 0 { assert !TripsAt(n, rest, k - 1); }
      }
    case Aborted(i, l, t) =>
      assert TripsAt(start, calls, i + 1);
      forall j | 0 <= j < i + 1 ensures !TripsAt(start, calls, j) {
        if j > 0 { assert !TripsAt(n, rest, j - 1); }
      }
      PrefixTotalShift(calls, i);
  }

  /** With no limit set on any call, every message arrives unchanged. */
  lemma UnlimitedNeverAborts(calls: seq<Call>)
    requires forall k :: 0 <= k < |calls| ==> calls[k].limitMb.None?
    ensures Run(0, calls) == Delivered(Messages(calls))
  {
    RunFirstTrip(0, calls);
  }

  /** Under one fixed limit, a body whose counted size is at most the limit
      arrives unchanged, whatever the chunking. */
  lemma WithinLimitDelivered(calls: seq<Call>, limitMb: int)
    requires forall k :: 0 <= k < |calls| ==> calls[k].limitMb == Some(limitMb)
    requires !Exceeds(CountedTotal(calls), limitMb)
    ensures Run(0, calls) == Delivered(Messages(calls))
  {
    forall k | 0 <= k < |calls| ensures !TripsAt(0, calls, k) {
      PrefixTotalBelow(calls, k + 1);
    }
    RunFirstTrip(0, calls);
  }

  /** Under one fixed non-negative limit, a body whose counted size is over
      the limit is cut off with the error. */
  lemma {:induction false} OverLimitAborted(calls: seq<Call>, limitMb: int)
    requires limitMb >= 0
    requires forall k :: 0 <= k < |calls| ==> calls[k].limitMb == Some(limitMb)
    requires Exceeds(CountedTotal(calls), limitMb)
    ensures Run(0, calls).Aborted?
    decreases |calls|
  {
    var last := |calls| - 1;
    var init := calls[..last];
    assert calls[..last + 1] == calls;
    if !Counted(calls[last]) {
      // The last call adds nothing, so the earlier ones are already over.
      OverLimitAborted(init, limitMb);
      RunPrefixAborted(0, init, calls[last..]);
      assert init + calls[last..] == calls;
    } else {
      assert TripsAt(0, calls, last);
      RunFirstTrip(0, calls);
    }
  }

  /** A stream cut off early is still cut off when more calls follow. */
  lemma {:induction false} RunPrefixAborted(start: nat, a: seq<Call>, b: seq<Call>)
    requires Run(start, a).Aborted?
    ensures Run(start, a + b) == Run(start, a)
    decreases |a|
  {
    if a != [] {
      assert (a + b)[0] == a[0];
      assert (a + b)[1..] == a[1..] + b;
      var (n, out) := Step(start, a[0]);
      if out.Pass? {
        RunPrefixAborted(n, a[1..], b);
      }
    }
  }

  /** A non-HTTP scope never sees the guard: all its messages pass unchanged. */
  lemma NonHttpScopeUntouched(scopeType: string, calls: seq<Call>)
    requires scopeType != HttpScope
    ensures Serve(scopeType, calls).Delivered?
    ensures Serve(scopeType, calls).msgs == Messages(calls)
  {
  }

  // ---------------------------------------------------------------------------
  // An example: a 1 MB limit and three 400 KB chunks

  function Chunk(n: nat): Call {
    Call(Message(HttpRequest, Some(seq(n, _ => 0 as byte))), Some(1))
  }

  lemma ThreeChunksOfFourHundredKb()
    ensures Run(0, [Chunk(400 * 1024), Chunk(400 * 1024), Chunk(400 * 1024)])
      == Aborted(2, 1, 3 * 400 * 1024)
  {
    var c := Chunk(400 * 1024);
    assert BodyLen(c.msg) == 400 * 1024;
    assert Step(0, c) == (400 * 1024, Pass(c.msg));
    assert Step(400 * 1024, c) == (800 * 1024, Pass(c.msg));
    assert Step(800 * 1024, c) == (1200 * 1024, TooLarge(1, 1200 * 1024));
    var cs := [c, c, c];
    assert cs[1..] == [c, c];
    assert cs[1..][1..] == [c];
  }
}
