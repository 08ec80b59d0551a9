// The editor's websocket client: callbacks register in order, and every
// frame received is split into lines, each line going to every callback.
module WsClient {
  import opened GoStrings

  /** A registered callback, by identity. */
  type Callback = nat

  /** One delivery: a callback called with a line. */
  datatype Delivery = Delivery(callback: Callback, line: string)

  /** One line delivered to each callback in registration order. */
  function Fan(line: string, cbs: seq<Callback>): (r: seq<Delivery>)
    ensures |r| == |cbs|
    ensures forall j :: 0 <= j < |cbs| ==> r[j] == Delivery(cbs[j], line)
  {
    if cbs == [] then [] else Fan(line, cbs[..|cbs| - 1]) + [Delivery(cbs[|cbs| - 1], line)]
  }

  /** The lines delivered one after the other, each to all callbacks. */
  function Deliveries(lines: seq<string>, cbs: seq<Callback>): (r: seq<Delivery>) {
    if lines == [] then [] else Deliveries(lines[..|lines| - 1], cbs) + Fan(lines[|lines| - 1], cbs)
  }

  /** The position of line i's delivery to callback j, with k callbacks. */
  function Slot(i: nat, j: nat, k: nat): (r: nat) {
    i * k + j
  }

  lemma {:induction false} MulLe(a: nat, b: nat, k: nat)
    requires a <= b
    ensures a * k <= b * k
    decreases b - a
  {
    if a < b {
      MulLe(a, b - 1, k);
      assert (b - 1) * k + k == b * k;
    }
  }

  lemma SlotBound(i: nat, j: nat, n: nat, k: nat)
    requires i < n && j < k
    ensures Slot(i, j, k) < n * k
  {
    MulLe(i + 1, n, k);
    assert (i + 1) * k == i * k + k;
  }

  /** Every line is delivered once to each callback. */
  lemma {:induction false} DeliveriesLength(lines: seq<string>, cbs: seq<Callback>)
    ensures |Deliveries(lines, cbs)| == |lines| * |cbs|
    decreases |lines|
  {
    if lines != [] {
      var n := |lines| - 1;
      DeliveriesLength(lines[..n], cbs);
      assert (n + 1) * |cbs| == n * |cbs| + |cbs|;
    }
  }

  /** Delivery number i * |cbs| + j is line i to callback j. */
  lemma {:induction false} DeliveredAt(lines: seq<string>, cbs: seq<Callback>, i: nat, j: nat)
    requires i < |lines| && j < |cbs|
    ensures Slot(i, j, |cbs|) < |Deliveries(lines, cbs)|
    ensures Deliveries(lines, cbs)[Slot(i, j, |cbs|)] == Delivery(cbs[j], lines[i])
    decreases |lines|
  {
    var n := |lines| - 1;
    var p := lines[..n];
    DeliveriesLength(p, cbs);
    var d := Deliveries(p, cbs);
    var f := Fan(lines[n], cbs);
    assert Deliveries(lines, cbs) == d + f;
    if i < n {
      DeliveredAt(p, cbs, i, j);
      assert (d + f)[Slot(i, j, |cbs|)] == d[Slot(i, j, |cbs|)];
    } else {
      assert Slot(i, j, |cbs|) == |d| + j;
      assert (d + f)[|d| + j] == f[j];
    }
  }

  /**
   * Deliveries go line by line, and within a line callback by callback:
   * delivery number i * |cbs| + j is line i to callback j.
   */
  lemma DeliveriesOrder(lines: seq<string>, cbs: seq<Callback>)
    ensures |Deliveries(lines, cbs)| == |lines| * |cbs|
    ensures forall i: nat, j: nat :: i < |lines| && j < |cbs| ==> Slot(i, j, |cbs|) < |lines| * |cbs|
    ensures forall i: nat, j: nat :: i < |lines| && j < |cbs| ==>
      Deliveries(lines, cbs)[Slot(i, j, |cbs|)] == Delivery(cbs[j], lines[i])
  {
    DeliveriesLength(lines, cbs);
    forall i: nat, j: nat | i < |lines| && j < |cbs|
      ensures Slot(i, j, |cbs|) < |lines| * |cbs|
      ensures Deliveries(lines, cbs)[Slot(i, j, |cbs|)] == Delivery(cbs[j], lines[i])
    {
      DeliveredAt(lines, cbs, i, j);
    }
  }

  /** The number of `c`s in `s`. */
  function Occurrences(s: string, c: char): (r: nat) {
    multiset(s)[c]
  }

  /** A frame with n separators splits into n + 1 pieces, empty pieces included. */
  lemma {:induction false} SplitPieces(s: string, c: char)
    ensures |Split(s, c)| == Occurrences(s, c) + 1
  {
    if s != [] {
      SplitPieces(s[1..], c);
      assert s == [s[0]] + s[1..];
      assert multiset(s) == multiset([s[0]]) + multiset(s[1..]);
    }
  }

  /** One more callback gets the line. */
  lemma FanNext(line: string, cbs: seq<Callback>, j: nat)
    requires j < |cbs|
    ensures Fan(line, cbs[..j + 1]) == Fan(line, cbs[..j]) + [Delivery(cbs[j], line)]
  {
    assert cbs[..j + 1][..j] == cbs[..j];
  }

  /** One more line goes to all the callbacks. */
  lemma DeliveriesNext(lines: seq<string>, cbs: seq<Callback>, i: nat)
    requires i < |lines|
    ensures Deliveries(lines[..i + 1], cbs) == Deliveries(lines[..i], cbs) + Fan(lines[i], cbs[..|cbs|])
  {
    assert lines[..i + 1][..i] == lines[..i];
    assert cbs[..|cbs|] == cbs;
  }

  /** The nested loop of onmessage: every line, in order, to every callback, in order. */
  method FanOut(messages: seq<string>, cbs: seq<Callback>) returns (calls: seq<Delivery>)
    ensures calls == Deliveries(messages, cbs)
  {
    calls := [];
    var i := 0;
    while i < |messages|
      invariant 0 <= i <= |messages|
      invariant calls == Deliveries(messages[..i], cbs)
    {
      var j := 0;
      while j < |cbs|
        invariant 0 <= j <= |cbs|
        invariant calls == Deliveries(messages[..i], cbs) + Fan(messages[i], cbs[..j])
      {
        calls := calls + [Delivery(cbs[j], messages[i])];
        FanNext(messages[i], cbs, j);
        j := j + 1;
      }
      DeliveriesNext(messages, cbs, i);
      i := i + 1;
    }
    assert messages[..i] == messages;
  }

  /** The client: its callbacks and the calls made to them so far. */
  class Ws {
    var callbacks: seq<Callback>
    var delivered: seq<Delivery>
    const url: string

    /** The socket is opened at the local server's /ws/ path with the key. */
    constructor (key: string)
      ensures callbacks == [] && delivered == []
      ensures url == "ws://localhost:9091/ws/" + key
    {
      callbacks := [];
      delivered := [];
      url := "ws://localhost:9091/ws/" + key;
    }

    /** Register: the callback goes last. */
    method Register(f: Callback)
      modifies this
      ensures callbacks == old(callbacks) + [f] && delivered == old(delivered)
    {
      callbacks := callbacks + [f];
    }

    /** onmessage: the frame's lines, split on '\n', each delivered to every callback in turn. */
    method OnMessage(data: string)
      modifies this
      ensures callbacks == old(callbacks)
      ensures delivered == old(delivered) + Deliveries(Split(data, '\n'), callbacks)
    {
      var calls := FanOut(Split(data, '\n'), callbacks);
      delivered := delivered + calls;
    }
  }

  /**
   * Every line of a frame, empty ones included, reaches every callback:
   * a frame with n newlines gives each callback n + 1 calls, in line order.
   */
  lemma FrameDeliveries(data: string, cbs: seq<Callback>)
    ensures |Split(data, '\n')| == Occurrences(data, '\n') + 1
    ensures |Deliveries(Split(data, '\n'), cbs)| == (Occurrences(data, '\n') + 1) * |cbs|
    ensures forall i: nat, j: nat :: i < |Split(data, '\n')| && j < |cbs| ==> Slot(i, j, |cbs|) < |Deliveries(Split(data, '\n'), cbs)|
    ensures forall i: nat, j: nat :: i < |Split(data, '\n')| && j < |cbs| ==>
      Deliveries(Split(data, '\n'), cbs)[Slot(i, j, |cbs|)] == Delivery(cbs[j], Split(data, '\n')[i])
  {
    SplitPieces(data, '\n');
    DeliveriesOrder(Split(data, '\n'), cbs);
  }
}
