// The per-key websocket hub: a table of attached connections and a table of
// everything ever sent under each key, so that a subscriber that attaches
// late is first sent the whole backlog.
//
// Connections are opaque identities.  What the hub does to them
// (`WriteMessage`, `Close`) is recorded, in order, as the `wire` log; whether
// a write fails is decided by the caller-supplied `fails` flag or set, since
// it depends on the network.
module WsHub {

  type Conn = nat

  datatype WireAction = Write(conn: Conn, data: string) | Shut(conn: Conn)

  datatype State = State(conns: map<string, Conn>, msg: map<string, string>, wire: seq<WireAction>)

  /** `h.msg[key]` with Go's zero value for a missing key. */
  function Buffered(msg: map<string, string>, key: string): (r: string) {
    if key in msg then msg[key] else ""
  }

  /** The concatenation of every payload written to `c`, in order. */
  function Delivered(wire: seq<WireAction>, c: Conn): (r: string) {
    if wire == [] then ""
    else
      var last := wire[|wire| - 1];
      Delivered(wire[..|wire| - 1], c) + (if last.Write? && last.conn == c then last.data else "")
  }

  function Digit(d: nat): (r: char)
    requires d < 10
  {
    "0123456789"[d]
  }

  /** Decimal rendering of a non-negative integer, as `fmt.Sprintf("%v", n)` gives it. */
  function Decimal(n: nat): (r: string)
    ensures |r| >= 1
    ensures forall i :: 0 <= i < |r| ==> '0' <= r[i] <= '9'
  {
    if n < 10 then [Digit(n)] else Decimal(n / 10) + [Digit(n % 10)]
  }

  /** The key a connection is stored under: the given key, or a random number when it is empty. */
  function AddKey(key: string, rnd: nat): (k: string)
    ensures k != ""
    ensures key != "" ==> k == key
  {
    if key == "" then Decimal(rnd) else key
  }

  /** NewHub. */
  function Empty(): (h: State)
    ensures h.conns == map[] && h.msg == map[] && h.wire == []
  {
    State(map[], map[], [])
  }

  /**
   * Add: closes a connection already stored under the key, stores the new
   * one, and writes it the whole backlog of the key.
   */
  function AddStep(h: State, key: string, conn: Conn, rnd: nat): (r: State)
    ensures var k := AddKey(key, rnd);
      && r.conns == h.conns[k := conn]
      && r.msg == h.msg
      && r.wire == h.wire + (if k in h.conns then [Shut(h.conns[k])] else []) + [Write(conn, Buffered(h.msg, k))]
  {
    var k := AddKey(key, rnd);
    var closing := if k in h.conns then [Shut(h.conns[k])] else [];
    State(h.conns[k := conn], h.msg, h.wire + closing + [Write(conn, Buffered(h.msg, k))])
  }

  /**
   * Send: appends the body to the key's backlog whether or not a connection
   * is attached, writes it to the attached connection if any, and reports
   * the write's failure.
   */
  function SendStep(h: State, key: string, body: string, fails: bool): (r: (State, bool))
    ensures r.0.conns == h.conns
    ensures r.0.msg == h.msg[key := Buffered(h.msg, key) + body]
    ensures key in h.conns ==> r.0.wire == h.wire + [Write(h.conns[key], body)] && r.1 == fails
    ensures key !in h.conns ==> r.0.wire == h.wire && !r.1
  {
    var msg := h.msg[key := Buffered(h.msg, key) + body];
    if key in h.conns then (State(h.conns, msg, h.wire + [Write(h.conns[key], body)]), fails)
    else (State(h.conns, msg, h.wire), false)
  }

  /** Close: closes and forgets the key's connection; the backlog stays. */
  function CloseStep(h: State, key: string): (r: State)
    ensures r.conns == h.conns - {key}
    ensures r.msg == h.msg
    ensures r.wire == h.wire + (if key in h.conns then [Shut(h.conns[key])] else [])
  {
    State(h.conns - {key}, h.msg, h.wire + (if key in h.conns then [Shut(h.conns[key])] else []))
  }

  /** One write of `body` to the connection of each key, in order. */
  function Writes(conns: map<string, Conn>, keys: seq<string>, body: string): (r: seq<WireAction>)
    requires forall i :: 0 <= i < |keys| ==> keys[i] in conns
    ensures |r| == |keys|
    ensures forall i :: 0 <= i < |keys| ==> r[i] == Write(conns[keys[i]], body)
  {
    if keys == [] then [] else Writes(conns, keys[..|keys| - 1], body) + [Write(conns[keys[|keys| - 1]], body)]
  }

  /** Position of the first key whose connection fails, or `|order|` when none does. */
  function FirstFailure(conns: map<string, Conn>, order: seq<string>, failing: set<Conn>): (n: nat)
    requires forall i :: 0 <= i < |order| ==> order[i] in conns
    ensures n <= |order|
    ensures forall j :: 0 <= j < n ==> conns[order[j]] !in failing
    ensures n < |order| ==> conns[order[n]] in failing
  {
    if order == [] then 0
    else if conns[order[0]] in failing then 0
    else 1 + FirstFailure(conns, order[1..], failing)
  }

  /** Writing to one more key appends one write. */
  lemma WritesNext(conns: map<string, Conn>, order: seq<string>, body: string, i: nat)
    requires forall j :: 0 <= j < |order| ==> order[j] in conns
    requires i < |order|
    ensures Writes(conns, order[..i + 1], body) == Writes(conns, order[..i], body) + [Write(conns[order[i]], body)]
  {
    assert order[..i + 1][..i] == order[..i];
  }

  /** The first failing key is the one reached with no failure before it. */
  lemma FirstFailureAt(conns: map<string, Conn>, order: seq<string>, body: string, failing: set<Conn>, i: nat)
    requires forall j :: 0 <= j < |order| ==> order[j] in conns
    requires i < |order| && conns[order[i]] in failing
    requires forall j :: 0 <= j < i ==> conns[order[j]] !in failing
    ensures FirstFailure(conns, order, failing) == i
    ensures SendAllWrites(conns, order, body, failing) == (Writes(conns, order[..i + 1], body), true)
  {
    var n := FirstFailure(conns, order, failing);
    assert !(n < i);
    assert !(n > i);
  }

  /** With no failing connection, every key is written and no error reported. */
  lemma NoFailure(conns: map<string, Conn>, order: seq<string>, body: string, failing: set<Conn>)
    requires forall j :: 0 <= j < |order| ==> order[j] in conns
    requires forall j :: 0 <= j < |order| ==> conns[order[j]] !in failing
    ensures SendAllWrites(conns, order, body, failing) == (Writes(conns, order[..|order|], body), false)
  {
    assert order[..|order|] == order;
  }

  /**
   * The writes SendAll performs when it visits the keys in `order`, and
   * whether it reports an error: it stops right after the first failing write.
   */
  function SendAllWrites(conns: map<string, Conn>, order: seq<string>, body: string, failing: set<Conn>): (r: (seq<WireAction>, bool))
    requires forall i :: 0 <= i < |order| ==> order[i] in conns
  {
    var n := FirstFailure(conns, order, failing);
    if n < |order| then (Writes(conns, order[..n + 1], body), true)
    else (Writes(conns, order, body), false)
  }

  /** SendAll reports an error exactly when some visited connection fails, and otherwise writes every connection once. */
  lemma SendAllOutcome(conns: map<string, Conn>, order: seq<string>, body: string, failing: set<Conn>)
    requires forall i :: 0 <= i < |order| ==> order[i] in conns
    ensures var (ws, err) := SendAllWrites(conns, order, body, failing);
      && (err <==> exists i :: 0 <= i < |order| && conns[order[i]] in failing)
      && (!err ==> |ws| == |order| && forall i :: 0 <= i < |order| ==> ws[i] == Write(conns[order[i]], body))
      && (err ==> 1 <= |ws| <= |order| && conns[order[|ws| - 1]] in failing
                  && forall i :: 0 <= i < |ws| ==> ws[i] == Write(conns[order[i]], body))
  {
    var n := FirstFailure(conns, order, failing);
    if n < |order| {
      assert forall i :: 0 <= i < n + 1 ==> order[..n + 1][i] == order[i];
    }
  }

  // ---------------------------------------------------------------------
  // Properties

  lemma {:induction false} DeliveredAppend(w1: seq<WireAction>, w2: seq<WireAction>, c: Conn)
    ensures Delivered(w1 + w2, c) == Delivered(w1, c) + Delivered(w2, c)
    decreases |w2|
  {
    if w2 == [] {
      assert w1 + w2 == w1;
    } else {
      var w := w1 + w2;
      var w2' := w2[..|w2| - 1];
      var last := w2[|w2| - 1];
      var piece := if last.Write? && last.conn == c then last.data else "";
      assert w[..|w| - 1] == w1 + w2' && w[|w| - 1] == last;
      assert Delivered(w, c) == Delivered(w1 + w2', c) + piece;
      assert Delivered(w2, c) == Delivered(w2', c) + piece;
      DeliveredAppend(w1, w2', c);
      assert (Delivered(w1, c) + Delivered(w2', c)) + piece == Delivered(w1, c) + (Delivered(w2', c) + piece);
    }
  }

  lemma DeliveredOne(a: WireAction, c: Conn)
    ensures Delivered([a], c) == if a.Write? && a.conn == c then a.data else ""
  {
    assert [a][..0] == [];
  }

  /** Sends performed while nobody listens on `key`: their bodies in order. */
  function Concat(bodies: seq<string>): (r: string) {
    if bodies == [] then "" else Concat(bodies[..|bodies| - 1]) + bodies[|bodies| - 1]
  }

  function SendAllSteps(h: State, key: string, bodies: seq<string>): (r: State)
  {
    if bodies == [] then h
    else SendStep(SendAllSteps(h, key, bodies[..|bodies| - 1]), key, bodies[|bodies| - 1], false).0
  }

  /**
   * A late subscriber receives everything: after any number of sends under a
   * key, Add writes the new connection the key's earlier backlog followed by
   * every body sent, in order.
   */
  lemma {:induction false} LateSubscriberReplay(h: State, key: string, bodies: seq<string>, conn: Conn, rnd: nat)
    requires key != ""
    ensures var after := AddStep(SendAllSteps(h, key, bodies), key, conn, rnd);
      after.wire[|after.wire| - 1] == Write(conn, Buffered(h.msg, key) + Concat(bodies))
  {
    BacklogAfterSends(h, key, bodies);
  }

  lemma {:induction false} BacklogAfterSends(h: State, key: string, bodies: seq<string>)
    ensures Buffered(SendAllSteps(h, key, bodies).msg, key) == Buffered(h.msg, key) + Concat(bodies)
    ensures SendAllSteps(h, key, bodies).conns == h.conns
  {
    if bodies != [] {
      BacklogAfterSends(h, key, bodies[..|bodies| - 1]);
    }
  }

  /**
   * The hub invariant when every attached connection came through Add: each
   * attached connection has been written exactly its key's backlog, and no
   * connection is attached under two keys.
   */
  predicate Synced(h: State) {
    (forall k :: k in h.conns ==> Delivered(h.wire, h.conns[k]) == Buffered(h.msg, k))
    && (forall k1, k2 :: k1 in h.conns && k2 in h.conns && k1 != k2 ==> h.conns[k1] != h.conns[k2])
  }

  /** A connection the hub has never attached nor written to. */
  predicate Fresh(h: State, c: Conn) {
    (forall k :: k in h.conns ==> h.conns[k] != c) && Delivered(h.wire, c) == ""
  }

  lemma EmptySynced()
    ensures Synced(Empty())
  {
  }

  lemma AddKeepsSynced(h: State, key: string, conn: Conn, rnd: nat)
    requires Synced(h) && Fresh(h, conn)
    ensures Synced(AddStep(h, key, conn, rnd))
  {
    var k := AddKey(key, rnd);
    var r := AddStep(h, key, conn, rnd);
    var closing := if k in h.conns then [Shut(h.conns[k])] else [];
    var w := Write(conn, Buffered(h.msg, k));
    assert r.wire == h.wire + (closing + [w]);
    forall c: Conn
      ensures Delivered(r.wire, c) == Delivered(h.wire, c) + (if c == conn then Buffered(h.msg, k) else "")
    {
      DeliveredAppend(h.wire, closing + [w], c);
      DeliveredAppend(closing, [w], c);
      DeliveredOne(w, c);
      if closing != [] { DeliveredOne(closing[0], c); }
    }
  }

  lemma SendKeepsSynced(h: State, key: string, body: string, fails: bool)
    requires Synced(h)
    ensures Synced(SendStep(h, key, body, fails).0)
  {
    var r := SendStep(h, key, body, fails).0;
    if key in h.conns {
      var w := Write(h.conns[key], body);
      forall c: Conn
        ensures Delivered(r.wire, c) == Delivered(h.wire, c) + (if c == h.conns[key] then body else "")
      {
        DeliveredAppend(h.wire, [w], c);
        DeliveredOne(w, c);
      }
    }
  }

  lemma CloseKeepsSynced(h: State, key: string)
    requires Synced(h)
    ensures Synced(CloseStep(h, key))
  {
    var r := CloseStep(h, key);
    var closing := if key in h.conns then [Shut(h.conns[key])] else [];
    forall c: Conn
      ensures Delivered(r.wire, c) == Delivered(h.wire, c)
    {
      DeliveredAppend(h.wire, closing, c);
      if closing != [] { DeliveredOne(closing[0], c); }
    }
  }

  /**
   * SendAll writes to the connections without recording the body in any
   * backlog, so it can break the replay invariant: a connection then holds
   * more than its key's backlog.
   */
  lemma SendAllBypassesBacklog()
    ensures var h := AddStep(Empty(), "k", 7, 0);
      Synced(h) && var (ws, _) := SendAllWrites(h.conns, ["k"], "x", {});
      !Synced(State(h.conns, h.msg, h.wire + ws))
  {
    var h := AddStep(Empty(), "k", 7, 0);
    assert h.wire == [Write(7, "")];
    DeliveredOne(Write(7, ""), 7);
    var ws := SendAllWrites(h.conns, ["k"], "x", {}).0;
    assert ws == [Write(7, "x")];
    DeliveredAppend(h.wire, ws, 7);
    DeliveredOne(Write(7, "x"), 7);
  }

  // ---------------------------------------------------------------------
  // The hub object

  class Hub {
    var conns: map<string, Conn>
    var msg: map<string, string>
    var wire: seq<WireAction>

    function Snapshot(): (r: State)
      reads this
    {
      State(conns, msg, wire)
    }

    /** NewHub: both tables empty. */
    constructor ()
      ensures Snapshot() == Empty()
    {
      conns := map[];
      msg := map[];
      wire := [];
    }

    /** Add; `rnd` stands for the `rand.Int63()` draw used when `key` is empty. */
    method Add(key: string, conn: Conn, rnd: nat)
      modifies this
      ensures Snapshot() == AddStep(old(Snapshot()), key, conn, rnd)
    {
      var k := key;
      if k == "" {
        k := Decimal(rnd);
      }
      if k in conns {
        wire := wire + [Shut(conns[k])];
      }
      conns := conns[k := conn];
      wire := wire + [Write(conn, Buffered(msg, k))];
    }

    /** Send; `fails` says whether the connection's WriteMessage fails. Returns true for a non-nil error. */
    method Send(key: string, body: string, fails: bool) returns (err: bool)
      modifies this
      ensures (Snapshot(), err) == SendStep(old(Snapshot()), key, body, fails)
    {
      msg := msg[key := Buffered(msg, key) + body];
      err := false;
      if key in conns {
        wire := wire + [Write(conns[key], body)];
        if fails {
          err := true;
        }
      }
    }

    /** Close: never reports an error. */
    method Close(key: string) returns (err: bool)
      modifies this
      ensures Snapshot() == CloseStep(old(Snapshot()), key)
      ensures !err
    {
      if key in conns {
        wire := wire + [Shut(conns[key])];
      }
      conns := conns - {key};
      err := false;
    }

    /**
     * SendAll; `order` is the map iteration order Go happens to pick (every
     * key, and as many entries as keys, so each key once) and `failing` the
     * connections whose write fails.
     */
    method SendAll(body: string, order: seq<string>, failing: set<Conn>) returns (err: bool)
      requires forall i :: 0 <= i < |order| ==> order[i] in conns
      requires forall k :: k in conns ==> k in order
      requires |order| == |conns|
      modifies this`wire
      ensures conns == old(conns) && msg == old(msg)
      ensures wire == old(wire) + SendAllWrites(conns, order, body, failing).0
      ensures err == SendAllWrites(conns, order, body, failing).1
    {
      var cs := conns;
      var i := 0;
      err := false;
      while i < |order|
        invariant 0 <= i <= |order|
        invariant wire == old(wire) + Writes(cs, order[..i], body)
        invariant forall j :: 0 <= j < i ==> cs[order[j]] !in failing
      {
        var c := cs[order[i]];
        WritesNext(cs, order, body, i);
        wire := wire + [Write(c, body)];
        if c in failing {
          err := true;
          FirstFailureAt(cs, order, body, failing, i);
          return;
        }
        i := i + 1;
      }
      NoFailure(cs, order, body, failing);
    }
  }
}
