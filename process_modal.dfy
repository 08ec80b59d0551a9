// The progress dialog shown while the server runs a job: it streams the
// job's output from a websocket into a terminal, and it cannot be closed
// until that socket has closed.
module ProcessModal {

  datatype Option<T> = None | Some(value: T)

  /** What can happen to the dialog: it is shown (which opens the socket), the socket closes, or a close is requested. */
  datatype Event = Shown | SocketClosed | CloseRequested

  /** The dialog's state: still loading, the socket's address once opened, and how often the close was passed on. */
  datatype Gate = Gate(loading: bool, socket: Option<string>, closes: nat)

  const Initial := Gate(true, None, 0)

  /**
   * The socket's address: `ws://`, the service address, `/ws/` and the key;
   * a missing key is concatenated as the text "undefined".
   */
  function SocketUrl(serviceAddress: string, wsKey: Option<string>): (u: string)
    ensures |u| >= 9 + |serviceAddress|
    ensures u[..5] == "ws://" && u[5..5 + |serviceAddress|] == serviceAddress
    ensures u[5 + |serviceAddress|..5 + |serviceAddress| + 4] == "/ws/"
    ensures wsKey.Some? ==> u[9 + |serviceAddress|..] == wsKey.value
  {
    var key := if wsKey.Some? then wsKey.value else "undefined";
    var u := "ws://" + serviceAddress + "/ws/" + key;
    assert u[..5] == "ws://";
    assert u[5..5 + |serviceAddress|] == serviceAddress;
    assert u[5 + |serviceAddress|..5 + |serviceAddress| + 4] == "/ws/";
    assert u[9 + |serviceAddress|..] == key;
    u
  }

  /**
   * One event: showing opens the socket; the socket's close ends loading
   * (it resolves the job, after which loading is set false); a close
   * request is passed on only when not loading.
   */
  function Next(g: Gate, e: Event, url: string): (r: Gate) {
    match e
    case Shown => g.(socket := Some(url))
    case SocketClosed => if g.socket.Some? then g.(loading := false) else g
    case CloseRequested => if g.loading then g else g.(closes := g.closes + 1)
  }

  /** The state after a run of events. */
  function After(es: seq<Event>, url: string): (r: Gate) {
    if es == [] then Initial else Next(After(es[..|es| - 1], url), es[|es| - 1], url)
  }

  /** The OK button is disabled exactly while loading. */
  predicate OkDisabled(g: Gate) {
    g.loading
  }

  /** A socket close counts once some earlier event showed the dialog. */
  predicate ClosedAfterShown(es: seq<Event>, i: nat)
    requires i < |es|
  {
    es[i] == SocketClosed && Shown in es[..i]
  }

  lemma {:induction false} SocketOpenedIffShown(es: seq<Event>, url: string)
    ensures After(es, url).socket.Some? <==> Shown in es
    ensures After(es, url).socket.Some? ==> After(es, url).socket == Some(url)
    decreases |es|
  {
    if es != [] {
      var p := es[..|es| - 1];
      SocketOpenedIffShown(p, url);
      assert es == p + [es[|es| - 1]];
      assert Shown in es <==> Shown in p || es[|es| - 1] == Shown;
    }
  }

  /**
   * The dialog is loading exactly until the socket, opened by showing the
   * dialog, has closed.
   */
  lemma {:induction false} LoadingUntilSocketCloses(es: seq<Event>, url: string)
    ensures !After(es, url).loading <==> exists i :: 0 <= i < |es| && ClosedAfterShown(es, i)
    decreases |es|
  {
    if es != [] {
      var n := |es| - 1;
      var p := es[..n];
      LoadingUntilSocketCloses(p, url);
      SocketOpenedIffShown(p, url);
      assert forall i :: 0 <= i < n ==> p[..i] == es[..i] && p[i] == es[i];
      if !After(p, url).loading {
        var i :| 0 <= i < n && ClosedAfterShown(p, i);
        assert ClosedAfterShown(es, i);
      } else if !After(es, url).loading {
        assert es[..n] == p;
        assert ClosedAfterShown(es, n);
      } else {
        forall i | 0 <= i < |es|
          ensures !ClosedAfterShown(es, i)
        {
          if i < n {
            assert !ClosedAfterShown(p, i);
          } else {
            assert es[..n] == p;
          }
        }
      }
    }
  }

  /** Close requests made while loading are dropped: closes are passed on only once loading is over. */
  lemma {:induction false} ClosesOnlyWhenDone(es: seq<Event>, url: string)
    ensures After(es, url).closes > 0 ==> !After(es, url).loading
    decreases |es|
  {
    if es != [] {
      ClosesOnlyWhenDone(es[..|es| - 1], url);
    }
  }

  /** Once loading is over it stays over, and from then on every close request is passed on. */
  lemma {:induction false} DoneStaysDone(es: seq<Event>, more: seq<Event>, url: string)
    requires !After(es, url).loading
    ensures !After(es + more, url).loading
    ensures After(es + more + [CloseRequested], url).closes == After(es + more, url).closes + 1
    decreases |more|
  {
    if more != [] {
      var m := more[..|more| - 1];
      assert (es + more)[..|es + more| - 1] == es + m;
      DoneStaysDone(es, m, url);
    } else {
      assert es + more == es;
    }
    assert (es + more + [CloseRequested])[..|es + more|] == es + more;
  }

  /** The dialog: a terminal fed by the job's socket. */
  class Dialog {
    var loading: bool
    var socket: Option<string>
    var closes: nat
    const serviceAddress: string
    const wsKey: Option<string>

    function Snapshot(): (r: Gate)
      reads this
    {
      Gate(loading, socket, closes)
    }

    constructor (serviceAddress: string, wsKey: Option<string>)
      ensures Snapshot() == Initial
      ensures this.serviceAddress == serviceAddress && this.wsKey == wsKey
    {
      loading := true;
      socket := None;
      closes := 0;
      this.serviceAddress := serviceAddress;
      this.wsKey := wsKey;
    }

    /** init, on show: opens the terminal and the socket; loading holds until the socket closes. */
    method Show()
      modifies this
      ensures Snapshot() == Next(old(Snapshot()), Shown, SocketUrl(serviceAddress, wsKey))
    {
      socket := Some(SocketUrl(serviceAddress, wsKey));
    }

    /** The socket's close: the job's promise resolves and loading is set false. */
    method OnSocketClose()
      modifies this
      ensures Snapshot() == Next(old(Snapshot()), SocketClosed, SocketUrl(serviceAddress, wsKey))
    {
      if socket.Some? {
        loading := false;
      }
    }

    /** onClose, for the close button, Enter and the OK button alike: passed on only when not loading. */
    method OnClose()
      modifies this
      ensures Snapshot() == Next(old(Snapshot()), CloseRequested, SocketUrl(serviceAddress, wsKey))
    {
      if loading {
        return;
      }
      closes := closes + 1;
    }
  }
}
