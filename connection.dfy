/** The state one connection carries: the socket the plugin writes frames to,
    and the count `Session.nconn` of transfers opened over it and not yet closed
    (remote_subl.py:147-152, 157, 192-196). */
module Connection {
  import opened Common
  import opened Bytes

  /** `nconn`, every byte sent so far, and whether the socket is still open. */
  datatype Conn = Conn(nconn: int, sent: Bytes, connected: bool)

  /** `socket.send(data)`, taken to send all of `data` at once; a socket that was
      shut down and closed raises. */
  function Send(c: Conn, data: Bytes): (r: Effect<Conn>)
    ensures r.Ok() <==> c.connected
    ensures r.state.nconn == c.nconn && r.state.connected == c.connected
    ensures r.state.sent == if c.connected then c.sent + data else c.sent
  {
    if c.connected then Done(c.(sent := c.sent + data)) else Raise(c, SocketClosed)
  }

  /** `Session.try_close`: the count drops by one, and the socket is shut down and
      closed exactly when it reaches zero; shutting down a socket that is already
      closed raises, after the count has dropped. */
  function TryClose(c: Conn): (r: Effect<Conn>)
    ensures r.state.nconn == c.nconn - 1 && r.state.sent == c.sent
    ensures r.state.connected <==> c.connected && c.nconn != 1
    ensures r.raised.Some? <==> c.nconn == 1 && !c.connected
  {
    var d := c.(nconn := c.nconn - 1);
    if d.nconn == 0 then
      if c.connected then Done(d.(connected := false)) else Raise(d, SocketClosed)
    else Done(d)
  }

  /** What happens to a connection over its life: an `open` line raises the
      count (remote_subl.py:157); closing one of its transfers sends that
      transfer's close frame `frame` and then calls `try_close`
      (remote_subl.py:58-65). On a closed socket the first send of the frame
      raises, before `try_close` is reached. */
  datatype Event = Opened | Closed(frame: Bytes)

  function Apply(c: Conn, e: Event): (r: Effect<Conn>)
    ensures e.Closed? && c.connected ==> r.state.sent == c.sent + e.frame
    ensures !(e.Closed? && c.connected) ==> r.state.sent == c.sent
  {
    match e
    case Opened => Done(c.(nconn := c.nconn + 1))
    case Closed(frame) =>
      if c.connected then TryClose(c.(sent := c.sent + frame))
      else Raise(c, SocketClosed)
  }

  /** The close frames of the closes among `events`, in order. */
  function Sent(events: seq<Event>): Bytes {
    if events == [] then []
    else
      var e := events[|events| - 1];
      Sent(events[..|events| - 1]) + (if e.Closed? then e.frame else [])
  }

  /** The events applied in order; the first one that raises ends the run. A run
      that raises nothing has sent the close frame of every close, in order, and
      leaves the count at the start plus opens minus closes. */
  function Run(c: Conn, events: seq<Event>): (r: Effect<Conn>)
    ensures c.sent <= r.state.sent
    ensures r.Ok() ==> r.state.sent == c.sent + Sent(events)
    ensures r.Ok() ==> r.state.nconn == c.nconn + Balance(events)
    ensures !c.connected ==> !r.state.connected
  {
    if events == [] then Done(c)
    else
      var r := Run(c, events[..|events| - 1]);
      if r.Ok() then Apply(r.state, events[|events| - 1]) else r
  }

  /** Opens minus closes. */
  function Balance(events: seq<Event>): int {
    if events == [] then 0
    else Balance(events[..|events| - 1]) + (if events[|events| - 1] == Opened then 1 else -1)
  }

  /** The count after the first `i` events. */
  function CountAfter(c: Conn, events: seq<Event>, i: nat): int
    requires i <= |events|
  {
    c.nconn + Balance(events[..i])
  }

  /** While the count stays above zero after every event, the socket stays open,
      every close frame is sent, and the count is the starting count plus opens
      minus closes. */
  lemma {:induction false} RunPositive(c: Conn, events: seq<Event>)
    requires c.connected
    requires forall i :: 0 < i <= |events| ==> CountAfter(c, events, i) > 0
    ensures Run(c, events) == Done(c.(nconn := c.nconn + Balance(events), sent := c.sent + Sent(events)))
  {
    if events != [] {
      var n := |events|;
      var init := events[..n - 1];
      forall i | 0 < i <= |init| ensures CountAfter(c, init, i) > 0 {
        assert init[..i] == events[..i];
        assert CountAfter(c, events, i) > 0;
      }
      RunPositive(c, init);
      assert events[..n] == events;
      assert CountAfter(c, events, n) > 0;
      Unfold(c, events);
      var e := events[n - 1];
      if e.Closed? {
        assert c.sent + Sent(init) + e.frame == c.sent + Sent(events);
      } else {
        assert Sent(init) + [] == Sent(events);
      }
    }
  }

  /** A socket shared by several transfers is shut down exactly once, by the close
      that brings the count back to zero: if the count stays above zero until the
      last event and is zero after it, the last event is a close, the socket is
      open just before it and closed after it, every close frame went out, and
      nothing raised. */
  lemma ClosedByLastClose(c: Conn, events: seq<Event>)
    requires c.connected && c.nconn >= 0 && events != []
    requires forall i :: 0 < i < |events| ==> CountAfter(c, events, i) > 0
    requires c.nconn + Balance(events) == 0
    ensures events[|events| - 1].Closed?
    ensures Run(c, events[..|events| - 1]) == Done(c.(nconn := 1, sent := c.sent + Sent(events[..|events| - 1])))
    ensures Run(c, events) == Done(c.(nconn := 0, sent := c.sent + Sent(events), connected := false))
  {
    var init := events[..|events| - 1];
    var e := events[|events| - 1];
    PositiveBefore(c, events);
    RunPositive(c, init);
    LastStep(c, events, c.(nconn := c.nconn + Balance(init), sent := c.sent + Sent(init)));
  }

  /** The step from the state before the last event to the end of the run. */
  lemma LastStep(c: Conn, events: seq<Event>, c1: Conn)
    requires c.connected && events != []
    requires Run(c, events[..|events| - 1]) == Done(c1)
    requires c1 == c.(nconn := c.nconn + Balance(events[..|events| - 1]), sent := c.sent + Sent(events[..|events| - 1]))
    requires c1.nconn >= 0 && c.nconn + Balance(events) == 0
    ensures events[|events| - 1].Closed? && c1.nconn == 1
    ensures Run(c, events) == Done(c.(nconn := 0, sent := c.sent + Sent(events), connected := false))
  {
    Unfold(c, events);
    LastClose(c1, events[|events| - 1]);
  }

  /** The last step of `Run`, `Sent` and `Balance`, named. */
  lemma Unfold(c: Conn, events: seq<Event>)
    requires events != []
    ensures var init := events[..|events| - 1];
            var e := events[|events| - 1];
            && Balance(events) == Balance(init) + (if e == Opened then 1 else -1)
            && Sent(events) == Sent(init) + (if e.Closed? then e.frame else [])
            && Run(c, events) == (var r := Run(c, init); if r.Ok() then Apply(r.state, e) else r)
  {
  }

  /** The prefix condition of `ClosedByLastClose` covers every prefix of all but
      the last event, and the count is still above zero before the last one. */
  lemma PositiveBefore(c: Conn, events: seq<Event>)
    requires c.nconn >= 0 && events != []
    requires forall i :: 0 < i < |events| ==> CountAfter(c, events, i) > 0
    ensures var init := events[..|events| - 1];
            && (forall i :: 0 < i <= |init| ==> CountAfter(c, init, i) > 0)
            && c.nconn + Balance(init) >= 0
  {
    var init := events[..|events| - 1];
    forall i | 0 < i <= |init| ensures CountAfter(c, init, i) > 0 {
      assert init[..i] == events[..i];
      assert CountAfter(c, events, i) > 0;
    }
    if |events| == 1 {
      assert init == [];
    } else {
      assert CountAfter(c, events, |events| - 1) > 0;
    }
  }

  /** A close applied at count one on an open socket sends its frame and shuts
      the socket. */
  lemma LastClose(c1: Conn, e: Event)
    requires c1.connected && c1.nconn == 1 && e.Closed?
    ensures Apply(c1, e) == Done(c1.(nconn := 0, sent := c1.sent + e.frame, connected := false))
  {
  }

  /** K `open` lines followed by the closes of those K transfers, starting from a
      fresh connection: the socket is shut down on the K-th close and not
      before. */
  lemma OpensThenCloses(s: Bytes, frames: seq<Bytes>)
    requires frames != []
    ensures var k := |frames|;
            var events := seq(k, _ => Opened) + seq(k, i requires 0 <= i < k => Closed(frames[i]));
            var before := Run(Conn(0, s, true), events[..2 * k - 1]);
            var after := Run(Conn(0, s, true), events);
            && before.Ok() && before.state.nconn == 1 && before.state.connected
            && after.Ok() && after.state.nconn == 0 && !after.state.connected
  {
    var k := |frames|;
    var events := seq(k, _ => Opened) + seq(k, i requires 0 <= i < k => Closed(frames[i]));
    forall i | 0 <= i <= 2 * k ensures Balance(events[..i]) == if i <= k then i else 2 * k - i {
      BalancePrefix(events, k, i);
    }
    ClosedByLastClose(Conn(0, s, true), events);
    assert events[..2 * k] == events;
  }

  lemma {:induction false} BalancePrefix(events: seq<Event>, k: nat, i: nat)
    requires |events| == 2 * k && i <= 2 * k
    requires forall j :: 0 <= j < k ==> events[j] == Opened
    requires forall j :: k <= j < 2 * k ==> events[j].Closed?
    ensures Balance(events[..i]) == if i <= k then i else 2 * k - i
  {
    if i > 0 {
      BalancePrefix(events, k, i - 1);
      assert events[..i][..i - 1] == events[..i - 1];
    } else {
      assert events[..0] == [];
    }
  }

  /** Once the count has come back to zero the socket is closed for good: a
      transfer opened afterwards over the same connection raises on the first
      send of its close, so `try_close` is not reached, its close frame is not
      sent and the count stays at one. */
  lemma ReopenAfterZero(s: Bytes, t1: Bytes, t2: Bytes)
    ensures Run(Conn(0, s, true), [Opened, Closed(t1)]) == Done(Conn(0, s + t1, false))
    ensures Run(Conn(0, s, true), [Opened, Closed(t1), Opened, Closed(t2)])
            == Raise(Conn(1, s + t1, false), SocketClosed)
  {
    var c := Conn(0, s, true);
    var e := [Opened, Closed(t1), Opened, Closed(t2)];
    assert e[..3][..2] == e[..2] == [Opened, Closed(t1)];
    assert e[..2][..1] == [Opened] && [Opened][..0] == [];
    assert Run(c, [Opened]) == Done(Conn(1, s, true));
    assert Run(c, e[..2]) == Done(Conn(0, s + t1, false));
    assert Run(c, e[..3]) == Done(Conn(1, s + t1, false));
  }
}
