/** routes/logs.py: the connection registries shared by the websocket
    handlers, the per-device receive loop that stores logs, rebroadcasts
    them and saves the picture frames that follow, and the two statistics
    sockets. Sockets are identities; the database insert is a function
    from the records stored so far to the id of the newest one. */
module EventStream {
  import opened Basics

  /** The identity of one accepted websocket. */
  type Socket = nat

  /** One `send_text` attempt of a broadcast and whether it went through. */
  datatype Delivery = Delivery(to: Socket, message: string, ok: bool)

  /** `list.remove`: drop the first occurrence, if any. */
  function RemoveFirst(s: seq<Socket>, x: Socket): seq<Socket> {
    if s == [] then []
    else if s[0] == x then s[1..]
    else [s[0]] + RemoveFirst(s[1..], x)
  }

  /** The sends of one broadcast, one per registered connection, in list
      order; the sockets in `failing` raise on send. */
  function Attempts(conns: seq<Socket>, message: string, failing: set<Socket>): seq<Delivery>
    decreases |conns|
  {
    if conns == [] then []
    else
      var last := conns[|conns| - 1];
      Attempts(conns[..|conns| - 1], message, failing) + [Delivery(last, message, last !in failing)]
  }

  /** ConnectionManager: the list of active connections. */
  class ConnectionManager {
    var active: seq<Socket>

    constructor ()
      ensures active == []
    {
      active := [];
    }

    /** Accept and register at the end; a socket may be registered twice. */
    method Connect(ws: Socket)
      modifies this
      ensures active == old(active) + [ws]
    {
      active := active + [ws];
    }

    /** Unregister one occurrence if present. */
    method Disconnect(ws: Socket)
      modifies this
      ensures active == RemoveFirst(old(active), ws)
      ensures ws !in old(active) ==> active == old(active)
      ensures multiset(active) == multiset(old(active)) - multiset{ws}
    {
      RemoveAbsent(active, ws);
      RemoveFirstMultiset(active, ws);
      if ws in active {
        var i := 0;
        while active[i] != ws
          invariant 0 <= i < |active| && ws in active[i..]
          invariant ws !in active[..i]
          decreases |active| - i
        {
          assert active[i..] == [active[i]] + active[i + 1..];
          assert active[..i + 1] == active[..i] + [active[i]];
          i := i + 1;
        }
        RemoveFirstAt(active, ws, i);
        active := active[..i] + active[i + 1..];
      }
    }

    /** Send `message` to every registered connection; a failed send is
        reported and the loop goes on. The list itself is left as it is. */
    method Broadcast(message: string, failing: set<Socket>) returns (attempts: seq<Delivery>)
      ensures attempts == Attempts(active, message, failing)
    {
      attempts := [];
      for i := 0 to |active|
        invariant attempts == Attempts(active[..i], message, failing)
      {
        assert active[..i + 1][..i] == active[..i];
        var connection := active[i];
        attempts := attempts + [Delivery(connection, message, connection !in failing)];
      }
      assert active[..|active|] == active;
    }
  }

  /** A broadcast tries each registered connection once, in order, and a
      send succeeds exactly when that socket does not fail. */
  lemma {:induction false} AttemptsMeaning(conns: seq<Socket>, message: string, failing: set<Socket>)
    ensures |Attempts(conns, message, failing)| == |conns|
    ensures forall i :: 0 <= i < |conns| ==>
      Attempts(conns, message, failing)[i] == Delivery(conns[i], message, conns[i] !in failing)
    decreases |conns|
  {
    if conns != [] {
      AttemptsMeaning(conns[..|conns| - 1], message, failing);
    }
  }

  /** Every healthy connection gets the message, whoever fails before it. */
  lemma HealthyConnectionsReached(conns: seq<Socket>, message: string, failing: set<Socket>, s: Socket)
    requires s in conns && s !in failing
    ensures Delivery(s, message, true) in Attempts(conns, message, failing)
  {
    AttemptsMeaning(conns, message, failing);
    var i :| 0 <= i < |conns| && conns[i] == s;
    assert Attempts(conns, message, failing)[i] == Delivery(s, message, true);
  }

  lemma {:induction false} RemoveAbsent(s: seq<Socket>, x: Socket)
    ensures x !in s ==> RemoveFirst(s, x) == s
    decreases |s|
  {
    if s != [] && x !in s {
      assert forall y :: y in s[1..] ==> y in s;
      RemoveAbsent(s[1..], x);
      assert [s[0]] + s[1..] == s;
    }
  }

  /** Removing at the first occurrence. */
  lemma {:induction false} RemoveFirstAt(s: seq<Socket>, x: Socket, i: int)
    requires 0 <= i < |s| && s[i] == x && x !in s[..i]
    ensures RemoveFirst(s, x) == s[..i] + s[i + 1..]
    decreases i
  {
    if i > 0 {
      assert s[0] in s[..i];
      assert s[1..][..i - 1] == s[1..i];
      assert s[1..i] == s[..i][1..];
      assert forall y :: y in s[..i][1..] ==> y in s[..i];
      RemoveFirstAt(s[1..], x, i - 1);
      assert s[1..][i..] == s[i + 1..];
      assert [s[0]] + s[1..i] == s[..i];
    }
  }

  /** Exactly one registration of `x` goes away. */
  lemma {:induction false} RemoveFirstMultiset(s: seq<Socket>, x: Socket)
    ensures multiset(RemoveFirst(s, x)) == multiset(s) - multiset{x}
    decreases |s|
  {
    if s != [] {
      assert s == [s[0]] + s[1..];
      if s[0] != x {
        RemoveFirstMultiset(s[1..], x);
      }
    }
  }

  /** Connecting a new socket and disconnecting it restores the list; with
      a duplicate registration one disconnect leaves the other in place. */
  lemma ConnectThenDisconnect(s: seq<Socket>, x: Socket)
    ensures x !in s ==> RemoveFirst(s + [x], x) == s
    ensures RemoveFirst([x, x], x) == [x]
  {
    if x !in s {
      assert (s + [x])[..|s|] == s;
      RemoveFirstAt(s + [x], x, |s|);
      assert (s + [x])[|s| + 1..] == [];
    }
  }

  // ---------------------------------------------------------------------
  // The device socket /logs/{device_id}

  /** What `receive()` hands the loop: a text frame, a binary frame, a
      message with neither key, or the client's disconnect message, which
      `receive()` returns rather than raises. */
  datatype Frame = Text(text: string) | Binary(data: seq<byte>) | Other | Disconnected

  /** The fields add_logs_to_db is given; the timestamp after `int(...)`. */
  datatype LogRecord = LogRecord(username: string, deviceId: string, name: string,
                                 timestamp: int, kind: string, apartment: string)

  /** json.loads of a text frame: not JSON at all, a record (with its
      re-serialisation for the clients), or JSON whose fields cannot be
      read (not an object, or a timestamp `int()` rejects). */
  datatype Decoded = NotJson | Log(record: LogRecord, echo: string) | Unusable

  /** The loop's state: `res`, the stored records, the image files written,
      and the messages broadcast to the clients. */
  datatype Session = Session(res: Option<int>, stored: seq<LogRecord>,
                             images: map<string, seq<byte>>, sent: seq<string>)

  function InitialSession(): Session { Session(None, [], map[], []) }

  datatype StepResult = Next(s: Session) | Crashed(fault: Fault, s: Session)

  /** `f"./data/logs/{res}.jpg"`. */
  function LogImagePath(id: int): string {
    "./data/logs/" + IntToString(id) + ".jpg"
  }

  /** One turn of the loop. The disconnect message has neither a "text"
      nor a "bytes" key, so it falls through like any other such message. */
  function Step(st: Session, frame: Frame, decode: string -> Decoded, assign: seq<LogRecord> -> int)
    : (r: StepResult)
    ensures r.Crashed? <==>
      (frame.Text? && frame.text != "ping" && decode(frame.text).Unusable?) || (frame.Binary? && st.res.None?)
    ensures r.Crashed? ==> r.s == st
    ensures st.stored <= r.s.stored && |r.s.stored| <= |st.stored| + 1
    ensures |r.s.sent| - |st.sent| == |r.s.stored| - |st.stored|
    ensures r.s.images.Keys <= st.images.Keys + (if st.res.Some? then {LogImagePath(st.res.value)} else {})
    ensures frame.Text? && frame.text != "ping" && decode(frame.text).Log? ==>
      var stored := st.stored + [decode(frame.text).record];
      r == Next(Session(Some(assign(stored)), stored, st.images, st.sent + [decode(frame.text).echo]))
    ensures frame.Binary? && st.res.Some? ==>
      r == Next(st.(images := st.images[LogImagePath(st.res.value) := frame.data]))
    ensures frame.Other? || frame.Disconnected? || (frame.Text? && (frame.text == "ping" || decode(frame.text).NotJson?))
      ==> r == Next(st)
  {
    match frame
    case Disconnected => Next(st)
    case Other => Next(st)
    case Text(t) =>
      if t == "ping" then Next(st)
      else
        (match decode(t)
         case NotJson => Next(st)
         case Unusable => Crashed(BadLogFields, st)
         case Log(rec, echo) =>
           var stored := st.stored + [rec];
           Next(Session(Some(assign(stored)), stored, st.images, st.sent + [echo])))
    case Binary(d) =>
      (match st.res
       case None => Crashed(UnboundName("res"), st)
       case Some(id) => Next(st.(images := st.images[LogImagePath(id) := d])))
  }

  /** How a run of frames ends: the handler raised, or the frames ran out
      with the socket still open. No end unregisters the device: the
      `except WebSocketDisconnect` is never reached, because `receive()`
      returns the disconnect message and the call after it raises
      RuntimeError instead. */
  datatype SessionEnd = Crash(fault: Fault, s: Session) | Open(s: Session)

  /** The loop over the frames the server delivers; the `receive()` after
      a disconnect message raises. */
  function Run(st: Session, frames: seq<Frame>, decode: string -> Decoded, assign: seq<LogRecord> -> int)
    : (r: SessionEnd)
    ensures Disconnected in frames ==> r.Crash?
    decreases |frames|
  {
    if frames == [] then Open(st)
    else
      match Step(st, frames[0], decode, assign)
      case Crashed(f, s) => Crash(f, s)
      case Next(s) =>
        if frames[0].Disconnected? then Crash(ReceiveAfterClose, s)
        else Run(s, frames[1..], decode, assign)
  }

  /** The RuntimeError of a second `receive()` comes only from a
      disconnect message, and a run only ever adds logs, at most one per
      frame, after those stored before it. */
  lemma {:induction false} RunMeaning(st: Session, frames: seq<Frame>, decode: string -> Decoded,
                                      assign: seq<LogRecord> -> int)
    ensures var r := Run(st, frames, decode, assign);
      && (r.Crash? && r.fault == ReceiveAfterClose ==> Disconnected in frames)
      && st.stored <= r.s.stored && |r.s.stored| <= |st.stored| + |frames|
    decreases |frames|
  {
    if frames != [] {
      var next := Step(st, frames[0], decode, assign);
      if next.Next? && !frames[0].Disconnected? {
        RunMeaning(next.s, frames[1..], decode, assign);
        assert forall f :: f in frames[1..] ==> f in frames;
      }
    }
  }

  /** What the loop keeps: one broadcast per stored log, and `res` unbound
      until the first log, then the id of the newest. */
  predicate SessionInv(st: Session, assign: seq<LogRecord> -> int) {
    && |st.sent| == |st.stored|
    && (st.stored == [] <==> st.res.None?)
    && (st.stored != [] ==> st.res == Some(assign(st.stored)))
    && (st.stored == [] ==> st.images == map[])
  }

  lemma StepKeepsInv(st: Session, frame: Frame, decode: string -> Decoded, assign: seq<LogRecord> -> int)
    requires SessionInv(st, assign)
    ensures SessionInv(Step(st, frame, decode, assign).s, assign)
  {
  }

  lemma {:induction false} RunKeepsInv(st: Session, frames: seq<Frame>, decode: string -> Decoded,
                                       assign: seq<LogRecord> -> int)
    requires SessionInv(st, assign)
    ensures SessionInv(Run(st, frames, decode, assign).s, assign)
    decreases |frames|
  {
    if frames != [] {
      StepKeepsInv(st, frames[0], decode, assign);
      if Step(st, frames[0], decode, assign).Next? {
        RunKeepsInv(Step(st, frames[0], decode, assign).s, frames[1..], decode, assign);
      }
    }
  }

  /** "ping", a message with neither key, the disconnect message and
      undecodable text change nothing, `res` included. */
  lemma IgnoredFramesChangeNothing(st: Session, t: string, decode: string -> Decoded, assign: seq<LogRecord> -> int)
    requires t == "ping" || decode(t) == NotJson
    ensures Step(st, Text(t), decode, assign) == Next(st)
    ensures Step(st, Other, decode, assign) == Next(st)
    ensures Step(st, Disconnected, decode, assign) == Next(st)
  {
  }

  /** A client that goes away ends the handler with the RuntimeError of the
      next `receive()`, with the session as it was; what the server would
      deliver after that is never read. */
  lemma DisconnectRaisesOnNextReceive(st: Session, rest: seq<Frame>, decode: string -> Decoded,
                                      assign: seq<LogRecord> -> int)
    ensures Run(st, [Disconnected] + rest, decode, assign) == Crash(ReceiveAfterClose, st)
  {
    assert ([Disconnected] + rest)[0] == Disconnected;
  }

  /** A picture before any log raises on the unbound `res`, and the
      exception is not the disconnect the handler catches. */
  lemma ImageFirstCrashes(d: seq<byte>, rest: seq<Frame>, decode: string -> Decoded, assign: seq<LogRecord> -> int)
    ensures Run(InitialSession(), [Binary(d)] + rest, decode, assign) == Crash(UnboundName("res"), InitialSession())
  {
  }

  /** A log then two pictures: the second picture replaces the first in
      the one file named after the log's id. */
  lemma SecondImageOverwrites(t: string, rec: LogRecord, echo: string, d1: seq<byte>, d2: seq<byte>,
                              decode: string -> Decoded, assign: seq<LogRecord> -> int)
    requires t != "ping" && decode(t) == Log(rec, echo)
    ensures Run(InitialSession(), [Text(t), Binary(d1), Binary(d2)], decode, assign)
      == Open(Session(Some(assign([rec])), [rec], map[LogImagePath(assign([rec])) := d2], [echo]))
  {
    var frames := [Text(t), Binary(d1), Binary(d2)];
    var s1 := Session(Some(assign([rec])), [rec], map[], [echo]);
    assert [] + [rec] == [rec] && [] + [echo] == [echo];
    assert Step(InitialSession(), Text(t), decode, assign) == Next(s1);
    var p := LogImagePath(assign([rec]));
    var s2 := s1.(images := map[p := d1]);
    assert frames[1..] == [Binary(d1), Binary(d2)];
    assert frames[1..][1..] == [Binary(d2)];
    assert frames[1..][1..][1..] == [];
    assert Step(s1, Binary(d1), decode, assign) == Next(s2);
    var s3 := s2.(images := map[p := d1][p := d2]);
    assert Step(s2, Binary(d2), decode, assign) == Next(s3);
    assert Run(s3, [], decode, assign) == Open(s3);
    assert Run(s2, [Binary(d2)], decode, assign) == Open(s3);
    assert Run(s1, frames[1..], decode, assign) == Open(s3);
    assert map[p := d1][p := d2] == map[p := d2];
  }

  /** The frames of a run of pictures, in order. */
  function PictureFrames(pics: seq<seq<byte>>): (r: seq<Frame>)
    ensures |r| == |pics|
    ensures forall i :: 0 <= i < |pics| ==> r[i] == Binary(pics[i])
  {
    seq(|pics|, i requires 0 <= i < |pics| => Binary(pics[i]))
  }

  /** Once `res` is bound, every picture that follows overwrites the one
      file named after it, whatever the session holds: the file ends with
      the last picture, and nothing else changes. */
  lemma {:induction false} PicturesGoToCurrentLog(st: Session, pics: seq<seq<byte>>,
                                                  decode: string -> Decoded, assign: seq<LogRecord> -> int)
    requires st.res.Some? && pics != []
    ensures Run(st, PictureFrames(pics), decode, assign)
      == Open(st.(images := st.images[LogImagePath(st.res.value) := pics[|pics| - 1]]))
    decreases |pics|
  {
    var path := LogImagePath(st.res.value);
    var frames := PictureFrames(pics);
    var next := st.(images := st.images[path := pics[0]]);
    assert Step(st, frames[0], decode, assign) == Next(next);
    var rest := pics[1..];
    assert frames[1..] == PictureFrames(rest);
    if rest == [] {
      assert Run(next, frames[1..], decode, assign) == Open(next);
    } else {
      PicturesGoToCurrentLog(next, rest, decode, assign);
      assert rest[|rest| - 1] == pics[|pics| - 1];
      assert next.images[path := rest[|rest| - 1]] == st.images[path := pics[|pics| - 1]];
    }
  }

  /** A log frame followed by pictures, from any session: the log is
      stored and broadcast, `res` becomes the id it was given, and the
      pictures all land in that id's file, which ends with the last one. */
  lemma {:induction false} LogThenPictures(st: Session, t: string, rec: LogRecord, echo: string,
                                           pics: seq<seq<byte>>,
                                           decode: string -> Decoded, assign: seq<LogRecord> -> int)
    requires t != "ping" && decode(t) == Log(rec, echo) && pics != []
    ensures var stored := st.stored + [rec];
      var id := assign(stored);
      Run(st, [Text(t)] + PictureFrames(pics), decode, assign)
        == Open(Session(Some(id), stored, st.images[LogImagePath(id) := pics[|pics| - 1]], st.sent + [echo]))
  {
    var stored := st.stored + [rec];
    var s1 := Session(Some(assign(stored)), stored, st.images, st.sent + [echo]);
    var frames := [Text(t)] + PictureFrames(pics);
    assert frames[0] == Text(t);
    assert Step(st, Text(t), decode, assign) == Next(s1);
    assert frames[1..] == PictureFrames(pics);
    PicturesGoToCurrentLog(s1, pics, decode, assign);
  }

  /** Pictures saved after different logs go to different files. */
  lemma DistinctIdsDistinctFiles(a: int, b: int)
    requires a != b
    ensures LogImagePath(a) != LogImagePath(b)
  {
    if LogImagePath(a) == LogImagePath(b) {
      var pre := "./data/logs/";
      assert IntToString(a) + ".jpg" == LogImagePath(a)[|pre|..];
      assert IntToString(b) + ".jpg" == LogImagePath(b)[|pre|..];
      var n := |IntToString(a) + ".jpg"|;
      assert IntToString(a) == (IntToString(a) + ".jpg")[..n - 4];
      assert IntToString(b) == (IntToString(b) + ".jpg")[..|IntToString(b) + ".jpg"| - 4];
      IntToStringInjective(a, b);
    }
  }

  /** The sends of every broadcast of a session, in order. */
  function Fanout(conns: seq<Socket>, messages: seq<string>, failing: set<Socket>): seq<Delivery>
    decreases |messages|
  {
    if messages == [] then []
    else Fanout(conns, messages[..|messages| - 1], failing) + Attempts(conns, messages[|messages| - 1], failing)
  }

  /** Each broadcast reaches every client connection once. */
  lemma {:induction false} FanoutSize(conns: seq<Socket>, messages: seq<string>, failing: set<Socket>)
    ensures |Fanout(conns, messages, failing)| == |messages| * |conns|
    decreases |messages|
  {
    if messages != [] {
      var n := |messages| - 1;
      FanoutSize(conns, messages[..n], failing);
      AttemptsMeaning(conns, messages[n], failing);
      assert |Fanout(conns, messages, failing)|
        == |Fanout(conns, messages[..n], failing)| + |Attempts(conns, messages[n], failing)|;
      assert |messages| * |conns| == n * |conns| + |conns|;
    }
  }

  lemma RunStep(st: Session, frames: seq<Frame>, i: int, decode: string -> Decoded, assign: seq<LogRecord> -> int)
    requires 0 <= i < |frames|
    ensures Step(st, frames[i], decode, assign).Next? && !frames[i].Disconnected? ==>
      Run(st, frames[i..], decode, assign) == Run(Step(st, frames[i], decode, assign).s, frames[i + 1..], decode, assign)
  {
    assert frames[i..][0] == frames[i];
    assert frames[i..][1..] == frames[i + 1..];
  }

  /** websocket_logs: register with the device manager and run the loop.
      Every way out is an exception other than WebSocketDisconnect or the
      end of the frames, so the socket stays registered. Logs are
      rebroadcast through the client manager. */
  method DeviceSession(devices: ConnectionManager, clients: ConnectionManager, ws: Socket, frames: seq<Frame>,
                       decode: string -> Decoded, assign: seq<LogRecord> -> int, failing: set<Socket>)
    returns (end: SessionEnd, deliveries: seq<Delivery>)
    requires devices != clients
    modifies devices
    ensures end == Run(InitialSession(), frames, decode, assign)
    ensures deliveries == Fanout(clients.active, end.s.sent, failing)
    ensures devices.active == old(devices.active) + [ws]
  {
    devices.Connect(ws);
    var st := InitialSession();
    deliveries := [];
    for i := 0 to |frames|
      invariant Run(InitialSession(), frames, decode, assign) == Run(st, frames[i..], decode, assign)
      invariant deliveries == Fanout(clients.active, st.sent, failing)
      invariant devices.active == old(devices.active) + [ws]
      invariant clients.active == old(clients.active)
    {
      RunStep(st, frames, i, decode, assign);
      assert frames[i..][0] == frames[i];
      match frames[i]
      case Disconnected =>
        return Crash(ReceiveAfterClose, st), deliveries;
      case Other =>
      case Text(t) =>
        if t != "ping" {
          match decode(t)
          case NotJson =>
          case Unusable =>
            return Crash(BadLogFields, st), deliveries;
          case Log(rec, echo) =>
            var stored := st.stored + [rec];
            var attempts := clients.Broadcast(echo, failing);
            assert (st.sent + [echo])[..|st.sent|] == st.sent;
            deliveries := deliveries + attempts;
            st := Session(Some(assign(stored)), stored, st.images, st.sent + [echo]);
        }
      case Binary(d) =>
        if st.res.None? {
          return Crash(UnboundName("res"), st), deliveries;
        }
        st := st.(images := st.images[LogImagePath(st.res.value) := d]);
    }
    assert frames[|frames|..] == [];
    end := Open(st);
  }

  // ---------------------------------------------------------------------
  // /client_logs and the statistics sockets

  /** websocket_client_logs only registers: its loop sleeps, and sleeping
      never raises the disconnect it waits for, so the registration stays. */
  method ClientLogs(clients: ConnectionManager, ws: Socket)
    modifies clients
    ensures clients.active == old(clients.active) + [ws]
  {
    clients.Connect(ws);
  }

  /** One turn of a statistics loop: the totals were sent, the client went
      away, or something else raised. */
  datatype Poll = Sent | ClientGone | Failed

  /** The number of polls before the first one that ends the loop. */
  function SentBeforeEnd(polls: seq<Poll>): (n: nat)
    ensures n <= |polls|
    ensures forall i :: 0 <= i < n ==> polls[i] == Sent
    ensures n < |polls| ==> polls[n] != Sent
  {
    if polls == [] || polls[0] != Sent then 0 else 1 + SentBeforeEnd(polls[1..])
  }

  /** logs_total_websocket (`needsToken` false) and
      logs_total_websocket_residents (`needsToken` true): register, then for
      the residents' socket close with 1008 when the token is missing or
      empty, without unregistering; otherwise poll until the client leaves
      or a send raises, and unregister in both cases. */
  method StatsSession(counts: ConnectionManager, ws: Socket, needsToken: bool, token: Option<string>,
                      polls: seq<Poll>)
    returns (closeCode: Option<int>, sent: nat)
    modifies counts
    ensures needsToken && (token.None? || token.value == "") ==>
      closeCode == Some(1008) && sent == 0 && counts.active == old(counts.active) + [ws]
    ensures !(needsToken && (token.None? || token.value == "")) ==>
      && closeCode.None?
      && sent == SentBeforeEnd(polls)
      && (if sent < |polls| then counts.active == RemoveFirst(old(counts.active) + [ws], ws)
          else counts.active == old(counts.active) + [ws])
  {
    counts.Connect(ws);
    if needsToken && (token.None? || token.value == "") {
      return Some(1008), 0;
    }
    closeCode := None;
    sent := 0;
    while sent < |polls| && polls[sent] == Sent
      invariant sent <= |polls|
      invariant SentBeforeEnd(polls) == sent + SentBeforeEnd(polls[sent..])
    {
      assert polls[sent..][1..] == polls[sent + 1..];
      sent := sent + 1;
    }
    assert sent == |polls| ==> polls[sent..] == [];
    if sent < |polls| {
      counts.Disconnect(ws);
    }
  }
}
