/** The objects of the plugin that change in place: a `Session` per connection
    (remote_subl.py:147-196), the `File` it is reading (remote_subl.py:43-144),
    and the plugin's registry of opened transfers with the temp files behind
    them (remote_subl.py:15, 199-227). Each method is tied to the step function
    that describes it. */
module Remote {
  import opened Common
  import opened Bytes
  import opened Disk
  import opened Registry
  import Trim
  import Utf8
  import Text
  import Connection
  import Frames
  import Parse
  import Payload
  import Actions

  /** A connection's `Session` together with the state of its socket: what was
      sent on it and whether it is still open. */
  class Session {
    var nconn: int
    var sent: Bytes
    var connected: bool
    var parsingData: bool
    var file: File?

    function Conn(): Connection.Conn
      reads this
    {
      Connection.Conn(nconn, sent, connected)
    }

    function Parser(): Parse.Parser
      reads this, file
    {
      Parse.Parser(if file == null then None else Some(file.Pending()), parsingData)
    }

    /** The transfer being read belongs to this session. */
    predicate Valid()
      reads this, file
    {
      file != null ==> file.session == this
    }

    /** `Session(socket)` on a socket that has just been accepted. */
    constructor ()
      ensures Valid() && Conn() == Connection.Conn(0, [], true) && Parser() == Parse.Initial
    {
      nconn := 0;
      sent := [];
      connected := true;
      parsingData := false;
      file := null;
    }

    /** `self.socket.send(data)` */
    method Send(data: Bytes) returns (raised: Option<Error>)
      modifies this`sent
      ensures Effect(Conn(), raised) == Connection.Send(old(Conn()), data)
    {
      if !connected {
        return Some(SocketClosed);
      }
      sent := sent + data;
      return None;
    }

    /** `Session.try_close()` */
    method TryClose() returns (raised: Option<Error>)
      modifies this`nconn, this`connected
      ensures Effect(Conn(), raised) == Connection.TryClose(old(Conn()))
    {
      nconn := nconn - 1;
      if nconn == 0 {
        if !connected {
          return Some(SocketClosed);
        }
        connected := false;
      }
      return None;
    }

    /** `Session.parse_input(line)`. Unless the line completes a payload this is
        exactly one `Parse.Step`; a completed payload is opened with `File.open`,
        after which the session drops the transfer and leaves payload mode, and
        if the open raises the session stays as the step left it. */
    method ParseInput(line: Bytes, plugin: Plugin, editor: Path -> ViewId) returns (raised: Option<Error>)
      requires Valid() && plugin.Valid()
      modifies this, file, plugin, plugin.Owners()`nconn, plugin.Owners()`sent, plugin.Owners()`connected
      ensures Valid() && plugin.Valid()
      ensures old(sent) <= sent
      ensures plugin.Owners() <= old(plugin.Owners()) + {this}
      ensures file == null || file == old(file) || fresh(file)
      ensures var r := Parse.Step(old(Parser()), line);
              !r.complete ==>
                && Parser() == r.parser && raised == r.raised
                && Conn() == old(Conn()).(nconn := old(nconn) + if r.started then 1 else 0)
                && plugin.files == old(plugin.files) && plugin.disk == old(plugin.disk)
                && plugin.labels == old(plugin.labels)
                && forall x :: x in old(plugin.Owners()) && x != this ==> x.Conn() == old(x.Conn())
      ensures var r := Parse.Step(old(Parser()), line);
              r.complete ==>
                var o := Actions.OpenSteps(old(plugin.files), old(plugin.disk), r.parser.file.value, this, editor);
                var prev := Displaced(old(plugin.files), o);
                && raised == o.raised
                && Parser() == (if raised.None? then Parse.Parser(None, false) else r.parser)
                && plugin.Opened(old(plugin.files), old(plugin.labels), o)
                && (forall x :: (x in old(plugin.Owners()) || x == this) && (prev.None? || x != prev.value.owner) ==>
                      x.Conn() == old(x.Conn()))
                && (prev.Some? ==>
                      prev.value.owner.Conn() == Actions.CloseSteps(old(prev.value.owner.Conn()), o.disk, prev.value.transfer, false).conn)
    {
      if Trim.Strip(line, IsSpaceByte) == Parse.OPEN {
        file := new File(this);
        nconn := nconn + 1;
        return None;
      }
      if parsingData {
        assert Parse.Step(old(Parser()), line) == Parse.PayloadStep(old(Parser().file), line);
        raised := PayloadInput(line, plugin, editor);
      } else if file != null {
        assert Parse.Step(old(Parser()), line) == Parse.HeaderStep(file.Pending(), line);
        raised := HeaderInput(line);
      } else {
        raised := None;
      }
    }

    /** One turn of the read loop of `ConnectionHandler.handle`: the line goes to
        `parse_input`. Of what that does, the loop relies only on what is kept
        from line to line, which this states. */
    method ReadLine(line: Bytes, plugin: Plugin, editor: Path -> ViewId) returns (raised: Option<Error>)
      requires Valid() && plugin.Valid()
      modifies this, file, plugin, plugin.Owners()`nconn, plugin.Owners()`sent, plugin.Owners()`connected
      ensures Valid() && plugin.Valid()
      ensures old(sent) <= sent
      ensures plugin.Owners() <= old(plugin.Owners()) + {this}
      ensures file == null || file == old(file) || fresh(file)
      ensures raised.None? && Parse.Inv(old(Parser())) ==> Parse.Inv(Parser())
    {
      if Parse.Inv(Parser()) {
        Parse.StepKeepsInv(Parser(), line);
      }
      raised := ParseInput(line, plugin, editor);
    }

    /** The payload branch of `parse_input`: the line goes to `File.append`, and a
        payload it completes is opened. */
    method PayloadInput(line: Bytes, plugin: Plugin, editor: Path -> ViewId) returns (raised: Option<Error>)
      requires Valid() && plugin.Valid() && parsingData
      modifies this`parsingData, this`file, file, plugin, plugin.Owners()`nconn, plugin.Owners()`sent, plugin.Owners()`connected
      ensures Valid() && plugin.Valid()
      ensures old(sent) <= sent
      ensures plugin.Owners() <= old(plugin.Owners()) + {this}
      ensures file == null || file == old(file)
      ensures var r := Parse.PayloadStep(old(Parser().file), line);
              !r.complete ==>
                && Parser() == r.parser && raised == r.raised
                && Conn() == old(Conn())
                && plugin.files == old(plugin.files) && plugin.disk == old(plugin.disk)
                && plugin.labels == old(plugin.labels)
                && forall x :: x in old(plugin.Owners()) ==> x.Conn() == old(x.Conn())
      ensures var r := Parse.PayloadStep(old(Parser().file), line);
              r.complete ==>
                var o := Actions.OpenSteps(old(plugin.files), old(plugin.disk), r.parser.file.value, this, editor);
                var prev := Displaced(old(plugin.files), o);
                && raised == o.raised
                && Parser() == (if raised.None? then Parse.Parser(None, false) else r.parser)
                && plugin.Opened(old(plugin.files), old(plugin.labels), o)
                && (forall x :: (x in old(plugin.Owners()) || x == this) && (prev.None? || x != prev.value.owner) ==>
                      x.Conn() == old(x.Conn()))
                && (prev.Some? ==>
                      prev.value.owner.Conn() == Actions.CloseSteps(old(prev.value.owner.Conn()), o.disk, prev.value.transfer, false).conn)
    {
      if file == null {
        return Some(MissingAttribute("append"));
      }
      raised := file.Append(line);
      if raised.Some? || !file.ready {
        return;
      }
      raised := Complete(plugin, editor);
    }

    /** A payload is complete: `File.open`, after which the session drops the
        transfer and leaves payload mode; if the open raises, the session stays
        as it was. */
    method Complete(plugin: Plugin, editor: Path -> ViewId) returns (raised: Option<Error>)
      requires Valid() && plugin.Valid() && file != null
      modifies this`parsingData, this`file, plugin, plugin.Owners()`nconn, plugin.Owners()`sent, plugin.Owners()`connected
      ensures Valid() && plugin.Valid()
      ensures old(sent) <= sent
      ensures plugin.Owners() <= old(plugin.Owners()) + {this}
      ensures file == null || file == old(file)
      ensures var o := Actions.OpenSteps(old(plugin.files), old(plugin.disk), old(file.Pending()), this, editor);
              var prev := Displaced(old(plugin.files), o);
              && raised == o.raised
              && Parser() == (if raised.None? then Parse.Parser(None, false) else old(Parser()))
              && plugin.Opened(old(plugin.files), old(plugin.labels), o)
              && (forall x :: (x in old(plugin.Owners()) || x == this) && (prev.None? || x != prev.value.owner) ==>
                    x.Conn() == old(x.Conn()))
              && (prev.Some? ==>
                    prev.value.owner.Conn() == Actions.CloseSteps(old(prev.value.owner.Conn()), o.disk, prev.value.transfer, false).conn)
    {
      raised := file.Open(plugin, editor);
      if raised.Some? {
        return;
      }
      label afterOpen:
      parsingData := false;
      file := null;
      assert forall x: Session :: x.Conn() == old@afterOpen(x.Conn());
    }

    /** The header branch of `parse_input`: the line is decoded and stripped, and
        a `k: v` line goes to `SetHeader`. */
    method HeaderInput(line: Bytes) returns (raised: Option<Error>)
      requires file != null && !parsingData
      modifies this`parsingData, file`env, file`fileSize, file`display
      ensures var r := Parse.HeaderStep(old(file.Pending()), line);
              Parser() == r.parser && raised == r.raised
    {
      var text := Utf8.Decode(line);
      if text.None? {
        return Some(UndecodableHeader);
      }
      var header := Text.SplitHeader(Text.Strip(text.value));
      if header.None? {
        return None;
      }
      var (k, v) := header.value;
      raised := SetHeader(k, v);
    }

    /** A header `k: v` for the transfer being read: it is stored in `env`, and
        `data` and `display-name` are converted. */
    method SetHeader(k: string, v: string) returns (raised: Option<Error>)
      requires file != null && !parsingData
      modifies this`parsingData, file`env, file`fileSize, file`display
      ensures var h := Parse.SetHeader(old(file.Pending()), k, v);
              Parser() == Parse.Parser(Some(h.0), h.1) && raised == h.2
    {
      file.env := file.env[k := v];
      if k == "data" {
        var size := Text.ParseInt(v);
        if size.None? {
          return Some(NotAnInteger);
        }
        file.fileSize := size;
        parsingData := true;
      } else if k == "display-name" {
        var display := Text.SplitDisplayName(v);
        if display.None? {
          return Some(TooManyColons);
        }
        file.display := display;
      }
      return None;
    }
  }

  /** The sessions that carried the transfers of `slots`. */
  function OwnersOf(slots: seq<Slot<Session>>): set<Session> {
    set s | s in slots :: s.owner
  }

  lemma OwnersOfRegister(slots: seq<Slot<Session>>, slot: Slot<Session>)
    ensures OwnersOf(Register(slots, slot)) <= OwnersOf(slots) + {slot.owner}
  {
  }

  /** The registered transfer an open replaces: the one already registered under
      the view the editor opened. */
  function Displaced(files: seq<Slot<Session>>, o: Actions.Opening<Session>): Option<Slot<Session>> {
    if o.slot.Some? then Lookup(files, o.slot.value.view) else None
  }

  /** A transfer while its session reads it (remote_subl.py:43-56). */
  class File {
    const session: Session
    var env: map<string, string>
    var data: Bytes
    var ready: bool
    var fileSize: Option<int>
    var display: Option<Text.DisplayName>

    function Pending(): Parse.Pending
      reads this
    {
      Parse.Pending(env, data, ready, fileSize, display)
    }

    /** `File(session)` */
    constructor (session: Session)
      ensures this.session == session && Pending() == Parse.Fresh
    {
      this.session := session;
      env := map[];
      data := [];
      ready := false;
      fileSize := None;
      display := None;
    }

    /** `File.append(line)` */
    method Append(line: Bytes) returns (raised: Option<Error>)
      modifies this`data, this`ready
      ensures Effect(Pending(), raised) == Parse.AppendLine(old(Pending()), line)
    {
      if fileSize.None? {
        return Some(MissingAttribute("file_size"));
      }
      var size := fileSize.value;
      if |data| < size {
        data := data + line;
      }
      if |data| >= size {
        data := Payload.Prefix(data, size);
        ready := true;
      }
      return None;
    }

    /** `File.open()`: choose the temp directory, write the payload, let the
        editor open the temp file, close (without removing anything) the transfer
        that view held before, and register this transfer under the view. */
    method Open(plugin: Plugin, editor: Path -> ViewId) returns (raised: Option<Error>)
      requires plugin.Valid()
      modifies plugin, plugin.Owners()`nconn, plugin.Owners()`sent, plugin.Owners()`connected
      ensures plugin.Valid()
      ensures plugin.Owners() <= old(plugin.Owners()) + {session}
      ensures old(session.sent) <= session.sent
      ensures var o := Actions.OpenSteps(old(plugin.files), old(plugin.disk), old(Pending()), session, editor);
              var prev := Displaced(old(plugin.files), o);
              && raised == o.raised
              && plugin.Opened(old(plugin.files), old(plugin.labels), o)
              && (forall x :: (x in old(plugin.Owners()) || x == session) && (prev.None? || x != prev.value.owner) ==>
                    x.Conn() == old(x.Conn()))
              && (prev.Some? ==>
                    prev.value.owner.Conn() == Actions.CloseSteps(old(prev.value.owner.Conn()), o.disk, prev.value.transfer, false).conn)
    {
      var slot;
      raised, slot := Place(plugin, editor);
      if slot.None? {
        return;
      }
      plugin.Adopt(slot.value);
    }

    /** The part of `File.open` before the registry update: choose the temp
        directory, join the base name, write the payload (a failed write is
        cleaned up and reported, and `open` goes on), and let the editor open the
        temp file. Yields the registry entry, or what was raised on the way. */
    method Place(plugin: Plugin, editor: Path -> ViewId) returns (raised: Option<Error>, slot: Option<Slot<Session>>)
      requires plugin.Valid()
      modifies plugin`disk
      ensures var o := Actions.OpenSteps(old(plugin.files), old(plugin.disk), old(Pending()), session, editor);
              plugin.disk == o.disk && slot == o.slot && raised == o.raised
      ensures plugin.Valid()
      ensures slot.Some? ==> DistinctViews(Register(plugin.files, slot.value))
                             && Sharing(Register(plugin.files, slot.value), plugin.disk.made)
    {
      Actions.OpenKeepsSharing(plugin.files, plugin.disk, Pending(), session, editor);
      ghost var o := Actions.OpenSteps(plugin.files, plugin.disk, Pending(), session, editor);
      var td := TempDir(Transfers(plugin.files), env, Actions.HostAttribute(Pending()), plugin.disk);
      if !td.Ok() {
        return td.raised, None;
      }
      var (d1, dir) := td.state;
      plugin.disk := d1;
      if display.None? {
        return Some(MissingAttribute("base_name")), None;
      }
      var t := Transfer(env, display.value.host, display.value.baseName, dir);
      var w := WriteTemp(plugin.disk, t.TempPath(), data);
      plugin.disk := w.state;
      if !w.Ok() {
        return w.raised, None;
      }
      return None, Some(Slot(editor(t.TempPath()), t, session));
    }
  }

  /** The plugin's global state: `FILES`, the temp files on disk, and the
      `remote_subl.base_name` setting each view was given. */
  class Plugin {
    var files: seq<Slot<Session>>
    var disk: Disk
    var labels: map<ViewId, string>

    /** One entry per view; two transfers share a directory exactly when they
        have the same `real-path` and the same truthy host. */
    predicate Valid()
      reads this
    {
      disk.Valid() && DistinctViews(files) && Sharing(files, disk.made)
    }

    /** The sessions whose transfers are registered. */
    function Owners(): set<Session>
      reads this
    {
      OwnersOf(files)
    }

    /** The registry and settings after an open described by `o`. */
    predicate Opened(files0: seq<Slot<Session>>, labels0: map<ViewId, string>, o: Actions.Opening<Session>)
      reads this
    {
      && disk == o.disk
      && (o.slot.None? ==> files == files0 && labels == labels0)
      && (o.slot.Some? ==>
            && files == Register(files0, o.slot.value)
            && labels == labels0[o.slot.value.view := o.slot.value.transfer.baseName])
    }

    constructor ()
      ensures Valid() && files == [] && disk == Empty && labels == map[]
    {
      files := [];
      disk := Empty;
      labels := map[];
    }

    /** `File.close(remove)` on a registered transfer. */
    method Close(slot: Slot<Session>, remove: bool) returns (raised: Option<Error>)
      requires disk.Valid()
      modifies this`disk, slot.owner`nconn, slot.owner`sent, slot.owner`connected
      ensures var r := Actions.CloseSteps(old(slot.owner.Conn()), old(disk), slot.transfer, remove);
              slot.owner.Conn() == r.conn && disk == r.disk && raised == r.raised
    {
      var s, t := slot.owner, slot.transfer;
      raised := s.Send(Frames.CLOSE + [LF]);
      if raised.Some? {
        return;
      }
      if "token" !in t.env {
        return Some(MissingKey("token"));
      }
      raised := s.Send(Frames.TokenLine(t.env["token"]));
      raised := s.Send([LF]);
      Actions.CloseFrameParts(old(s.sent), t.env["token"]);
      if remove {
        var u := Unlink(disk, t.TempPath());
        disk := u.state;
        if !u.Ok() {
          return u.raised;
        }
        var m := Rmdir(disk, t.dir);
        disk := m.state;
        if !m.Ok() {
          return m.raised;
        }
      }
      raised := s.TryClose();
    }

    /** The end of `File.open`: the view gets its `remote_subl.base_name`
        setting, the transfer registered under the view is popped and closed
        without removing its files, whatever the close raises, and the new
        transfer is registered under the view. */
    method Adopt(slot: Slot<Session>)
      requires disk.Valid() && DistinctViews(Register(files, slot)) && Sharing(Register(files, slot), disk.made)
      modifies this`files, this`disk, this`labels, Owners()`nconn, Owners()`sent, Owners()`connected
      ensures Valid()
      ensures files == Register(old(files), slot) && disk == old(disk)
      ensures labels == old(labels)[slot.view := slot.transfer.baseName]
      ensures Owners() <= old(Owners()) + {slot.owner}
      ensures old(slot.owner.sent) <= slot.owner.sent
      ensures var prev := Lookup(old(files), slot.view);
              && (forall x :: (x in old(Owners()) || x == slot.owner) && (prev.None? || x != prev.value.owner) ==>
                    x.Conn() == old(x.Conn()))
              && (prev.Some? ==>
                    prev.value.owner.Conn() == Actions.CloseSteps(old(prev.value.owner.Conn()), disk, prev.value.transfer, false).conn)
    {
      var prev := Lookup(files, slot.view);
      files := Remove(files, slot.view);
      if prev.Some? {
        var _ := Close(prev.value, false);
      }
      files := files + [slot];
      OwnersOfRegister(old(files), slot);
      labels := labels[slot.view := slot.transfer.baseName];
    }

    /** `File.save()` on a registered transfer. */
    method Save(slot: Slot<Session>) returns (raised: Option<Error>)
      modifies slot.owner`sent
      ensures Effect(slot.owner.Conn(), raised) == Actions.SaveSteps(old(slot.owner.Conn()), disk, slot.transfer)
    {
      var s, t := slot.owner, slot.transfer;
      raised := s.Send(Frames.SAVE + [LF]);
      if raised.Some? {
        return;
      }
      if "token" !in t.env {
        return Some(MissingKey("token"));
      }
      raised := s.Send(Frames.TokenLine(t.env["token"]));
      var read := ReadFile(disk, t.TempPath());
      if !read.Ok() {
        return read.raised;
      }
      var content := read.state;
      raised := s.Send(Frames.DataLine(|content|));
      raised := s.Send(content);
      raised := s.Send([LF]);
      Actions.SaveFrameParts(old(s.sent), t.env["token"], content);
    }

    /** Whether a view carries a truthy `remote_subl.base_name` setting. */
    predicate IsRemoteView(view: ViewId)
      reads this
    {
      view in labels && labels[view] != ""
    }

    /** `on_close(view)`: for a view of a remote file, pop its transfer and close
        it, removing the temp file and directory. What it raises is only logged. */
    method OnClose(view: ViewId) returns (raised: Option<Error>)
      requires Valid()
      modifies this`files, this`disk, Owners()`nconn, Owners()`sent, Owners()`connected
      ensures Valid()
      ensures var prev := Lookup(old(files), view);
              && (!IsRemoteView(view) || prev.None? ==>
                    && files == old(files) && disk == old(disk)
                    && raised == (if IsRemoteView(view) then Some(NotRegistered) else None))
              && (IsRemoteView(view) && prev.Some? ==>
                    var r := Actions.CloseSteps(old(prev.value.owner.Conn()), old(disk), prev.value.transfer, true);
                    && files == Remove(old(files), view)
                    && prev.value.owner.Conn() == r.conn && disk == r.disk && raised == r.raised)
              && forall x :: x in old(Owners()) && (prev.None? || !IsRemoteView(view) || x != prev.value.owner) ==> x.Conn() == old(x.Conn())
    {
      if !IsRemoteView(view) {
        return None;
      }
      var prev := Lookup(files, view);
      if prev.None? {
        return Some(NotRegistered);
      }
      files := Remove(files, view);
      raised := Close(prev.value, true);
    }

    /** `on_post_save_async(view)`: for a view of a remote file, send its
        transfer's temp file back. What it raises is only logged. */
    method OnPostSave(view: ViewId) returns (raised: Option<Error>)
      modifies Owners()`sent
      ensures var prev := Lookup(files, view);
              && (!IsRemoteView(view) || prev.None? ==>
                    raised == (if IsRemoteView(view) then Some(NotRegistered) else None))
              && (IsRemoteView(view) && prev.Some? ==>
                    Effect(prev.value.owner.Conn(), raised)
                    == Actions.SaveSteps(old(prev.value.owner.Conn()), disk, prev.value.transfer))
              && forall x :: x in Owners() && (prev.None? || !IsRemoteView(view) || x != prev.value.owner) ==> x.Conn() == old(x.Conn())
    {
      if !IsRemoteView(view) {
        return None;
      }
      var prev := Lookup(files, view);
      if prev.None? {
        return Some(NotRegistered);
      }
      raised := Save(prev.value);
    }
  }

  /** The greeting a new connection receives: the ASCII bytes of
      "Sublime Text 3 (remote_subl plugin)" and a line feed. */
  const GREETING: Bytes := [83, 117, 98, 108, 105, 109, 101, 32, 84, 101, 120, 116, 32, 51, 32, 40, 114, 101,
                            109, 111, 116, 101, 95, 115, 117, 98, 108, 32, 112, 108, 117, 103, 105, 110, 41, 10]

  /** `ConnectionHandler.handle()` on a connection whose remote side sends
      `stream` and then closes: a new session greets the remote side, then
      parses the stream line by line until it ends or a line raises. Yields the
      session, how many lines were parsed without raising, and the exception
      that ended the loop. However `handle` ends, the server then shuts the
      request's socket down and closes it. */
  method Handle(stream: Bytes, plugin: Plugin, editor: Path -> ViewId) returns (session: Session, parsed: nat, raised: Option<Error>)
    requires plugin.Valid()
    modifies plugin, plugin.Owners()`nconn, plugin.Owners()`sent, plugin.Owners()`connected
    ensures fresh(session) && session.Valid() && plugin.Valid()
    ensures GREETING <= session.sent
    ensures parsed <= |ReadLines(stream)|
    ensures raised.None? <==> parsed == |ReadLines(stream)|
    ensures raised.None? ==> Parse.Inv(session.Parser())
    ensures !session.connected
  {
    session := new Session();
    raised := session.Send(GREETING);
    var lines := ReadLines(stream);
    parsed := 0;
    Parse.InitialInv();
    while parsed < |lines|
      invariant parsed <= |lines| && raised.None?
      invariant session.Valid() && plugin.Valid() && GREETING <= session.sent
      invariant Parse.Inv(session.Parser())
      invariant fresh(session) && (session.file != null ==> fresh(session.file))
      invariant plugin.Owners() <= old(plugin.Owners()) + {session}
      decreases |lines| - parsed
    {
      raised := session.ReadLine(lines[parsed], plugin, editor);
      if raised.Some? {
        session.connected := false;
        return;
      }
      parsed := parsed + 1;
    }
    session.connected := false;
  }
}
