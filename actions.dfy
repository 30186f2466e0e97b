/** What `File.close`, `File.save` and `File.open` do to a connection, the temp
    files and the registry (remote_subl.py:58-75, 93-140), as functions of the
    state before them. Each follows the source statement by statement, and an
    exception leaves every effect that came before it. */
module Actions {
  import opened Common
  import opened Bytes
  import opened Disk
  import opened Registry
  import opened Connection
  import Frames
  import Utf8
  import Parse

  /** `self.env['token'].encode("utf8")`, looked up where the frames need it. */
  function Token(t: Transfer): string
    requires "token" in t.env
  {
    t.env["token"]
  }

  // ---- File.close ----

  /** The connection and the disk after a close, and what it raised. */
  datatype Closing = Closing(conn: Conn, disk: Disk, raised: Option<Error>)

  /** `os.unlink(temp_path)` and then `os.rmdir(temp_dir)`. */
  function RemoveTemp(d: Disk, t: Transfer): (r: Effect<Disk>)
    requires d.Valid()
    ensures r.state.Valid() && r.state.made == d.made
    ensures r.Ok() <==> t.TempPath() in d.files && forall p :: p in d.files && p.dir == t.dir ==> p == t.TempPath()
    ensures r.Ok() ==> r.state == Disk(d.dirs - {t.dir}, d.files - {t.TempPath()}, d.made)
    ensures !r.Ok() ==> r.raised == Some(NoSuchFile) || r.raised == Some(IsADirectory) || r.raised == Some(DirNotEmpty)
  {
    var u := Unlink(d, t.TempPath());
    if !u.Ok() then u else Rmdir(u.state, t.dir)
  }

  /** `File.close(remove)`: the close frame goes out in three sends, then with
      `remove` the temp file and its directory are deleted, whoever else uses
      them, and last `try_close` counts the transfer off. */
  function CloseSteps(c: Conn, d: Disk, t: Transfer, remove: bool): (r: Closing)
    requires d.Valid()
    ensures r.disk.Valid() && r.disk.made == d.made && r.disk.files.Keys <= d.files.Keys
    ensures !remove ==> r.disk == d
    ensures c.sent <= r.conn.sent
    ensures r.raised.None? <==>
              && c.connected && "token" in t.env
              && (remove ==> RemoveTemp(d, t).Ok())
    ensures r.raised.None? ==> r.conn.sent == c.sent + Frames.CloseFrame(Token(t))
    ensures r.conn.nconn == if r.raised.None? then c.nconn - 1 else c.nconn
    ensures r.conn.connected <==> c.connected && (r.raised.Some? || c.nconn != 1)
    ensures !c.connected ==> r == Closing(c, d, Some(SocketClosed))
  {
    if !c.connected then Closing(c, d, Some(SocketClosed))
    else
      var c1 := Send(c, Frames.CLOSE + [LF]).state;
      if "token" !in t.env then Closing(c1, d, Some(MissingKey("token")))
      else
        var c2 := Send(Send(c1, Frames.TokenLine(Token(t))).state, [LF]).state;
        assert c2.sent == c.sent + Frames.CloseFrame(Token(t)) by {
          CloseFrameParts(c.sent, Token(t));
        }
        var removed := if remove then RemoveTemp(d, t) else Done(d);
        if !removed.Ok() then Closing(c2, removed.state, removed.raised)
        else
          var tc := TryClose(c2);
          Closing(tc.state, removed.state, tc.raised)
  }

  /** A close that keeps its temp file is, for the connection, exactly the
      `Closed` event carrying its close frame: the same bytes sent, the same
      count, the same socket state and the same exception. */
  lemma CloseIsEvent(c: Conn, d: Disk, t: Transfer)
    requires d.Valid() && "token" in t.env
    ensures var r := CloseSteps(c, d, t, false);
            var a := Apply(c, Closed(Frames.CloseFrame(Token(t))));
            r.conn == a.state && r.raised == a.raised && r.disk == d
  {
    if c.connected {
      var c1 := Send(c, Frames.CLOSE + [LF]).state;
      var c2 := Send(Send(c1, Frames.TokenLine(Token(t))).state, [LF]).state;
      CloseFrameParts(c.sent, Token(t));
      assert c2 == c.(sent := c.sent + Frames.CloseFrame(Token(t)));
    }
  }

  lemma CloseFrameParts(s: Bytes, token: string)
    ensures s + (Frames.CLOSE + [LF]) + Frames.TokenLine(token) + [LF] == s + Frames.CloseFrame(token)
  {
  }

  // ---- File.save ----

  /** `File.save()`: the save frame goes out piece by piece; a missing token
      raises after `save` was sent, and a temp file that cannot be read raises
      after the token line was sent. */
  function SaveSteps(c: Conn, d: Disk, t: Transfer): (r: Effect<Conn>)
    ensures r.state.nconn == c.nconn && r.state.connected == c.connected
    ensures c.sent <= r.state.sent
    ensures r.Ok() <==> c.connected && "token" in t.env && t.TempPath() in d.files
    ensures r.Ok() ==> r.state.sent == c.sent + Frames.SaveFrame(Token(t), d.files[t.TempPath()])
    ensures !c.connected ==> r == Raise(c, SocketClosed)
  {
    if !c.connected then Raise(c, SocketClosed)
    else
      var c1 := Send(c, Frames.SAVE + [LF]).state;
      if "token" !in t.env then Raise(c1, MissingKey("token"))
      else
        var c2 := Send(c1, Frames.TokenLine(Token(t))).state;
        var read := ReadFile(d, t.TempPath());
        if !read.Ok() then Raise(c2, read.raised.value)
        else
          var content := read.state;
          var c3 := Send(Send(Send(c2, Frames.DataLine(|content|)).state, content).state, [LF]).state;
          assert c3.sent == c.sent + Frames.SaveFrame(Token(t), content) by {
            SaveFrameParts(c.sent, Token(t), content);
          }
          Done(c3)
  }

  lemma SaveFrameParts(s: Bytes, token: string, content: Bytes)
    ensures s + (Frames.SAVE + [LF]) + Frames.TokenLine(token) + Frames.DataLine(|content|) + content + [LF]
            == s + Frames.SaveFrame(token, content)
  {
  }

  // ---- File.open ----

  /** The disk after `File.open`, the registry entry it makes, and what it raised.
      The entry is None exactly when it raised. */
  datatype Opening<S> = Opening(disk: Disk, slot: Option<Slot<S>>, raised: Option<Error>)

  /** `self.host` as `get_temp_dir` sees it: None when it was never set. */
  function HostAttribute(f: Parse.Pending): Option<Option<string>> {
    if f.display.Some? then Some(f.display.value.host) else None
  }

  /** `File.open()` up to the registry update: `get_temp_dir` (which may raise
      while scanning), the join with `base_name` (which raises when no
      `display-name` header came), the write of the payload to the temp file, and
      the view the editor opens for the temp path. */
  function OpenSteps<S>(slots: seq<Slot<S>>, d: Disk, f: Parse.Pending, owner: S, editor: Path -> ViewId): (r: Opening<S>)
    requires d.Valid()
    ensures r.disk.Valid() && r.disk.dirs >= d.dirs
    ensures r.slot.Some? <==> r.raised.None?
    ensures r.slot.Some? ==>
              var s := r.slot.value;
              && f.display.Some?
              && s.owner == owner && s.view == editor(s.transfer.TempPath())
              && s.transfer.env == f.env && s.transfer.host == f.display.value.host
              && s.transfer.baseName == f.display.value.baseName
              && (s.transfer.dir in r.disk.dirs ==> r.disk.files == d.files[s.transfer.TempPath() := f.data])
    ensures r.raised.Some? ==> r.raised.value in {MissingKey("real-path"), MissingAttribute("host"),
                                                  MissingAttribute("base_name"), IsADirectory}
    ensures var td := TempDir(Transfers(slots), f.env, HostAttribute(f), d);
            && (!td.Ok() ==> r.disk == d && r.raised == td.raised)
            && (td.Ok() && f.display.None? ==> r.disk == td.state.0 && r.raised == Some(MissingAttribute("base_name")))
            && (td.Ok() && f.display.Some? ==>
                  var (d1, dir) := td.state;
                  var p := Path(dir, f.display.value.baseName);
                  && (r.raised.None? <==> !(dir in d1.dirs && NamesDir(p.name)))
                  && (r.raised.Some? ==> r.disk == d1 && r.raised == Some(IsADirectory))
                  && (dir !in d1.dirs ==> r.disk == d1)
                  && (r.slot.Some? ==> r.slot.value.transfer.dir == dir))
  {
    var td := TempDir(Transfers(slots), f.env, HostAttribute(f), d);
    if !td.Ok() then Opening(d, None, td.raised)
    else
      var (d1, dir) := td.state;
      match f.display
      case None => Opening(d1, None, Some(MissingAttribute("base_name")))
      case Some(dn) =>
        var t := Transfer(f.env, dn.host, dn.baseName, dir);
        var w := WriteTemp(d1, t.TempPath(), f.data);
        if !w.Ok() then Opening(w.state, None, w.raised)
        else Opening(w.state, Some(Slot(editor(t.TempPath()), t, owner)), None)
  }

  /** Registering what `OpenSteps` produced keeps one entry per view and the rule
      that two transfers share a directory exactly when they have the same
      `real-path` and the same truthy host. */
  lemma OpenKeepsSharing<S>(slots: seq<Slot<S>>, d: Disk, f: Parse.Pending, owner: S, editor: Path -> ViewId)
    requires d.Valid() && DistinctViews(slots) && Sharing(slots, d.made)
    ensures var r := OpenSteps(slots, d, f, owner, editor);
            r.slot.Some? ==> && DistinctViews(Register(slots, r.slot.value))
                             && Sharing(Register(slots, r.slot.value), r.disk.made)
  {
    var r := OpenSteps(slots, d, f, owner, editor);
    if r.slot.Some? {
      var s := r.slot.value;
      RegisterLookup(slots, s);
      RegisterKeepsSharing(slots, d, s);
    }
  }

  /** A transfer whose directory exists once it is opened (a new one, or a
      reused one that is still there) has its payload written there, so a save
      that follows sends the payload back byte for byte, and the remote side
      reads it back as the same bytes. */
  lemma OpenThenSave<S>(slots: seq<Slot<S>>, d: Disk, f: Parse.Pending, owner: S, editor: Path -> ViewId, c: Conn)
    requires d.Valid()
    requires var r := OpenSteps(slots, d, f, owner, editor);
             r.slot.Some? && r.slot.value.transfer.dir in r.disk.dirs
    requires c.connected && "token" in f.env && '\n' !in f.env["token"]
    ensures var r := OpenSteps(slots, d, f, owner, editor);
            var t := r.slot.value.transfer;
            var s := SaveSteps(c, r.disk, t);
            && s.Ok()
            && s.state.sent == c.sent + Frames.SaveFrame(f.env["token"], f.data)
            && Frames.ReadFrame(Frames.SaveFrame(f.env["token"], f.data))
               == Some((Frames.Save(Utf8.Encode(f.env["token"]), f.data), []))
  {
    var r := OpenSteps(slots, d, f, owner, editor);
    var t := r.slot.value.transfer;
    Frames.ReadSaveFrame(f.env["token"], f.data, []);
    assert Frames.SaveFrame(f.env["token"], f.data) + [] == Frames.SaveFrame(f.env["token"], f.data);
  }

  /** Whatever the user saved in the editor is what `save` sends back: once the
      buffer is written to the temp file of a transfer whose directory still
      exists, the save frame carries that buffer, and the remote side reads it
      back as the same bytes. */
  lemma EditThenSave(c: Conn, d: Disk, t: Transfer, content: Bytes)
    requires d.Valid() && c.connected && "token" in t.env && '\n' !in t.env["token"]
    requires t.dir in d.dirs && !NamesDir(t.baseName)
    ensures var s := SaveSteps(c, SaveBuffer(d, t.TempPath(), content), t);
            && s.Ok()
            && s.state.sent == c.sent + Frames.SaveFrame(t.env["token"], content)
            && Frames.ReadFrame(Frames.SaveFrame(t.env["token"], content))
               == Some((Frames.Save(Utf8.Encode(t.env["token"]), content), []))
  {
    Frames.ReadSaveFrame(t.env["token"], content, []);
    assert Frames.SaveFrame(t.env["token"], content) + [] == Frames.SaveFrame(t.env["token"], content);
  }

  /** The close that brings the count to zero shuts the socket; a transfer's
      close that comes after it over the same connection raises on its first
      send: it sends nothing, deletes nothing, and the count stays where it was. */
  lemma CloseAfterLast(c: Conn, d: Disk, a: Transfer, b: Transfer, removeA: bool, removeB: bool)
    requires d.Valid() && c.connected && c.nconn == 1 && "token" in a.env
    requires removeA ==> RemoveTemp(d, a).Ok()
    ensures var r1 := CloseSteps(c, d, a, removeA);
            && r1.raised.None? && r1.conn.nconn == 0 && !r1.conn.connected
            && r1.conn.sent == c.sent + Frames.CloseFrame(Token(a))
            && CloseSteps(r1.conn, r1.disk, b, removeB) == Closing(r1.conn, r1.disk, Some(SocketClosed))
  {
  }

  /** `close(remove=True)` does not check whether another transfer shares the
      temp file: after two transfers that share it are both closed, the first
      close deletes the file and its directory, and the second raises on the
      missing file before `try_close`, so its connection's count never drops. */
  lemma SharedTempFileClose(c1: Conn, c2: Conn, d: Disk, a: Transfer, b: Transfer)
    requires d.Valid() && a.TempPath() == b.TempPath() && a.TempPath() in d.files
    requires forall p :: p in d.files && p.dir == a.dir ==> p == a.TempPath()
    requires c1.connected && c2.connected && "token" in a.env && "token" in b.env
    ensures var first := CloseSteps(c1, d, a, true);
            var second := CloseSteps(c2, first.disk, b, true);
            && first.raised.None? && a.TempPath() !in first.disk.files && a.dir !in first.disk.dirs
            && second.raised == Some(NoSuchFile) && second.conn.nconn == c2.nconn
            && second.conn.sent == c2.sent + Frames.CLOSE + [LF] + Frames.TokenLine(Token(b)) + [LF]
  {
    var p := a.TempPath();
    assert !NamesDir(p.name);
    var first := CloseSteps(c1, d, a, true);
    assert RemoveTemp(d, a).Ok();
    assert first.disk == Disk(d.dirs - {a.dir}, d.files - {p}, d.made);
    CloseMissingFile(c2, first.disk, b);
  }

  lemma CloseMissingFile(c: Conn, d: Disk, t: Transfer)
    requires d.Valid() && t.TempPath() !in d.files && !NamesDir(t.baseName)
    requires c.connected && "token" in t.env
    ensures var r := CloseSteps(c, d, t, true);
            && r.raised == Some(NoSuchFile) && r.conn.nconn == c.nconn
            && r.conn.sent == c.sent + Frames.CLOSE + [LF] + Frames.TokenLine(Token(t)) + [LF]
  {
    assert Unlink(d, t.TempPath()) == Raise(d, NoSuchFile);
  }
}
