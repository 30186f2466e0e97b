/** The `FILES` registry of opened transfers by editor view (remote_subl.py:15,
    131-140, 223), and the choice of a transfer's temporary directory that
    `File.get_temp_dir` makes by scanning it (remote_subl.py:77-91). */
module Registry {
  import opened Common
  import opened Disk

  /** `view.id()` of an editor view. */
  type ViewId = nat

  /** A transfer once `File.open` has registered it. Nothing changes a `File`
      after that point, so the registry holds it as a value: its headers, the
      `host` and `base_name` its `display-name` header gave, and its `temp_dir`. */
  datatype Transfer = Transfer(env: map<string, string>, host: Option<string>, baseName: string, dir: Dir) {
    /** `temp_path`, the join of `temp_dir` and `base_name`. */
    function TempPath(): Path { Path(dir, baseName) }
  }

  /** Python truth of `host`: None and the empty string are false. */
  predicate Truthy(host: Option<string>) {
    host.Some? && host.value != ""
  }

  /** The test `get_temp_dir` applies to a registered transfer `f` on behalf of a
      transfer with headers `env` and host `host`: the same `real-path` header,
      and the same host, which must be truthy. */
  predicate Matches(f: Transfer, env: map<string, string>, host: Option<string>) {
    Candidate(f, env) && f.host == host
  }

  /** The part of that test that does not read the host of the transfer being
      opened. */
  predicate Candidate(f: Transfer, env: map<string, string>) {
    && "real-path" in f.env && "real-path" in env
    && f.env["real-path"] == env["real-path"]
    && Truthy(f.host)
  }

  /** How the scan ends: the directory of a match, no match, or an exception. */
  datatype Scan = Reuse(dir: Dir) | NoMatch | ScanFailed(error: Error)

  /** The loop of `get_temp_dir` over the registered transfers in insertion order.
      `host` is None when the transfer has no `host` attribute yet (no
      `display-name` header arrived). The condition is evaluated left to right:
      a missing `real-path` header, on the registered transfer or on this one,
      raises `KeyError`; the missing `host` attribute is only read, and raises,
      when a registered transfer with the same `real-path` has a truthy host. */
  function ScanTempDir(ts: seq<Transfer>, env: map<string, string>, host: Option<Option<string>>): (r: Scan)
    ensures r.Reuse? ==>
              && host.Some? && Truthy(host.value)
              && exists i :: 0 <= i < |ts| && ts[i].dir == r.dir && Matches(ts[i], env, host.value)
    ensures r.NoMatch? ==>
              && (ts != [] ==> "real-path" in env)
              && forall i :: 0 <= i < |ts| ==>
                   "real-path" in ts[i].env && (Candidate(ts[i], env) ==> host.Some? && ts[i].host != host.value)
    ensures r.ScanFailed? ==> r.error == MissingKey("real-path") || r.error == MissingAttribute("host")
    ensures "real-path" !in env ==> r == if ts == [] then NoMatch else ScanFailed(MissingKey("real-path"))
  {
    if ts == [] then NoMatch
    else
      var f := ts[0];
      if "real-path" !in f.env || "real-path" !in env then ScanFailed(MissingKey("real-path"))
      else if f.env["real-path"] == env["real-path"] && Truthy(f.host) then
        if host.None? then ScanFailed(MissingAttribute("host"))
        else if f.host == host.value then Reuse(f.dir)
        else ScanTempDir(ts[1..], env, host)
      else ScanTempDir(ts[1..], env, host)
  }

  /** When every header the scan reads is present and the host attribute is set,
      the scan does not raise, and it reuses the directory of the first
      registered transfer that matches. */
  lemma {:induction false} ScanFindsFirst(ts: seq<Transfer>, env: map<string, string>, host: Option<string>, i: nat)
    requires "real-path" in env && forall j :: 0 <= j < |ts| ==> "real-path" in ts[j].env
    requires i < |ts| && Matches(ts[i], env, host)
    requires forall j :: 0 <= j < i ==> !Matches(ts[j], env, host)
    ensures ScanTempDir(ts, env, Some(host)) == Reuse(ts[i].dir)
  {
    if i > 0 {
      assert !Matches(ts[0], env, host);
      ScanFindsFirst(ts[1..], env, host, i - 1);
    }
  }

  /** The loop of `get_temp_dir` goes past the registered transfer `f`: both
      `real-path` headers are present, and `f` is not a candidate, or it is one
      whose host differs from a host that is set. */
  predicate Passes(f: Transfer, env: map<string, string>, host: Option<Option<string>>) {
    && "real-path" in f.env && "real-path" in env
    && (Candidate(f, env) ==> host.Some? && f.host != host.value)
  }

  /** The loop goes past the first `i` registered transfers. */
  predicate PassesUpTo(ts: seq<Transfer>, env: map<string, string>, host: Option<Option<string>>, i: nat)
    requires i <= |ts|
  {
    forall j :: 0 <= j < i ==> Passes(ts[j], env, host)
  }

  /** How the scan ends is decided by the first registered transfer it does not
      go past: none (no match); one with a missing `real-path` header, or with
      this transfer's `real-path` missing (`KeyError`); a candidate while this
      transfer has no host attribute (`AttributeError`); or a match, whose
      directory is reused. */
  lemma {:induction false} ScanStops(ts: seq<Transfer>, env: map<string, string>, host: Option<Option<string>>, i: nat)
    requires i <= |ts| && PassesUpTo(ts, env, host, i)
    requires i < |ts| ==> !Passes(ts[i], env, host)
    ensures ScanTempDir(ts, env, host) ==
              if i == |ts| then NoMatch
              else if "real-path" !in ts[i].env || "real-path" !in env then ScanFailed(MissingKey("real-path"))
              else if host.None? then ScanFailed(MissingAttribute("host"))
              else Reuse(ts[i].dir)
  {
    if i > 0 {
      assert Passes(ts[0], env, host);
      var rest := ts[1..];
      assert forall j :: 0 <= j < i - 1 ==> rest[j] == ts[j + 1];
      ScanStops(rest, env, host, i - 1);
    }
  }

  /** Every scan has such a first transfer it does not go past (or goes past
      them all). */
  lemma {:induction false} ScanStopExists(ts: seq<Transfer>, env: map<string, string>, host: Option<Option<string>>)
    ensures exists i :: 0 <= i <= |ts| && PassesUpTo(ts, env, host, i) && (i < |ts| ==> !Passes(ts[i], env, host))
  {
    if ts == [] {
      assert PassesUpTo(ts, env, host, 0);
    } else if !Passes(ts[0], env, host) {
      assert PassesUpTo(ts, env, host, 0);
    } else {
      ScanStopExists(ts[1..], env, host);
      var i :| 0 <= i <= |ts[1..]| && PassesUpTo(ts[1..], env, host, i) && (i < |ts[1..]| ==> !Passes(ts[1..][i], env, host));
      assert PassesUpTo(ts, env, host, i + 1) by {
        forall j | 0 <= j < i + 1 ensures Passes(ts[j], env, host) {
          if j > 0 {
            assert ts[j] == ts[1..][j - 1];
          }
        }
      }
    }
  }

  /** `get_temp_dir`: the reused directory, or a new one from `mkdtemp`. */
  function TempDir(ts: seq<Transfer>, env: map<string, string>, host: Option<Option<string>>, d: Disk): (r: Effect<(Disk, Dir)>)
    requires d.Valid()
    ensures r.state.0.Valid()
    ensures !r.Ok() ==> r.state.0 == d
    ensures r.Ok() && r.state.0 == d ==> exists i :: 0 <= i < |ts| && ts[i].dir == r.state.1
    ensures r.Ok() && r.state.0 != d ==> r.state.0 == Mkdtemp(d).0 && r.state.1 == Mkdtemp(d).1
  {
    match ScanTempDir(ts, env, host)
    case Reuse(dir) => Done((d, dir))
    case NoMatch => Done(Mkdtemp(d))
    case ScanFailed(e) => Raise((d, 0), e)
  }

  /** A transfer with no truthy host never reuses a directory. */
  lemma NoHostNoReuse(ts: seq<Transfer>, env: map<string, string>, host: Option<string>, d: Disk)
    requires d.Valid() && !Truthy(host)
    ensures var r := TempDir(ts, env, Some(host), d);
            r.Ok() ==> r.state.0 == Mkdtemp(d).0 && r.state.1 == Mkdtemp(d).1
  {
    assert !ScanTempDir(ts, env, Some(host)).Reuse?;
  }

  // ---- the registry ----

  /** `FILES[view] = transfer`, together with the session (`file.session`) that
      carried the transfer. */
  datatype Slot<S> = Slot(view: ViewId, transfer: Transfer, owner: S)

  /** `FILES.values()` in insertion order. */
  function Transfers<S>(slots: seq<Slot<S>>): (ts: seq<Transfer>)
    ensures |ts| == |slots| && forall i :: 0 <= i < |slots| ==> ts[i] == slots[i].transfer
  {
    if slots == [] then [] else [slots[0].transfer] + Transfers(slots[1..])
  }

  predicate DistinctViews<S>(slots: seq<Slot<S>>) {
    forall i, j :: 0 <= i < j < |slots| ==> slots[i].view != slots[j].view
  }

  /** `FILES.get(view)`. */
  function Lookup<S(==)>(slots: seq<Slot<S>>, view: ViewId): (r: Option<Slot<S>>)
    ensures r.Some? <==> exists i :: 0 <= i < |slots| && slots[i].view == view
    ensures r.Some? ==> r.value in slots && r.value.view == view
  {
    if slots == [] then None
    else if slots[0].view == view then Some(slots[0])
    else
      var r := Lookup(slots[1..], view);
      assert forall i :: 1 <= i < |slots| ==> slots[i] == slots[1..][i - 1];
      r
  }

  /** `FILES.pop(view)` without its result: the entry for `view` is dropped and the
      others keep their order. */
  function Remove<S(==)>(slots: seq<Slot<S>>, view: ViewId): (r: seq<Slot<S>>)
    ensures forall s :: s in r ==> s in slots && s.view != view
    ensures forall s :: s in slots && s.view != view ==> s in r
    ensures DistinctViews(slots) ==> DistinctViews(r)
  {
    if slots == [] then []
    else
      var rest := Remove(slots[1..], view);
      assert forall s :: s in slots ==> s == slots[0] || s in slots[1..];
      assert forall s :: s in slots[1..] ==> s in slots;
      if slots[0].view == view then rest
      else
        assert DistinctViews(slots) ==> forall s :: s in rest ==> s.view != slots[0].view by {
          if DistinctViews(slots) {
            forall s | s in rest ensures s.view != slots[0].view {
              var j :| 0 <= j < |slots[1..]| && slots[1..][j] == s;
              assert slots[j + 1] == s;
            }
          }
        }
        [slots[0]] + rest
  }

  /** `FILES[view] = ...` after the old entry for `view`, if any, was popped: the
      new entry goes last. */
  function Register<S(==)>(slots: seq<Slot<S>>, slot: Slot<S>): (r: seq<Slot<S>>)
    ensures forall s :: s in r ==> s == slot || (s in slots && s.view != slot.view)
    ensures slot in r && forall s :: s in slots && s.view != slot.view ==> s in r
  {
    Remove(slots, slot.view) + [slot]
  }

  /** Registering keeps one entry per view, makes the new entry the one found
      under its view, and leaves every other view's entry as it was. */
  lemma RegisterLookup<S>(slots: seq<Slot<S>>, slot: Slot<S>)
    requires DistinctViews(slots)
    ensures DistinctViews(Register(slots, slot))
    ensures Lookup(Register(slots, slot), slot.view) == Some(slot)
    ensures forall v :: v != slot.view ==> Lookup(Register(slots, slot), v) == Lookup(slots, v)
  {
    var rest := Remove(slots, slot.view);
    var r := rest + [slot];
    forall i, j | 0 <= i < j < |r| ensures r[i].view != r[j].view {
      if j == |rest| {
        assert r[i] in rest;
      } else {
        assert r[i] == rest[i] && r[j] == rest[j];
      }
    }
    LookupUnique(r, slot);
    forall v | v != slot.view ensures Lookup(r, v) == Lookup(slots, v) {
      var a, b := Lookup(r, v), Lookup(slots, v);
      if b.Some? {
        assert b.value in r;
      }
      if a.Some? {
        assert a.value in slots;
        LookupUnique(slots, a.value);
      }
    }
  }

  /** With one entry per view, the entry found under a view is the one held. */
  lemma LookupUnique<S>(slots: seq<Slot<S>>, slot: Slot<S>)
    requires DistinctViews(slots) && slot in slots
    ensures Lookup(slots, slot.view) == Some(slot)
  {
    if slots[0] != slot {
      assert slot in slots[1..];
      var j :| 0 <= j < |slots[1..]| && slots[1..][j] == slot;
      assert slots[j + 1] == slot;
      assert DistinctViews(slots[1..]) by {
        forall i, k | 0 <= i < k < |slots[1..]| ensures slots[1..][i].view != slots[1..][k].view {
          assert slots[1..][i] == slots[i + 1] && slots[1..][k] == slots[k + 1];
        }
      }
      LookupUnique(slots[1..], slot);
    }
  }

  // ---- directory sharing ----

  /** Two registered transfers that `get_temp_dir` lets share a directory. */
  predicate SameKey(a: Transfer, b: Transfer) {
    Matches(a, b.env, b.host)
  }

  /** Two distinct registered transfers share a temporary directory exactly when
      they have the same `real-path` and the same truthy host; every directory
      comes from an earlier `mkdtemp`. */
  predicate Sharing<S(==)>(slots: seq<Slot<S>>, made: nat) {
    && (forall s :: s in slots ==> s.transfer.dir < made)
    && forall a, b :: a in slots && b in slots && a != b ==>
         (a.transfer.dir == b.transfer.dir <==> SameKey(a.transfer, b.transfer))
  }

  /** Registering a transfer whose directory `TempDir` chose keeps the sharing
      rule, whichever entry the registration replaces. */
  lemma RegisterKeepsSharing<S>(slots: seq<Slot<S>>, d: Disk, slot: Slot<S>)
    requires d.Valid() && Sharing(slots, d.made)
    requires var t := slot.transfer;
             var r := TempDir(Transfers(slots), t.env, Some(t.host), d);
             r.Ok() && r.state.1 == t.dir
    ensures Sharing(Register(slots, slot), TempDir(Transfers(slots), slot.transfer.env, Some(slot.transfer.host), d).state.0.made)
  {
    var t := slot.transfer;
    var ts := Transfers(slots);
    var scan := ScanTempDir(ts, t.env, Some(t.host));
    var made := TempDir(ts, t.env, Some(t.host), d).state.0.made;
    if scan.Reuse? {
      var i :| 0 <= i < |ts| && ts[i].dir == scan.dir && Matches(ts[i], t.env, t.host);
      assert slots[i] in slots && slots[i].transfer == ts[i];
      ReuseAgrees(slots, d.made, t, slots[i]);
    } else {
      assert scan.NoMatch?;
      forall a | a in slots ensures !SameKey(a.transfer, t) {
        var i :| 0 <= i < |slots| && slots[i] == a;
        assert ts[i] == a.transfer;
      }
    }
    SharingAdd(slots, d.made, slot, made);
  }

  /** A transfer that joins the directory of a registered transfer with the same
      key agrees with every registered transfer on the sharing rule. */
  lemma ReuseAgrees<S>(slots: seq<Slot<S>>, made: nat, t: Transfer, m: Slot<S>)
    requires Sharing(slots, made) && m in slots
    requires m.transfer.dir == t.dir && SameKey(m.transfer, t)
    ensures forall a :: a in slots ==> (a.transfer.dir == t.dir <==> SameKey(a.transfer, t))
  {
    forall a | a in slots && a != m ensures a.transfer.dir == t.dir <==> SameKey(a.transfer, t) {
      assert a.transfer.dir == m.transfer.dir <==> SameKey(a.transfer, m.transfer);
    }
  }

  /** Adding a transfer that agrees with every registered one on the sharing
      rule, in place of the entry under its view, keeps the rule. */
  lemma SharingAdd<S>(slots: seq<Slot<S>>, made: nat, slot: Slot<S>, made2: nat)
    requires Sharing(slots, made) && made <= made2 && slot.transfer.dir < made2
    requires forall a :: a in slots ==> (a.transfer.dir == slot.transfer.dir <==> SameKey(a.transfer, slot.transfer))
    ensures Sharing(Register(slots, slot), made2)
  {
    var r := Register(slots, slot);
    forall a, b | a in r && b in r && a != b
      ensures a.transfer.dir == b.transfer.dir <==> SameKey(a.transfer, b.transfer)
    {
      if a == slot {
        assert SameKey(b.transfer, a.transfer) <==> SameKey(a.transfer, b.transfer);
      }
    }
  }

  /** A registered transfer with no truthy host shares its directory with no
      other registered transfer. */
  lemma NoHostNoSharing<S>(slots: seq<Slot<S>>, made: nat, a: Slot<S>, b: Slot<S>)
    requires Sharing(slots, made) && a in slots && b in slots && a != b
    requires !Truthy(a.transfer.host)
    ensures a.transfer.dir != b.transfer.dir
  {
    assert !SameKey(a.transfer, b.transfer);
  }
}
