/** The part of the file system the plugin touches: private temporary directories
    made by `tempfile.mkdtemp`, and one temp file per base name inside them
    (remote_subl.py:63-64, 70-72, 88, 98-111). */
module Disk {
  import opened Common
  import opened Bytes

  /** A directory made by `mkdtemp`, numbered in the order they were made. */
  type Dir = nat

  /** `os.path.join(dir, name)`. */
  datatype Path = Path(dir: Dir, name: string)

  /** A name that, joined to a directory, names a directory and not a file in
      it: the empty name (`dir/` is the directory itself), `.` (the directory
      again) and `..` (its parent). */
  predicate NamesDir(name: string) {
    name == "" || name == "." || name == ".."
  }

  /** The directories that exist, the files that exist with their contents, and
      how many directories `mkdtemp` has handed out so far. */
  datatype Disk = Disk(dirs: set<Dir>, files: map<Path, Bytes>, made: nat) {
    /** Every directory was made by `mkdtemp`, and every file lives in an existing
        directory under a name that names a file. */
    predicate Valid() {
      && (forall d :: d in dirs ==> d < made)
      && (forall p :: p in files ==> p.dir in dirs && !NamesDir(p.name))
    }
  }

  const Empty: Disk := Disk({}, map[], 0)

  /** `tempfile.mkdtemp()`: a new, empty directory that no earlier call returned. */
  function Mkdtemp(d: Disk): (r: (Disk, Dir))
    requires d.Valid()
    ensures r.0.Valid() && r.1 !in d.dirs && r.1 >= d.made && r.0.made > r.1
    ensures r.0.dirs == d.dirs + {r.1} && r.0.files == d.files
    ensures forall p :: p in r.0.files ==> p.dir != r.1
  {
    (Disk(d.dirs + {d.made}, d.files, d.made + 1), d.made)
  }

  /** Writing the temp file in `File.open` (remote_subl.py:98-111): the write
      succeeds when the directory exists and the name names a file in it. When
      the directory is gone, the open fails, nothing exists to clean up, the
      failing `os.rmdir` is swallowed and the step goes on. When the name is
      empty, `.` or `..`, the path is a directory: opening it fails, and the
      cleanup's `os.remove` of that existing directory raises. */
  function WriteTemp(d: Disk, p: Path, data: Bytes): (r: Effect<Disk>)
    requires d.Valid()
    ensures r.state.Valid() && r.state.dirs == d.dirs && r.state.made == d.made
    ensures r.raised.Some? <==> p.dir in d.dirs && NamesDir(p.name)
    ensures r.raised.Some? ==> r.state == d && r.raised == Some(IsADirectory)
    ensures p.dir !in d.dirs ==> r == Done(d)
    ensures p.dir in d.dirs && !NamesDir(p.name) ==> r == Done(d.(files := d.files[p := data]))
  {
    if p.dir !in d.dirs then Done(d)
    else if NamesDir(p.name) then Raise(d, IsADirectory)
    else Done(d.(files := d.files[p := data]))
  }

  /** The editor saving a view's buffer to the file at `p`, which happens before
      `on_post_save_async` runs: the file then holds the buffer. A path whose
      directory is gone or that names a directory cannot be written, and the
      disk stays as it was. */
  function SaveBuffer(d: Disk, p: Path, content: Bytes): (r: Disk)
    requires d.Valid()
    ensures r.Valid() && r.dirs == d.dirs && r.made == d.made
    ensures p.dir in d.dirs && !NamesDir(p.name) ==> p in r.files && r.files[p] == content
    ensures forall q :: q != p ==> (q in r.files <==> q in d.files) && (q in r.files ==> r.files[q] == d.files[q])
    ensures !(p.dir in d.dirs && !NamesDir(p.name)) ==> r == d
  {
    if p.dir in d.dirs && !NamesDir(p.name) then d.(files := d.files[p := content]) else d
  }

  /** `open(path, "rb").read()`. */
  function ReadFile(d: Disk, p: Path): (r: Effect<Bytes>)
    ensures r.Ok() <==> p in d.files
    ensures r.Ok() ==> r.state == d.files[p]
  {
    if p in d.files then Done(d.files[p])
    else if NamesDir(p.name) && p.dir in d.dirs then Raise([], IsADirectory)
    else Raise([], NoSuchFile)
  }

  /** `os.unlink(path)`. */
  function Unlink(d: Disk, p: Path): (r: Effect<Disk>)
    requires d.Valid()
    ensures r.state.Valid()
    ensures r.Ok() <==> p in d.files
    ensures r.Ok() ==> r.state == d.(files := d.files - {p})
    ensures !r.Ok() ==> r.state == d
  {
    if p in d.files then Done(d.(files := d.files - {p}))
    else if NamesDir(p.name) && p.dir in d.dirs then Raise(d, IsADirectory)
    else Raise(d, NoSuchFile)
  }

  /** `os.rmdir(dir)`: only an existing, empty directory can be removed. */
  function Rmdir(d: Disk, dir: Dir): (r: Effect<Disk>)
    requires d.Valid()
    ensures r.state.Valid()
    ensures r.Ok() <==> dir in d.dirs && forall p :: p in d.files ==> p.dir != dir
    ensures r.Ok() ==> r.state == d.(dirs := d.dirs - {dir})
    ensures !r.Ok() ==> r.state == d
  {
    if dir !in d.dirs then Raise(d, NoSuchDir)
    else if exists p :: p in d.files && p.dir == dir then Raise(d, DirNotEmpty)
    else Done(d.(dirs := d.dirs - {dir}))
  }

  /** A temp file written into a fresh directory reads back as what was written,
      and removing it and then its directory leaves the directories as they were
      before `mkdtemp`. */
  lemma WriteReadRemove(d: Disk, name: string, data: Bytes)
    requires d.Valid() && !NamesDir(name)
    ensures var (d1, dir) := Mkdtemp(d);
            var w := WriteTemp(d1, Path(dir, name), data);
            && w.Ok()
            && ReadFile(w.state, Path(dir, name)) == Done(data)
            && var u := Unlink(w.state, Path(dir, name));
               u.Ok() && Rmdir(u.state, dir) == Done(Disk(d.dirs, d.files, d.made + 1))
  {
    var (d1, dir) := Mkdtemp(d);
    var p := Path(dir, name);
    var d2 := WriteTemp(d1, p, data).state;
    var d3 := Unlink(d2, p).state;
    assert d3.files == d.files by {
      assert forall q :: q in d.files ==> q != p;
    }
    assert d3.dirs - {dir} == d.dirs;
  }
}
