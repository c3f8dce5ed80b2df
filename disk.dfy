/** The optional value that Python spells `None` or a value. */
module Maybe {
  datatype Option<+T> = None | Some(value: T)
}

/** The filesystem the archive works on, reduced to what the scripts observe:
    which paths exist, what a file holds, and which paths refuse access. */
module Disk {
  import opened Maybe
  import opened Calendar

  type Byte = bv8

  /** What `shutil.copy2` carries from source to destination: the bytes and
      the modification time. */
  datatype FileData = FileData(content: seq<Byte>, modified: DateTime)

  /** The two exceptions the scripts expect from file operations:
      `FileNotFoundError` and `PermissionError`. */
  datatype Failure = NotFound | Denied

  datatype Outcome<T> = Done(value: T) | Raised(error: Failure)

  /** Files with their data, directories, and the locked paths: opening or
      copying to a locked path raises `PermissionError`, and so does making a
      locked directory that does not exist yet; `exists()` is taken never to
      raise. */
  datatype DiskState<P> = DiskState(files: map<P, FileData>, dirs: set<P>, locked: set<P>)

  /** `Path.exists()`: true for a file or a directory, locked or not; it
      never raises. */
  predicate Exists<P>(d: DiskState<P>, p: P) {
    p in d.files || p in d.dirs
  }

  /** `mkdir(parents=True, exist_ok=True)` (and `os.mkdir` on a fresh name):
      the directory exists afterwards. An existing directory is accepted
      whatever its rights, as `exist_ok` swallows the error once `is_dir()`
      holds; making a locked directory that does not exist raises
      `PermissionError`. */
  function MakeDir<P>(d: DiskState<P>, p: P): (o: Outcome<DiskState<P>>)
    ensures o.Raised? <==> p !in d.dirs && p in d.locked
    ensures o.Done? ==> o.value.dirs == d.dirs + {p} && o.value.files == d.files && o.value.locked == d.locked
    ensures o.Done? ==> Exists(o.value, p) && Grows(d, o.value)
    ensures p in d.dirs ==> o == Done(d)
  {
    if p !in d.dirs && p in d.locked then Raised(Denied)
    else
      assert p in d.dirs ==> d.dirs + {p} == d.dirs;
      Done(d.(dirs := d.dirs + {p}))
  }

  /** `mkdir(parents=True, exist_ok=True)` on `p` cannot raise: `p` is
      already a directory, or it is not locked. */
  predicate CanMakeDir<P>(d: DiskState<P>, p: P) {
    p in d.dirs || p !in d.locked
  }

  /** `shutil.copy2(src, dst)`: a missing source raises `FileNotFoundError`, a
      locked source or destination `PermissionError`; otherwise `dst` holds the
      source's bytes and time, replacing whatever was there. */
  function Copy<P>(d: DiskState<P>, src: P, dst: P): (o: Outcome<DiskState<P>>)
    ensures o.Done? <==> src in d.files && src !in d.locked && dst !in d.locked
    ensures o.Done? ==>
      o.value.files == d.files[dst := d.files[src]] && o.value.dirs == d.dirs && o.value.locked == d.locked
    ensures o.Raised? ==> o.error == (if src !in d.files then NotFound else Denied)
  {
    if src !in d.files then Raised(NotFound)
    else if src in d.locked || dst in d.locked then Raised(Denied)
    else Done(d.(files := d.files[dst := d.files[src]]))
  }

  /** `d2` extends `d1`: no file was removed or rewritten, no directory removed,
      and the access rights are unchanged. */
  ghost predicate Grows<P>(d1: DiskState<P>, d2: DiskState<P>) {
    && d1.locked == d2.locked
    && d1.dirs <= d2.dirs
    && forall p :: p in d1.files ==> p in d2.files && d2.files[p] == d1.files[p]
  }

  lemma GrowsTransitive<P>(d1: DiskState<P>, d2: DiskState<P>, d3: DiskState<P>)
    requires Grows(d1, d2) && Grows(d2, d3)
    ensures Grows(d1, d3)
  {
  }

  /** A mutable filesystem, as the scripts see it through `os`, `pathlib` and `shutil`. */
  class Volume<P(==)> {
    var files: map<P, FileData>
    var dirs: set<P>
    const locked: set<P>

    function State(): DiskState<P>
      reads this
    {
      DiskState(files, dirs, locked)
    }

    constructor (d: DiskState<P>)
      ensures State() == d
    {
      files, dirs, locked := d.files, d.dirs, d.locked;
    }

    method PathExists(p: P) returns (b: bool)
      ensures b == Exists(State(), p)
    {
      b := p in files || p in dirs;
    }

    method MakeDirs(p: P) returns (err: Option<Failure>)
      modifies this
      ensures var o := MakeDir(old(State()), p);
        match o
        case Done(d) => err == None && State() == d
        case Raised(e) => err == Some(e) && State() == old(State())
    {
      if p !in dirs && p in locked {
        err := Some(Denied);
      } else {
        dirs := dirs + {p};
        err := None;
      }
    }

    method Copy2(src: P, dst: P) returns (err: Option<Failure>)
      modifies this
      ensures var o := Copy(old(State()), src, dst);
        match o
        case Done(d) => err == None && State() == d
        case Raised(e) => err == Some(e) && State() == old(State())
    {
      if src !in files {
        err := Some(NotFound);
      } else if src in locked || dst in locked {
        err := Some(Denied);
      } else {
        files := files[dst := files[src]];
        err := None;
      }
    }
  }
}
