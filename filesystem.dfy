/** The files the signer touches, as a map from path to contents, together
    with the set of paths it may create or replace and, for some paths, the
    number of bytes a write there can store before it fails (a full disk or
    quota). Every change the signer makes is an `Effect`; a run is described
    by the list of effects it performed, in order. */
module FileSystem {
  import opened Wrappers
  import opened Bytes

  type Path = string

  datatype Fs = Fs(files: map<Path, seq<byte>>, writable: set<Path>, space: map<Path, nat>)

  datatype Effect =
    | Write(path: Path, data: seq<byte>)   // `File::create` then `write_all`; `data` is what was stored
    | Rename(from: Path, to: Path)         // `std::fs::rename`

  /** `File::open` plus `read_to_end`: fails exactly when the file is missing. */
  function Read(fs: Fs, path: Path): (r: Option<seq<byte>>)
    ensures r.Some? <==> path in fs.files
    ensures r.Some? ==> r.value == fs.files[path]
  {
    if path in fs.files then Some(fs.files[path]) else None
  }

  predicate CanWrite(fs: Fs, path: Path)
  {
    path in fs.writable
  }

  /** A write of `n` bytes to `path` stores all of them. */
  predicate Fits(fs: Fs, path: Path, n: nat)
  {
    path !in fs.space || n <= fs.space[path]
  }

  /** `File::create` and `write_all` of `data` both succeed. */
  predicate WriteSucceeds(fs: Fs, path: Path, data: seq<byte>)
  {
    CanWrite(fs, path) && Fits(fs, path, |data|)
  }

  /** What a created file holds after `write_all(data)`: all of `data`, or,
      when the space at `path` runs out, the prefix that was stored before
      the write failed. */
  function Stored(fs: Fs, path: Path, data: seq<byte>): (r: seq<byte>)
    ensures r <= data
    ensures r == data <==> Fits(fs, path, |data|)
    ensures !Fits(fs, path, |data|) ==> |r| == fs.space[path]
  {
    if Fits(fs, path, |data|) then data else data[..fs.space[path]]
  }

  /** A rename needs an existing source and permission on both paths; a
      cross-device move counts as a path that is not writable. */
  predicate CanRename(fs: Fs, from: Path, to: Path)
  {
    from in fs.files && from in fs.writable && to in fs.writable
  }

  predicate Permitted(fs: Fs, e: Effect)
  {
    match e
    case Write(path, _) => CanWrite(fs, path)
    case Rename(from, to) => CanRename(fs, from, to)
  }

  /** The file system after an effect. A write replaces the whole file; a
      rename moves the contents to the target and removes the source. */
  function Apply(fs: Fs, e: Effect): (r: Fs)
    ensures r.writable == fs.writable && r.space == fs.space
    ensures e.Write? ==> r.files == fs.files[e.path := e.data]
    ensures e.Rename? && e.from in fs.files ==>
      && e.to in r.files && r.files[e.to] == fs.files[e.from]
      && (e.from != e.to ==> e.from !in r.files)
    ensures e.Rename? && e.from !in fs.files ==> r == fs
  {
    match e
    case Write(path, data) => fs.(files := fs.files[path := data])
    case Rename(from, to) =>
      if from in fs.files then fs.(files := (fs.files - {from})[to := fs.files[from]]) else fs
  }

  /** An effect changes no path other than the one it writes, or the two it
      renames between. */
  lemma ApplyFrame(fs: Fs, e: Effect, p: Path)
    requires e.Write? ==> p != e.path
    requires e.Rename? ==> p != e.from && p != e.to
    ensures SameEntry(Apply(fs, e), fs, p)
  {
  }

  /** The file system after a list of effects, applied first to last. */
  function Replay(fs: Fs, log: seq<Effect>): (r: Fs)
    ensures r.writable == fs.writable && r.space == fs.space
  {
    if log == [] then fs else Apply(Replay(fs, log[..|log| - 1]), log[|log| - 1])
  }

  /** Every effect of the list was allowed when it happened. */
  predicate Performable(fs: Fs, log: seq<Effect>)
  {
    log == [] || (Performable(fs, log[..|log| - 1]) && Permitted(Replay(fs, log[..|log| - 1]), log[|log| - 1]))
  }

  /** `path` holds the same contents, or is absent, in both file systems. */
  predicate SameEntry(a: Fs, b: Fs, path: Path)
  {
    (path in a.files <==> path in b.files) && (path in a.files ==> a.files[path] == b.files[path])
  }

  /** Performing one more effect. */
  lemma ReplaySnoc(fs: Fs, log: seq<Effect>, e: Effect)
    ensures Replay(fs, log + [e]) == Apply(Replay(fs, log), e)
    ensures Performable(fs, log + [e]) <==> Performable(fs, log) && Permitted(Replay(fs, log), e)
  {
    assert (log + [e])[..|log|] == log;
  }

  /** A log of one or two effects. */
  lemma ReplayShort(fs: Fs, e1: Effect, e2: Effect)
    ensures Replay(fs, [e1]) == Apply(fs, e1)
    ensures Replay(fs, [e1, e2]) == Apply(Apply(fs, e1), e2)
    ensures Performable(fs, [e1]) <==> Permitted(fs, e1)
    ensures Performable(fs, [e1, e2]) <==> Permitted(fs, e1) && Permitted(Apply(fs, e1), e2)
  {
    ReplaySnoc(fs, [], e1);
    assert [] + [e1] == [e1];
    ReplaySnoc(fs, [e1], e2);
    assert [e1] + [e2] == [e1, e2];
  }

  /** Running two lists of effects one after the other is running their
      concatenation. */
  lemma {:induction false} ReplayConcat(fs: Fs, first: seq<Effect>, second: seq<Effect>)
    ensures Replay(fs, first + second) == Replay(Replay(fs, first), second)
    ensures Performable(fs, first + second) <==> Performable(fs, first) && Performable(Replay(fs, first), second)
  {
    if second == [] {
      assert first + second == first;
    } else {
      var init := second[..|second| - 1];
      ReplayConcat(fs, first, init);
      assert (first + second)[..|first + second| - 1] == first + init;
    }
  }
}
