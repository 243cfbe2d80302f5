/** The part of Node's `fs` module the scripts rely on, over a disk that is a
    map from file path to content plus a set of directory paths. The
    `FileSystem` class is the disk the scripts mutate; the functions on
    `Disk` say what each call does and specify the methods. */
module Fs {
  import opened Text
  import opened Paths

  datatype Disk = Disk(files: map<string, string>, dirs: set<string>)

  /** The two roots exist, and no path is both a file and a directory. */
  predicate WellFormed(d: Disk) {
    "." in d.dirs && "/" in d.dirs && d.files.Keys !! d.dirs
  }

  /** `fs.existsSync`: true for files and directories alike. */
  predicate Exists(d: Disk, p: string) {
    p in d.files || p in d.dirs
  }

  /** `fs.readFileSync`: reading a directory or a missing path throws (None). */
  function Read(d: Disk, p: string): Option<string> {
    if p in d.files then Some(d.files[p]) else None
  }

  /** `fs.writeFileSync`: creates or replaces the file; throws (None) when the
      parent is not a directory or `p` is itself a directory. */
  function Write(d: Disk, p: string, content: string): Option<Disk> {
    if Dirname(p) in d.dirs && p !in d.dirs then Some(d.(files := d.files[p := content])) else None
  }

  /** `fs.mkdirSync` without `recursive`: throws (None) when `p` exists or its
      parent is not a directory. */
  function Mkdir(d: Disk, p: string): Option<Disk> {
    if Dirname(p) in d.dirs && !Exists(d, p) then Some(d.(dirs := d.dirs + {p})) else None
  }

  /** The "smart save" test shared by the minifiers: a missing output counts
      as changed, reading an existing one that is a directory throws (None),
      and otherwise the output changed when its content differs. */
  function OutputChanged(d: Disk, p: string, content: string): (r: Option<bool>)
    ensures r == Some(false) <==> p in d.files && d.files[p] == content
    ensures r.None? <==> p in d.dirs && p !in d.files
  {
    if !Exists(d, p) then Some(true)
    else match Read(d, p)
      case None => None
      case Some(existing) => Some(existing != content)
  }

  /** A successful write keeps the disk well formed and changes only `p`. */
  lemma WriteEffect(d: Disk, p: string, content: string)
    requires WellFormed(d) && Write(d, p, content).Some?
    ensures var d' := Write(d, p, content).value;
      WellFormed(d') && d'.dirs == d.dirs && d'.files == d.files[p := content]
  {
  }

  /** The ancestors of `p` that `ensureDirectoryExistence` creates, outermost
      first: `Dirname(p)` and its parents, up to the first one that exists. */
  function MissingAncestors(d: Disk, p: string): seq<string>
    requires WellFormed(d)
    decreases |p|
  {
    var q := Dirname(p);
    if Exists(d, q) then [] else DirnameIsAncestor(p); MissingAncestors(d, q) + [q]
  }

  /** The directories `ensureDirectoryExistence(p)` creates. */
  function NewDirs(d: Disk, p: string): set<string>
    requires WellFormed(d)
  {
    set q | q in MissingAncestors(d, p)
  }

  /** The disk after `ensureDirectoryExistence(p)`, or None when it throws: the
      first `mkdirSync` fails exactly when the first existing ancestor is a
      file, and then nothing has been created yet. */
  function EnsureDir(d: Disk, p: string): Option<Disk>
    requires WellFormed(d)
  {
    var m := MissingAncestors(d, p);
    if m == [] || Dirname(m[0]) in d.dirs then Some(d.(dirs := d.dirs + NewDirs(d, p))) else None
  }

  /** The missing ancestors form the chain from the first existing ancestor
      down to `Dirname(p)`; each is a proper prefix of `p` ending before a `/`,
      and none of them exists yet. */
  lemma {:induction false} MissingAncestorsChain(d: Disk, p: string)
    requires WellFormed(d)
    decreases |p|
    ensures var m := MissingAncestors(d, p);
      && (m == [] <==> Exists(d, Dirname(p)))
      && (m != [] ==> m[|m| - 1] == Dirname(p) && Exists(d, Dirname(m[0])))
      && (forall k :: 0 <= k < |m| - 1 ==> m[k] == Dirname(m[k + 1]))
      && (forall k :: 0 <= k < |m| ==> !Exists(d, m[k]))
      && (forall k :: 0 <= k < |m| ==> |m[k]| < |p| && p[..|m[k]|] == m[k] && p[|m[k]|] == '/')
  {
    var q := Dirname(p);
    if !Exists(d, q) {
      DirnameIsAncestor(p);
      MissingAncestorsChain(d, q);
      var mq := MissingAncestors(d, q);
      var m := MissingAncestors(d, p);
      assert m == mq + [q];
      forall k | 0 <= k < |m|
        ensures |m[k]| < |p| && p[..|m[k]|] == m[k] && p[|m[k]|] == '/'
      {
        if k < |mq| {
          assert m[k] == mq[k];
          assert p[..|q|] == q;
          assert p[..|m[k]|] == q[..|m[k]|];
        }
      }
      if mq != [] {
        assert m[|mq| - 1] == Dirname(q);
      }
    }
  }

  /** After a successful `ensureDirectoryExistence(p)` the parent of `p`
      exists, no file changed, and the directories added are exactly the
      missing ancestors of `p`. */
  lemma EnsureDirEffect(d: Disk, p: string)
    requires WellFormed(d)
    requires EnsureDir(d, p).Some?
    ensures var d' := EnsureDir(d, p).value;
      && WellFormed(d')
      && Exists(d', Dirname(p))
      && d'.files == d.files
      && d'.dirs - d.dirs == NewDirs(d, p)
      && forall q :: q in d'.dirs - d.dirs ==> |q| < |p| && p[..|q|] == q && p[|q|] == '/'
  {
    MissingAncestorsChain(d, p);
  }

  /** Once `ensureDirectoryExistence` has created directories, a write of
      `outputPath` cannot fail: the parent is then a new directory, and the output, which
      is not a directory, is longer than every directory created. */
  lemma WriteAfterEnsureDir(d: Disk, outputPath: string, content: string)
    requires WellFormed(d) && outputPath !in d.dirs
    requires EnsureDir(d, outputPath).Some?
    ensures var d1 := EnsureDir(d, outputPath).value;
      Write(d1, outputPath, content).Some? <==> Dirname(outputPath) !in d.files
  {
    EnsureDirEffect(d, outputPath);
    MissingAncestorsChain(d, outputPath);
    var d1 := EnsureDir(d, outputPath).value;
    assert outputPath !in d1.dirs - d.dirs;
  }

  /** `ensureDirectoryExistence` creates nothing when the parent already
      exists, so a second call after a successful one is a no-op. */
  lemma EnsureDirIdempotent(d: Disk, p: string)
    requires WellFormed(d)
    requires EnsureDir(d, p).Some?
    ensures WellFormed(EnsureDir(d, p).value)
    ensures EnsureDir(EnsureDir(d, p).value, p) == EnsureDir(d, p)
  {
    MissingAncestorsChain(d, p);
    var d' := EnsureDir(d, p).value;
    MissingAncestorsChain(d', p);
    assert MissingAncestors(d', p) == [];
    assert d'.(dirs := d'.dirs + set x | x in []) == d';
  }

  /** The disk the scripts read and write. */
  class FileSystem {
    var files: map<string, string>
    var dirs: set<string>

    function State(): Disk
      reads this
    {
      Disk(files, dirs)
    }

    ghost predicate Valid()
      reads this
    {
      WellFormed(State())
    }

    constructor (d: Disk)
      requires WellFormed(d)
      ensures Valid() && State() == d
    {
      files := d.files;
      dirs := d.dirs;
    }

    predicate ExistsSync(p: string)
      reads this
    {
      Exists(State(), p)
    }

    method ReadFileSync(p: string) returns (r: Option<string>)
      ensures r == Read(State(), p)
    {
      r := if p in files then Some(files[p]) else None;
    }

    method WriteFileSync(p: string, content: string) returns (ok: bool)
      requires Valid()
      modifies this
      ensures Valid()
      ensures ok == Write(old(State()), p, content).Some?
      ensures State() == if ok then Write(old(State()), p, content).value else old(State())
    {
      ok := Dirname(p) in dirs && p !in dirs;
      if ok {
        files := files[p := content];
      }
    }

    method MkdirSync(p: string) returns (ok: bool)
      requires Valid()
      modifies this
      ensures Valid()
      ensures ok == Mkdir(old(State()), p).Some?
      ensures State() == if ok then Mkdir(old(State()), p).value else old(State())
    {
      ok := Dirname(p) in dirs && !ExistsSync(p);
      if ok {
        dirs := dirs + {p};
      }
    }
  }

  /** `ensureDirectoryExistence(filePath)` (duplicated in minify-css.js and
      minify-js.js): returns whether the parent already existed, and `ok` is
      false when a `mkdirSync` threw. */
  method EnsureDirectoryExistence(fs: FileSystem, p: string) returns (existed: bool, ok: bool)
    requires fs.Valid()
    modifies fs
    decreases |p|
    ensures fs.Valid()
    ensures existed <==> Exists(old(fs.State()), Dirname(p))
    ensures ok <==> EnsureDir(old(fs.State()), p).Some?
    ensures fs.State() == if ok then EnsureDir(old(fs.State()), p).value else old(fs.State())
  {
    ghost var d := fs.State();
    var q := Dirname(p);
    existed := fs.ExistsSync(q);
    if existed {
      ok := true;
      assert d.(dirs := d.dirs + set x | x in []) == d;
      return;
    }
    DirnameIsAncestor(p);
    MissingAncestorsChain(d, p);
    MissingAncestorsChain(d, q);
    var _, parentOk := EnsureDirectoryExistence(fs, q);
    if !parentOk {
      ok := false;
      return;
    }
    ok := fs.MkdirSync(q);
    ghost var m := MissingAncestors(d, p);
    assert m == MissingAncestors(d, q) + [q];
    assert (set x | x in m) == (set x | x in MissingAncestors(d, q)) + {q};
  }
}
