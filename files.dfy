/**
 * pathlib paths and the part of the file system the library touches: which
 * paths exist, which of them are directories, and the lines of each file.
 */
module Files {
  import opened Wrappers
  import opened Text

  /** A pathlib path: whether it is rooted, and its components ('.' and empty ones dropped). */
  datatype Path = Path(absolute: bool, parts: seq<string>)

  function DropEmpty(parts: seq<string>): (r: seq<string>)
    ensures forall i :: 0 <= i < |r| ==> r[i] != "" && r[i] != "."
  {
    if |parts| == 0 then []
    else (if parts[0] == "" || parts[0] == "." then [] else [parts[0]]) + DropEmpty(parts[1..])
  }

  /** Path(s) for a string s: split on '/', rooted when s starts with '/'. */
  function PathOf(s: string): Path {
    Path(|s| > 0 && s[0] == '/', DropEmpty(Split(s, '/')))
  }

  /** p / s: a rooted s replaces p, otherwise its components are appended. */
  function Child(p: Path, s: string): Path {
    var q := PathOf(s);
    if q.absolute then q else Path(p.absolute, p.parts + q.parts)
  }

  /** p.parent: the last component dropped; '.' and '/' are their own parents. */
  function Parent(p: Path): Path {
    if |p.parts| == 0 then p else p.(parts := p.parts[..|p.parts| - 1])
  }

  /** p.name: the last component, '' for '.' and '/'. */
  function Name(p: Path): string {
    if |p.parts| == 0 then "" else p.parts[|p.parts| - 1]
  }

  /** The file system: the directories, and the files with their lines as Python iterates them. */
  datatype FileSystem = FileSystem(dirs: set<Path>, files: map<Path, seq<string>>)

  /** Path.exists() */
  predicate Exists(fs: FileSystem, p: Path) {
    p in fs.dirs || p in fs.files
  }

  /** `p` lies directly inside directory d. */
  predicate InDirectory(p: Path, d: Path) {
    p.absolute == d.absolute && |p.parts| == |d.parts| + 1 && p.parts[..|d.parts|] == d.parts
  }

  /** Names of the entries (files and directories) directly inside directory d, as glob sees them. */
  function Listing(fs: FileSystem, d: Path): set<string> {
    (set p | p in fs.files && InDirectory(p, d) :: Name(p)) + (set p | p in fs.dirs && InDirectory(p, d) :: Name(p))
  }

  datatype IOError = NotFound(path: Path) | IsADirectory(path: Path)

  /** open(path) and iterating its lines. */
  function ReadLines(fs: FileSystem, p: Path): (r: Result<seq<string>, IOError>)
    ensures r.Success? <==> p in fs.files
    ensures r.Success? ==> r.value == fs.files[p]
    ensures r.Failure? ==> r.error == (if p in fs.dirs then IsADirectory(p) else NotFound(p))
  {
    if p in fs.files then Success(fs.files[p])
    else if p in fs.dirs then Failure(IsADirectory(p))
    else Failure(NotFound(p))
  }

  /** Joining a one-component name that is not '.' lands the name at the end of the path. */
  lemma ChildName(p: Path, s: string)
    requires s != "" && s != "." && '/' !in s
    ensures Child(p, s) == Path(p.absolute, p.parts + [s])
    ensures Name(Child(p, s)) == s && Parent(Child(p, s)) == p
  {
    SplitField(s, '/');
    assert DropEmpty([s]) == [s];
    assert (p.parts + [s])[..|p.parts|] == p.parts;
  }
}
