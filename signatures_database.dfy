/**
 * MolecularSignaturesDatabase (gsea_api/molecular_signatures_db.py): a directory of MSigDB
 * libraries named <name>.v<version>.<id_type>.gmt, with an optional msigdb_v<version>.xml
 * catalog of metadata next to it or one level up.
 */
module SignaturesDatabase {
  import opened Wrappers
  import opened Text
  import opened Files
  import opened SeqFacts
  import opened GeneSetRecord
  import opened GeneSetCollection
  import opened GmtFormat

  /** The groupdict() of a parsed library file name. */
  datatype Library = Library(name: string, idType: string)

  /** A database: its directory, its version string, the libraries found and the catalog if any. */
  datatype Database = Database(path: Path, version: string, geneSets: seq<Library>, xmlPath: Option<Path>)

  datatype DbError =
    | Missing(path: Path)           // ValueError: Could not find MSigDB
    | Unparsable(fileName: string)  // parse_name on a file the glob found but the pattern rejects
    | UnknownLibrary(path: Path)    // ValueError of resolve

  /** <name>.v<version>.<id_type>.gmt */
  function LibraryFileName(name: string, version: string, idType: string): string {
    name + ".v" + version + "." + idType + ".gmt"
  }

  function CatalogFileName(version: string): string {
    "msigdb_v" + version + ".xml"
  }

  // ----- the glob *.v<version>.*.gmt -----

  /**
   * glob's match of a file name against *.v<version>.*.gmt: each * any text (empty included),
   * the rest literal, and no match for a hidden file.
   */
  predicate GlobMatches(fileName: string, version: string) {
    var n := |version| + 3;
    && (|fileName| == 0 || fileName[0] != '.')
    && |fileName| >= n + 4
    && fileName[|fileName| - 4..] == ".gmt"
    && exists i :: 0 <= i <= |fileName| - 4 - n && VersionAt(fileName, version, i)
  }

  /** ".v<version>." occurs in the file name at position i. */
  predicate VersionAt(fileName: string, version: string, i: nat) {
    i + |version| + 3 <= |fileName| && fileName[i..i + |version| + 3] == ".v" + version + "."
  }

  // ----- parse_name: re.match of (?P<name>.*?)\.v<version>\.(?P<id_type>(entrez|symbols)).gmt -----

  /** The version spliced into the pattern: its '.' match any character but a newline, the rest itself. */
  predicate VersionMatches(t: string, version: string)
    requires |t| == |version|
  {
    forall i :: 0 <= i < |t| ==> if version[i] == '.' then t[i] != '\n' else t[i] == version[i]
  }

  /** The part of the pattern after the name, matched at the start of `t`: the id_type it captures. */
  function MatchTail(t: string, version: string): (r: Option<string>)
    ensures r.Some? ==> r.value == "entrez" || r.value == "symbols"
  {
    var n := |version| + 3;
    if |t| >= n && t[0] == '.' && t[1] == 'v' && VersionMatches(t[2..n - 1], version) && t[n - 1] == '.' then
      var u := t[n..];
      if |u| >= 10 && u[..6] == "entrez" && u[6] != '\n' && u[7..10] == "gmt" then Some("entrez")
      else if |u| >= 11 && u[..7] == "symbols" && u[7] != '\n' && u[8..11] == "gmt" then Some("symbols")
      else None
    else None
  }

  /** The lazy name group tried at lengths k, k + 1, ...: it cannot run past a newline. */
  function FirstMatch(s: string, version: string, k: nat): (r: Option<Library>)
    requires k <= |s| && '\n' !in s[..k]
    requires forall j :: 0 <= j < k ==> MatchTail(s[j..], version).None?
    ensures r.Some? ==>
      && |r.value.name| <= |s| && r.value.name == s[..|r.value.name|]
      && '\n' !in r.value.name
      && MatchTail(s[|r.value.name|..], version) == Some(r.value.idType)
      && forall j :: 0 <= j < |r.value.name| ==> MatchTail(s[j..], version).None?
    ensures r.None? ==> forall j :: 0 <= j <= |s| && '\n' !in s[..j] ==> MatchTail(s[j..], version).None?
    decreases |s| - k
  {
    match MatchTail(s[k..], version)
    case Some(idType) => Some(Library(s[..k], idType))
    case None =>
      if k == |s| || s[k] == '\n' then
        assert forall j :: k < j <= |s| ==> s[k] in s[..j];
        None
      else
        assert s[..k + 1] == s[..k] + [s[k]];
        FirstMatch(s, version, k + 1)
  }

  /** parse_name(name): the groups of the match, None where the pattern does not match. */
  function ParseName(fileName: string, version: string): (r: Option<Library>)
    ensures r.Some? ==> r.value.idType == "entrez" || r.value.idType == "symbols"
  {
    FirstMatch(fileName, version, 0)
  }

  /**
   * parse_name recovers the name and id_type of a library file name whose name has no newline
   * and no ".v" (either could end the lazy name group early or stop it).
   */
  lemma ParseLibraryFileName(name: string, version: string, idType: string)
    requires idType == "entrez" || idType == "symbols"
    requires '\n' !in name
    requires forall i :: 0 <= i < |name| - 1 ==> !(name[i] == '.' && name[i + 1] == 'v')
    ensures ParseName(LibraryFileName(name, version, idType), version) == Some(Library(name, idType))
  {
    assert LibraryFileName(name, version, idType) == name + ".v" + version + "." + idType + ['.'] + "gmt";
    assert VersionMatches(version, version);
    ParseWildcardFileName(name, version, version, idType, '.');
  }

  /**
   * The version is spliced into the pattern unescaped and the '.' before gmt is the pattern's
   * any-character: every file name that fills those places with other characters (a newline
   * excepted) parses as the same library.
   */
  lemma ParseWildcardFileName(name: string, v: string, version: string, idType: string, c: char)
    requires idType == "entrez" || idType == "symbols"
    requires '\n' !in name
    requires forall i :: 0 <= i < |name| - 1 ==> !(name[i] == '.' && name[i + 1] == 'v')
    requires |v| == |version| && VersionMatches(v, version) && c != '\n'
    ensures ParseName(name + ".v" + v + "." + idType + [c] + "gmt", version) == Some(Library(name, idType))
  {
    var s := name + ".v" + v + "." + idType + [c] + "gmt";
    assert s == name + (".v" + v + "." + idType + [c] + "gmt");
    assert s[..|name|] == name;
    assert s[|name|..] == ".v" + v + "." + idType + [c] + "gmt";
    WildcardTailMatches(v, version, idType, c);
    forall j | 0 <= j < |name| ensures MatchTail(s[j..], version).None? {
      if j < |name| - 1 {
        assert s[j] == name[j] && s[j + 1] == name[j + 1];
      } else {
        assert s[j + 1] == '.';
      }
      NoTailAt(s, version, j);
    }
    SearchFinds(s, version, 0, |name|);
  }

  /** The tail of such a file name matches, capturing its id_type. */
  lemma WildcardTailMatches(v: string, version: string, idType: string, c: char)
    requires idType == "entrez" || idType == "symbols"
    requires |v| == |version| && VersionMatches(v, version) && c != '\n'
    ensures MatchTail(".v" + v + "." + idType + [c] + "gmt", version) == Some(idType)
  {
    var t := ".v" + v + "." + idType + [c] + "gmt";
    var n := |version| + 3;
    assert t[0] == '.' && t[1] == 'v' && t[n - 1] == '.';
    assert t[2..n - 1] == v;
    var u := t[n..];
    assert u == idType + [c] + "gmt";
    if idType == "entrez" {
      assert u[..6] == "entrez" && u[6] == c && u[7..10] == "gmt";
    } else {
      assert u[0] == 's';
      assert u[..7] == "symbols" && u[7] == c && u[8..11] == "gmt";
    }
  }

  /** The tail cannot match where ".v" does not start. */
  lemma NoTailAt(s: string, version: string, j: nat)
    requires j + 1 < |s| && !(s[j] == '.' && s[j + 1] == 'v')
    ensures MatchTail(s[j..], version).None?
  {
    assert s[j..][0] == s[j] && s[j..][1] == s[j + 1];
  }

  /** The search reaches the first position where the tail matches. */
  lemma {:induction false} SearchFinds(s: string, version: string, k: nat, m: nat)
    requires k <= m <= |s| && '\n' !in s[..m]
    requires forall j :: 0 <= j < m ==> MatchTail(s[j..], version).None?
    requires MatchTail(s[m..], version).Some?
    ensures FirstMatch(s, version, k) == Some(Library(s[..m], MatchTail(s[m..], version).value))
    decreases m - k
  {
    assert s[..k] == s[..m][..k];
    if k < m {
      assert s[k] == s[..m][k];
      SearchFinds(s, version, k + 1, m);
    }
  }

  /** Two names no MSigDB release uses, accepted under version 7.1 because of the unescaped dots. */
  lemma DotsAreWildcards()
    ensures ParseName("c2.v7x1.symbols.gmt", "7.1") == Some(Library("c2", "symbols"))
    ensures ParseName("c2.v7.1.symbols_gmt", "7.1") == Some(Library("c2", "symbols"))
  {
    assert VersionMatches("7x1", "7.1") && VersionMatches("7.1", "7.1");
    assert "c2.v7x1.symbols.gmt" == "c2" + ".v" + "7x1" + "." + "symbols" + ['.'] + "gmt";
    assert "c2.v7.1.symbols_gmt" == "c2" + ".v" + "7.1" + "." + "symbols" + ['_'] + "gmt";
    ParseWildcardFileName("c2", "7x1", "7.1", "symbols", '.');
    ParseWildcardFileName("c2", "7.1", "7.1", "symbols", '_');
  }

  // ----- __init__ -----

  /** The catalog: msigdb_v<version>.xml in the root, else in its parent, else none. */
  function CatalogPath(fs: FileSystem, root: Path, version: string): Option<Path> {
    if Exists(fs, Child(root, CatalogFileName(version))) then Some(Child(root, CatalogFileName(version)))
    else if Exists(fs, Child(Parent(root), CatalogFileName(version))) then Some(Child(Parent(root), CatalogFileName(version)))
    else None
  }

  /** The names the glob finds in the root: files and directories alike. */
  function LibraryFiles(fs: FileSystem, root: Path, version: string): set<string> {
    set f | f in Listing(fs, root) && GlobMatches(f, version)
  }

  /**
   * MolecularSignaturesDatabase(path, version): fails on a missing root and on a globbed file
   * the pattern rejects; otherwise one library per globbed file (in glob's order, which is
   * unspecified) and the first catalog candidate that exists.
   */
  method Open(fs: FileSystem, root: Path, version: string) returns (r: Result<Database, DbError>)
    ensures !Exists(fs, root) ==> r == Failure(Missing(root))
    ensures r.Failure? && r.error.Unparsable? ==>
      Exists(fs, root) && r.error.fileName in LibraryFiles(fs, root, version)
      && ParseName(r.error.fileName, version).None?
    ensures r.Failure? ==> r.error.Missing? || r.error.Unparsable?
    ensures r.Failure? && r.error.Missing? ==> !Exists(fs, root) && r.error.path == root
    ensures Exists(fs, root) && (forall f :: f in LibraryFiles(fs, root, version) ==> ParseName(f, version).Some?)
      ==> r.Success?
    ensures r.Success? ==>
      && r.value.path == root && r.value.version == version
      && r.value.xmlPath == CatalogPath(fs, root, version)
      && |r.value.geneSets| == |LibraryFiles(fs, root, version)|
      && (forall f :: f in LibraryFiles(fs, root, version) ==>
            ParseName(f, version).Some? && ParseName(f, version).value in r.value.geneSets)
      && (forall l :: l in r.value.geneSets ==> exists f :: f in LibraryFiles(fs, root, version) && ParseName(f, version) == Some(l))
    ensures r.Success? ==>
      exists order :: Enumerates(order, LibraryFiles(fs, root, version)) && ParsedInOrder(order, r.value.geneSets, version)
  {
    if !Exists(fs, root) {
      return Failure(Missing(root));
    }
    var libraries := ParseFiles(LibraryFiles(fs, root, version), version);
    if libraries.Failure? {
      return Failure(libraries.error);
    }
    var xmlPath := FindCatalog(fs, root, version);
    return Success(Database(root, version, libraries.value, xmlPath));
  }

  /**
   * parse_name on every globbed file, in some order: the first file the pattern rejects, or
   * one library per file.
   */
  method ParseFiles(files: set<string>, version: string) returns (r: Result<seq<Library>, DbError>)
    ensures r.Failure? ==> r.error.Unparsable? && r.error.fileName in files && ParseName(r.error.fileName, version).None?
    ensures r.Success? ==> ParsedAll(files, r.value, version)
    ensures r.Success? ==> exists order :: Enumerates(order, files) && ParsedInOrder(order, r.value, version)
  {
    var rest := files;
    var libraries: seq<Library> := [];
    ghost var done: seq<string> := [];
    while rest != {}
      invariant Parsed(files, rest, done, libraries, version)
      decreases |rest|
    {
      var f :| f in rest;
      var parsed := ParseName(f, version);
      if parsed.None? {
        return Failure(Unparsable(f));
      }
      ParsedStep(files, rest, done, libraries, version, f);
      libraries := libraries + [parsed.value];
      done := done + [f];
      rest := rest - {f};
    }
    ParsedComplete(files, done, libraries, version);
    assert Enumerates(done, files) && ParsedInOrder(done, libraries, version);
    return Success(libraries);
  }

  /** One library per file, every file's groups present and nothing else. */
  predicate ParsedAll(files: set<string>, libraries: seq<Library>, version: string) {
    && |libraries| == |files|
    && (forall f :: f in files ==> ParseName(f, version).Some? && ParseName(f, version).value in libraries)
    && (forall l :: l in libraries ==> exists f :: f in files && ParseName(f, version) == Some(l))
  }

  /** `libraries` is what parse_name gives for the names of `order`, one by one. */
  predicate ParsedInOrder(order: seq<string>, libraries: seq<Library>, version: string) {
    |order| == |libraries| && forall k :: 0 <= k < |order| ==> ParseName(order[k], version) == Some(libraries[k])
  }

  /** The loop state of ParseFiles: the files `done` (parsed to `libraries`) and those left. */
  ghost predicate Parsed(files: set<string>, rest: set<string>, done: seq<string>, libraries: seq<Library>, version: string) {
    && rest <= files
    && (forall f :: f in files ==> f in rest || f in done)
    && (forall f :: f in done ==> f in files && f !in rest)
    && |done| == |libraries| && |done| + |rest| == |files|
    && (forall k :: 0 <= k < |done| ==> ParseName(done[k], version) == Some(libraries[k]))
  }

  lemma ParsedStep(files: set<string>, rest: set<string>, done: seq<string>, libraries: seq<Library>, version: string, f: string)
    requires Parsed(files, rest, done, libraries, version)
    requires f in rest && ParseName(f, version).Some?
    ensures Parsed(files, rest - {f}, done + [f], libraries + [ParseName(f, version).value], version)
  {
    MoveOne(files, rest, done, f);
    var done', libraries' := done + [f], libraries + [ParseName(f, version).value];
    forall k | 0 <= k < |done'| ensures ParseName(done'[k], version) == Some(libraries'[k]) {
      if k < |done| {
        assert done'[k] == done[k] && libraries'[k] == libraries[k];
      }
    }
  }

  lemma ParsedComplete(files: set<string>, done: seq<string>, libraries: seq<Library>, version: string)
    requires Parsed(files, {}, done, libraries, version)
    ensures ParsedAll(files, libraries, version)
    ensures Enumerates(done, files) && ParsedInOrder(done, libraries, version)
  {
    assert Elements(done) == files;
    CardElements(done);
    forall f | f in files ensures ParseName(f, version).Some? && ParseName(f, version).value in libraries {
      var k :| 0 <= k < |done| && done[k] == f;
      assert libraries[k] in libraries;
    }
    forall l | l in libraries ensures exists f :: f in files && ParseName(f, version) == Some(l) {
      var k :| 0 <= k < |libraries| && libraries[k] == l;
      assert done[k] in files;
    }
  }

  /** The candidate loop for msigdb_v<version>.xml: the root, then its parent. */
  method FindCatalog(fs: FileSystem, root: Path, version: string) returns (xmlPath: Option<Path>)
    ensures xmlPath == CatalogPath(fs, root, version)
  {
    xmlPath := None;
    var candidates := [root, Parent(root)];
    for i := 0 to |candidates|
      invariant xmlPath.None? ==> forall k :: 0 <= k < i ==> !Exists(fs, Child(candidates[k], CatalogFileName(version)))
      invariant xmlPath.Some? ==> xmlPath == CatalogPath(fs, root, version)
    {
      var candidate := Child(candidates[i], CatalogFileName(version));
      if Exists(fs, candidate) {
        xmlPath := Some(candidate);
        break;
      }
    }
    assert candidates[0] == root && candidates[1] == Parent(root);
  }

  /** Counting bookkeeping for one name moved from the names left to the names done. */
  lemma MoveOne(files: set<string>, rest: set<string>, done: seq<string>, f: string)
    requires rest <= files && f in rest
    requires forall g :: g in done ==> g in files && g !in rest
    requires |done| + |rest| == |files|
    ensures |done + [f]| + |rest - {f}| == |files|
  {
  }

  // ----- resolve and load -----

  /** root / <name>.v<version>.<id_type>.gmt */
  function LibraryPath(db: Database, name: string, idType: string): Path {
    Child(db.path, LibraryFileName(name, db.version, idType))
  }

  /** resolve(gene_sets, id_type): the library's path if it exists. */
  function Resolve(fs: FileSystem, db: Database, name: string, idType: string): (r: Result<Path, DbError>)
    ensures r.Success? <==> Exists(fs, LibraryPath(db, name, idType))
    ensures r.Success? ==> r.value == LibraryPath(db, name, idType)
    ensures r.Failure? ==> r.error == UnknownLibrary(LibraryPath(db, name, idType))
  {
    var path := LibraryPath(db, name, idType);
    if Exists(fs, path) then Success(path) else Failure(UnknownLibrary(path))
  }

  /**
   * A resolved library name is a file name the database's glob and pattern read back as the
   * same library: a simple file name, not hidden, with a name free of newline, '/' and ".v".
   */
  lemma ResolvedNameParses(db: Database, name: string, idType: string)
    requires idType == "entrez" || idType == "symbols"
    requires name != "" && name[0] != '.' && '\n' !in name && '/' !in name && '/' !in db.version
    requires forall i :: 0 <= i < |name| - 1 ==> !(name[i] == '.' && name[i + 1] == 'v')
    ensures Name(LibraryPath(db, name, idType)) == LibraryFileName(name, db.version, idType)
    ensures Parent(LibraryPath(db, name, idType)) == db.path
    ensures GlobMatches(LibraryFileName(name, db.version, idType), db.version)
    ensures ParseName(Name(LibraryPath(db, name, idType)), db.version) == Some(Library(name, idType))
  {
    var f := LibraryFileName(name, db.version, idType);
    NoSlash(name, db.version, idType);
    ChildName(db.path, f);
    ParseLibraryFileName(name, db.version, idType);
    LibraryFileNameGlobs(name, db.version, idType);
  }

  lemma NoSlash(name: string, version: string, idType: string)
    requires '/' !in name && '/' !in version && '/' !in idType
    ensures '/' !in LibraryFileName(name, version, idType)
  {
    var f := LibraryFileName(name, version, idType);
    assert f == name + ".v" + version + "." + idType + ".gmt";
    forall i | 0 <= i < |f| ensures f[i] != '/' {
      if i < |name| {
        assert f[i] == name[i];
      } else if i < |name| + 2 {
      } else if i < |name| + 2 + |version| {
        assert f[i] == version[i - |name| - 2];
      } else if i < |name| + 3 + |version| {
      } else if i < |name| + 3 + |version| + |idType| {
        assert f[i] == idType[i - |name| - 3 - |version|];
      }
    }
  }

  lemma LibraryFileNameGlobs(name: string, version: string, idType: string)
    requires name != "" && name[0] != '.'
    ensures GlobMatches(LibraryFileName(name, version, idType), version)
  {
    var f := LibraryFileName(name, version, idType);
    assert f == name + (".v" + version + ".") + (idType + ".gmt");
    assert f[0] == name[0];
    assert VersionAt(f, version, |name|);
    assert f[|f| - 4..] == ".gmt";
  }

  /** KeyError of the metadata lookup: a member whose name the catalog lacks. */
  datatype MetadataError = MissingMetadata(name: string)

  /**
   * The lookup of add_metadata_from_xml: every member in turn gets the catalog entry of its
   * name as metadata; a name missing from the catalog is an error.
   */
  method AddMetadata(gs: GeneSets, catalog: map<string, Metadata>) returns (r: Result<GeneSets, MetadataError>)
    ensures r.Success? <==> forall i :: 0 <= i < |gs.geneSets| ==> gs.geneSets[i].name in catalog
    ensures r.Failure? ==> exists i :: (0 <= i < |gs.geneSets| && gs.geneSets[i].name !in catalog
      && r.error == MissingMetadata(gs.geneSets[i].name)
      && forall k :: 0 <= k < i ==> gs.geneSets[k].name in catalog)
    ensures r.Success? ==> Annotated(gs, catalog, r.value)
  {
    var members := gs.geneSets;
    for i := 0 to |members|
      invariant |members| == |gs.geneSets|
      invariant forall k :: 0 <= k < i ==> gs.geneSets[k].name in catalog
      invariant forall k :: 0 <= k < i ==> members[k] == gs.geneSets[k].(metadata := catalog[gs.geneSets[k].name])
      invariant forall k :: i <= k < |members| ==> members[k] == gs.geneSets[k]
    {
      if members[i].name !in catalog {
        return Failure(MissingMetadata(members[i].name));
      }
      members := members[i := members[i].(metadata := catalog[members[i].name])];
    }
    return Success(gs.(geneSets := members));
  }

  /** `r` is `gs` with each member's metadata replaced by the catalog entry of its name, nothing else changed. */
  predicate Annotated(gs: GeneSets, catalog: map<string, Metadata>, r: GeneSets) {
    && r.name == gs.name && r.path == gs.path && r.redundant == gs.redundant
    && r.emptyGeneSets == gs.emptyGeneSets && |r.geneSets| == |gs.geneSets|
    && forall i :: 0 <= i < |gs.geneSets| ==>
         gs.geneSets[i].name in catalog && r.geneSets[i] == gs.geneSets[i].(metadata := catalog[gs.geneSets[i].name])
  }

  datatype LoadError = NotResolved(db: DbError) | NotRead(gmt: GmtError) | NoMetadata(lookup: MetadataError)

  /**
   * load(gene_sets, id_type): the resolved file read with the default options under the
   * library's name, then, when the database has a catalog, the metadata lookup; `catalog`
   * is that file's GENESET elements by STANDARD_NAME.
   */
  method Load(fs: FileSystem, db: Database, name: string, idType: string, catalog: map<string, Metadata>)
    returns (r: Result<GeneSets, LoadError>)
    ensures !Exists(fs, LibraryPath(db, name, idType)) ==> r == Failure(NotResolved(UnknownLibrary(LibraryPath(db, name, idType))))
    ensures r.Success? ==>
      var read := FromGmt(fs, LibraryPath(db, name, idType), Some(name), Defaults);
      && read.Success?
      && (db.xmlPath.None? ==> r.value == read.value)
      && (db.xmlPath.Some? ==> Annotated(read.value, catalog, r.value))
    ensures r.Failure? && r.error.NotResolved? ==>
      !Exists(fs, LibraryPath(db, name, idType)) && r.error.db == UnknownLibrary(LibraryPath(db, name, idType))
    ensures var read := FromGmt(fs, LibraryPath(db, name, idType), Some(name), Defaults);
      r.Failure? && r.error.NotRead? ==> Exists(fs, LibraryPath(db, name, idType)) && read.Failure? && r.error.gmt == read.error
    ensures var read := FromGmt(fs, LibraryPath(db, name, idType), Some(name), Defaults);
      r.Failure? && r.error.NoMetadata? ==>
        && db.xmlPath.Some? && read.Success?
        && (exists i :: 0 <= i < |read.value.geneSets| && read.value.geneSets[i].name !in catalog
             && r.error.lookup == MissingMetadata(read.value.geneSets[i].name)
             && forall k :: 0 <= k < i ==> read.value.geneSets[k].name in catalog)
    ensures var read := FromGmt(fs, LibraryPath(db, name, idType), Some(name), Defaults);
      r.Success? <==> (Exists(fs, LibraryPath(db, name, idType)) && read.Success?
        && (db.xmlPath.Some? ==> forall i :: 0 <= i < |read.value.geneSets| ==> read.value.geneSets[i].name in catalog))
  {
    var path := Resolve(fs, db, name, idType);
    if path.Failure? {
      return Failure(NotResolved(path.error));
    }
    var read := FromGmt(fs, path.value, Some(name), Defaults);
    if read.Failure? {
      return Failure(NotRead(read.error));
    }
    if db.xmlPath.None? {
      return Success(read.value);
    }
    var annotated := AddMetadata(read.value, catalog);
    if annotated.Failure? {
      return Failure(NoMetadata(annotated.error));
    }
    return Success(annotated.value);
  }
}
