/**
 * The GMT files of GeneSets (gsea_api/molecular_signatures_db.py): to_gmt writes one
 * tab-separated line per gene set, from_gmt reads a file of such lines into a collection.
 */
module GmtFormat {
  import opened Wrappers
  import opened Text
  import opened SeqFacts
  import opened Files
  import opened GeneSetRecord
  import opened GeneSetCollection

  /** One step of enumerating a set: moving a gene not yet listed from the rest to the order. */
  lemma ListOne(order: seq<string>, rest: set<string>, genes: set<string>, x: string)
    requires Elements(order) + rest == genes && Elements(order) !! rest && NoDuplicates(order)
    requires x in rest
    ensures Elements(order + [x]) + (rest - {x}) == genes
    ensures Elements(order + [x]) !! rest - {x}
    ensures NoDuplicates(order + [x])
  {
    assert Elements(order + [x]) == Elements(order) + {x} by {
      assert forall y :: y in order + [x] <==> y in order || y == x;
    }
    assert x !in Elements(order);
    forall i, j | 0 <= i < j < |order + [x]| ensures (order + [x])[i] != (order + [x])[j] {
      if j == |order| {
        assert (order + [x])[i] == order[i];
        assert order[i] in Elements(order);
      }
    }
  }

  /** Iterating a frozenset: some order listing each gene once. */
  method GenesInSomeOrder(genes: set<string>) returns (order: seq<string>)
    ensures Enumerates(order, genes)
  {
    order := [];
    var rest := genes;
    while rest != {}
      invariant Elements(order) + rest == genes
      invariant Elements(order) !! rest
      invariant NoDuplicates(order)
      decreases |rest|
    {
      var x :| x in rest;
      ListOne(order, rest, genes, x);
      order := order + [x];
      rest := rest - {x};
    }
  }

  /** _to_gmt: the lines written, one per member in member order. */
  method WriteGmt(gs: GeneSets) returns (lines: seq<string>)
    ensures |lines| == |gs.geneSets|
    ensures forall i :: 0 <= i < |lines| ==> WrittenAs(lines[i], gs.geneSets[i])
  {
    lines := [];
    for i := 0 to |gs.geneSets|
      invariant |lines| == i
      invariant forall k :: 0 <= k < i ==> WrittenAs(lines[k], gs.geneSets[k])
    {
      var g := gs.geneSets[i];
      var order := GenesInSomeOrder(g.genes);
      assert Enumerates(order, g.genes);
      lines := lines + [GmtLine(g.name, order)];
    }
  }

  /** Parsing every line in turn: all the results, or the error of the first line that fails. */
  function ParseAll(lines: seq<string>, parse: string -> Result<GeneSet, ParseError>): (r: Result<seq<GeneSet>, ParseError>)
    ensures r.Success? <==> forall i :: 0 <= i < |lines| ==> parse(lines[i]).Success?
    ensures r.Success? ==>
      |r.value| == |lines| && forall i :: 0 <= i < |lines| ==> r.value[i] == parse(lines[i]).value
    ensures r.Failure? ==> exists i :: (0 <= i < |lines| && parse(lines[i]) == Failure(r.error)
      && forall k :: 0 <= k < i ==> parse(lines[k]).Success?)
  {
    if |lines| == 0 then Success([])
    else
      var first := parse(lines[0]);
      if first.Failure? then Failure(first.error)
      else
        var rest := ParseAll(lines[1..], parse);
        assert forall i :: 1 <= i < |lines| ==> lines[i] == lines[1..][i - 1];
        if rest.Failure? then
          var j :| 0 <= j < |lines| - 1 && parse(lines[1..][j]) == Failure(rest.error)
            && forall k :: 0 <= k < j ==> parse(lines[1..][k]).Success?;
          assert parse(lines[j + 1]) == Failure(rest.error);
          Failure(rest.error)
        else Success([first.value] + rest.value)
  }

  /** The set comprehension of from_gmt over the lines of a file, before it becomes a set. */
  function ParseLines(lines: seq<string>): Result<seq<GeneSet>, ParseError> {
    ParseAll(lines, FromGmtLine)
  }

  /** Why from_gmt fails: the file cannot be read, or a line has fewer than two fields. */
  datatype GmtError = Unreadable(io: IOError) | Malformed(parse: ParseError)

  /** name or Path(path).name */
  function CollectionName(path: Path, name: Option<string>): string {
    if name.None? || name.value == "" then Name(path) else name.value
  }

  /** GeneSets.from_gmt(path, name, **kwargs) */
  function FromGmt(fs: FileSystem, path: Path, name: Option<string>, opts: Options): (r: Result<GeneSets, GmtError>)
    ensures r.Success? <==> path in fs.files && ParseLines(fs.files[path]).Success?
    ensures path !in fs.files ==> r == Failure(Unreadable(if path in fs.dirs then IsADirectory(path) else NotFound(path)))
    ensures r.Success? ==> r.value.path == Some(path) && r.value.name == CollectionName(path, name)
    ensures path in fs.files && ParseLines(fs.files[path]).Failure? ==>
      r == Failure(Malformed(ParseLines(fs.files[path]).error))
  {
    match ReadLines(fs, path)
    case Failure(e) => Failure(Unreadable(e))
    case Success(lines) =>
      match ParseLines(lines)
      case Failure(e) => Failure(Malformed(e))
      case Success(sets) => Success(Make(Distinct(sets), CollectionName(path, name), Some(path), opts))
  }

  /** A malformed file reports the error of its first line with fewer than two fields. */
  lemma FromGmtMalformed(fs: FileSystem, path: Path, name: Option<string>, opts: Options)
    requires path in fs.files && ParseLines(fs.files[path]).Failure?
    ensures var r, lines := FromGmt(fs, path, name, opts), fs.files[path];
      && r.Failure? && r.error.Malformed?
      && exists i :: 0 <= i < |lines| && FromGmtLine(lines[i]) == Failure(r.error.parse)
           && forall k :: 0 <= k < i ==> FromGmtLine(lines[k]).Success?
  {
    var lines := fs.files[path];
    var e := ParseAll(lines, FromGmtLine).error;
    assert FromGmt(fs, path, name, opts) == Failure(Malformed(e));
  }

  /**
   * With the default options, the members read are exactly the non-empty sets the lines
   * describe (up to name and genes), and the empty ones are recorded apart.
   */
  lemma FromGmtMembers(fs: FileSystem, path: Path, name: Option<string>)
    requires FromGmt(fs, path, name, Defaults).Success?
    ensures var r := FromGmt(fs, path, name, Defaults).value; var sets := ParseLines(fs.files[path]).value;
      && (forall m :: m in r.geneSets ==> m in sets && !IsEmpty(m))
      && (forall g :: g in sets && !IsEmpty(g) ==> KeyOf(g) in Keys(r.geneSets))
      && (forall g :: g in sets && IsEmpty(g) ==> KeyOf(g) in KeySet(r.emptyGeneSets))
  {
    var sets := ParseLines(fs.files[path]).value;
    var input := Distinct(sets);
    var r := Make(input, CollectionName(path, name), Some(path), Defaults);
    assert FromGmt(fs, path, name, Defaults).value == r;
    MakeRemovesEmpty(input, CollectionName(path, name), Some(path), Defaults);
    forall g | g in sets ensures exists h :: h in input && KeyOf(h) == KeyOf(g) {
      assert KeyOf(g) in Keys(sets);
    }
  }

  /**
   * Reading back lines that to_gmt wrote for members whose names and genes are fields
   * succeeds exactly when no member is empty; each member then comes back under its name,
   * with the first gene written as its description and the other genes as its genes.
   */
  lemma ReadWrittenGmt(gs: GeneSets, lines: seq<string>)
    requires |lines| == |gs.geneSets|
    requires forall i :: 0 <= i < |lines| ==> WrittenAs(lines[i], gs.geneSets[i]) && Clean(gs.geneSets[i])
    ensures ParseLines(lines).Success? <==> forall i :: 0 <= i < |gs.geneSets| ==> !IsEmpty(gs.geneSets[i])
    ensures ParseLines(lines).Success? ==> forall i :: 0 <= i < |lines| ==>
      var back, g := ParseLines(lines).value[i], gs.geneSets[i];
      && back.name == g.name && back.description.Some? && back.description.value in g.genes
      && back.genes == g.genes - {back.description.value}
  {
    forall i | 0 <= i < |lines| ensures ReadBack(lines[i], gs.geneSets[i]) {
      ReadWritten(lines[i], gs.geneSets[i]);
    }
    ReadBackAll(lines, gs.geneSets);
  }

  /** Reading every line back succeeds exactly when each line does, and then line by line. */
  lemma ReadBackAll(lines: seq<string>, sets: seq<GeneSet>)
    requires |lines| == |sets|
    requires forall i :: 0 <= i < |lines| ==> ReadBack(lines[i], sets[i])
    ensures ParseLines(lines).Success? <==> forall i :: 0 <= i < |sets| ==> !IsEmpty(sets[i])
    ensures ParseLines(lines).Success? ==> forall i :: 0 <= i < |lines| ==>
      var back, g := ParseLines(lines).value[i], sets[i];
      && back.name == g.name && back.description.Some? && back.description.value in g.genes
      && back.genes == g.genes - {back.description.value}
  {
    var r := ParseAll(lines, FromGmtLine);
  }

  /** The outcome of reading back the line written for g. */
  predicate ReadBack(line: string, g: GeneSet) {
    && (FromGmtLine(line).Failure? <==> IsEmpty(g))
    && (!IsEmpty(g) ==>
          var back := FromGmtLine(line).value;
          && back.name == g.name && back.description.Some? && back.description.value in g.genes
          && back.genes == g.genes - {back.description.value})
  }

  /** A set of a single gene is read back empty: its one gene becomes the description. */
  lemma SingleGeneReadsEmpty(name: string, gene: string)
    requires Field(name) && Field(gene)
    ensures FromGmtLine(GmtLine(name, [gene])).Success?
    ensures IsEmpty(FromGmtLine(GmtLine(name, [gene])).value)
    ensures FromGmtLine(GmtLine(name, [gene])).value.description == Some(gene)
  {
    var order := [gene];
    assert forall i :: 0 <= i < |order| ==> order[i] == gene;
    assert NoDuplicates(order);
    ReadWrittenLine(name, order);
    assert Elements(order) - {order[0]} == {};
  }
}
