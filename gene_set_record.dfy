/**
 * GeneSet: one named set of gene identifiers (gsea_api/molecular_signatures_db.py,
 * class GeneSet), the warnings its constructor emits, and its one-line GMT form.
 */
module GeneSetRecord {
  import opened Wrappers
  import opened Text
  import opened SeqFacts

  /** A representativeness |overlap| / |genes|, kept as a ratio of naturals instead of a float. */
  datatype Ratio = Ratio(num: nat, den: nat)

  type Metadata = map<string, string>

  datatype GeneSet = GeneSet(
    name: string,
    genes: set<string>,
    description: Option<string>,
    representativeness: Option<Ratio>,
    metadata: Metadata,
    redundantGenes: Option<map<string, nat>>)

  /** Gene sets sharing gene content, with the names of their members (an entry of `redundant`). */
  datatype Group = Group(genes: set<string>, names: seq<string>)

  /** The non-fatal diagnostics the library reports through `warnings.warn`, without their wording. */
  datatype Warning =
    | EmptyGeneSet(name: string)
    | NonUniqueGenes(name: string, counts: map<string, nat>)
    | RedundantGeneSets(groups: seq<Group>, summarised: bool)
    | EmptyRemoved(count: nat)
    | EmptyPresent(count: nat, names: Option<seq<string>>)
    | CollapseLimitExceeded(size: nat, examples: seq<string>, limit: nat)
    | Collapsed(sets: nat, into: nat, separator: string)

  /** What GeneSet.__eq__ and __hash__ look at: two gene sets are equal iff their keys are. */
  type Key = (string, set<string>)

  function KeyOf(g: GeneSet): Key {
    (g.name, g.genes)
  }

  /** GeneSet.is_empty */
  predicate IsEmpty(g: GeneSet) {
    |g.genes| == 0
  }

  /** Counter(genes) restricted to the genes counted more than once. */
  function RepeatCounts(genes: seq<string>): map<string, nat> {
    map x | x in Elements(genes) && multiset(genes)[x] > 1 :: multiset(genes)[x]
  }

  lemma {:induction false} NoDuplicatesCountsOne(s: seq<string>, x: string)
    requires NoDuplicates(s)
    ensures multiset(s)[x] <= 1
    decreases |s|
  {
    if |s| > 0 {
      var p := s[..|s| - 1];
      assert s == p + [s[|s| - 1]];
      assert NoDuplicates(p) by {
        forall i, j | 0 <= i < j < |p| ensures p[i] != p[j] {
          assert p[i] == s[i] && p[j] == s[j];
        }
      }
      NoDuplicatesCountsOne(p, x);
      if x == s[|s| - 1] {
        forall k | 0 <= k < |p| ensures p[k] != x {
          assert p[k] == s[k];
        }
      }
    }
  }

  /** GeneSet(name, genes, description, representativeness=..., metadata=...) */
  function New(name: string, genes: seq<string>, description: Option<string>,
               representativeness: Option<Ratio>, metadata: Metadata): (g: GeneSet)
    ensures g.name == name && g.description == description
    ensures g.representativeness == representativeness && g.metadata == metadata
    ensures forall x :: x in g.genes <==> x in genes
    ensures g.redundantGenes.None? <==> NoDuplicates(genes)
    ensures g.redundantGenes.Some? ==>
      forall x :: x in g.redundantGenes.value <==> multiset(genes)[x] > 1
    ensures g.redundantGenes.Some? ==>
      forall x :: x in g.redundantGenes.value ==> g.redundantGenes.value[x] == multiset(genes)[x]
    ensures g.redundantGenes.Some? ==> g.redundantGenes.value == RepeatCounts(genes)
  {
    var elements := Elements(genes);
    CardElements(genes);
    var redundant := if |genes| != |elements| then Some(RepeatCounts(genes)) else None;
    assert redundant.Some? ==> forall x :: x in redundant.value <==> multiset(genes)[x] > 1;
    GeneSet(name, elements, description, representativeness, metadata, redundant)
  }

  /** The warnings of GeneSet(name, genes, warn_if_empty=...). */
  function NewWarnings(name: string, genes: seq<string>, warnIfEmpty: bool): (w: seq<Warning>)
    ensures EmptyGeneSet(name) in w <==> warnIfEmpty && |genes| == 0
    ensures NonUniqueGenes(name, RepeatCounts(genes)) in w <==> !NoDuplicates(genes)
    ensures forall i :: 0 <= i < |w| ==> w[i] == EmptyGeneSet(name) || w[i] == NonUniqueGenes(name, RepeatCounts(genes))
    ensures |w| <= 1
  {
    var elements := Elements(genes);
    CardElements(genes);
    assert |genes| == 0 <==> |elements| == 0 by {
      if |genes| > 0 {
        assert genes[0] in elements;
      }
    }
    (if warnIfEmpty && |elements| == 0 then [EmptyGeneSet(name)] else [])
    + (if |genes| != |elements| then [NonUniqueGenes(name, RepeatCounts(genes))] else [])
  }

  /** The ValueError of `name, description, *ids = ...` on a line with fewer than two fields. */
  datatype ParseError = MissingFields(line: string)

  /** GeneSet.from_gmt_line: the stripped line split on tabs is name, description, genes. */
  function FromGmtLine(line: string): (r: Result<GeneSet, ParseError>)
    ensures var f := Split(Strip(line), '\t');
      && (r.Success? <==> |f| >= 2)
      && (r.Success? ==>
            && r.value.name == f[0]
            && r.value.description == Some(f[1])
            && r.value.genes == Elements(f[2..])
            && r.value.redundantGenes == (if NoDuplicates(f[2..]) then None else Some(RepeatCounts(f[2..])))
            && r.value.representativeness == None
            && r.value.metadata == map[])
    ensures r.Failure? ==> r.error == MissingFields(line)
  {
    var fields := Split(Strip(line), '\t');
    if |fields| < 2 then Failure(MissingFields(line))
    else Success(New(fields[0], fields[2..], Some(fields[1]), None, map[]))
  }

  /** One line written by GeneSets._to_gmt for a set whose genes were enumerated as `order`. */
  function GmtLine(name: string, order: seq<string>): string {
    name + "\t" + Join("\t", order) + "\n"
  }

  /** `order` lists each gene of `genes` exactly once (the iteration order of a frozenset is unspecified). */
  predicate Enumerates(order: seq<string>, genes: set<string>) {
    NoDuplicates(order) && Elements(order) == genes
  }

  /** `line` is what _to_gmt writes for g under some iteration order of its genes. */
  ghost predicate WrittenAs(line: string, g: GeneSet) {
    exists order :: Enumerates(order, g.genes) && line == GmtLine(g.name, order)
  }

  /** Names and genes that stay whole as fields of a GMT line: the precondition of the round trip. */
  predicate Clean(g: GeneSet) {
    Field(g.name) && forall x :: x in g.genes ==> Field(x)
  }

  /** The tail of a duplicate-free sequence lacks its head and repeats nothing. */
  lemma ElementsTail(order: seq<string>)
    requires |order| > 0 && NoDuplicates(order)
    ensures Elements(order[1..]) == Elements(order) - {order[0]}
    ensures NoDuplicates(order[1..])
  {
    forall x | x in Elements(order[1..]) ensures x != order[0] {
      var k :| 0 <= k < |order[1..]| && order[1..][k] == x;
      assert order[k + 1] == x;
    }
    assert order == [order[0]] + order[1..];
    forall i, j | 0 <= i < j < |order[1..]| ensures order[1..][i] != order[1..][j] {
      assert order[1..][i] == order[i + 1] && order[1..][j] == order[j + 1];
    }
  }

  /** A written line of a non-empty set, stripped, is the tab-join of the name and the genes. */
  lemma StripWrittenLine(name: string, order: seq<string>)
    requires Field(name) && |order| > 0
    requires forall i :: 0 <= i < |order| ==> Field(order[i])
    ensures Strip(GmtLine(name, order)) == Join("\t", [name] + order)
  {
    var joined := Join("\t", order);
    JoinEnds("\t", order);
    assert !IsSpace(name[0]);
    StripFrame(name, joined);
    assert ([name] + order)[1..] == order;
  }

  /** Stripping name, tab, text, newline removes the newline only, when name and text end in non-space. */
  lemma StripFrame(name: string, joined: string)
    requires |name| > 0 && !IsSpace(name[0])
    requires |joined| > 0 && !IsSpace(joined[|joined| - 1])
    ensures Strip(name + "\t" + joined + "\n") == name + "\t" + joined
  {
    var s := name + "\t" + joined;
    assert s[0] == name[0];
    assert s[|s| - 1] == joined[|joined| - 1];
    StripTrailing(s, "\n");
  }


  /** The fields of a written line of a non-empty set are the name followed by the genes. */
  lemma FieldsOfWrittenLine(name: string, order: seq<string>)
    requires Field(name) && |order| > 0
    requires forall i :: 0 <= i < |order| ==> Field(order[i])
    ensures Split(Strip(GmtLine(name, order)), '\t') == [name] + order
  {
    var parts := [name] + order;
    forall i | 0 <= i < |parts| ensures Field(parts[i]) {
      if i > 0 {
        assert parts[i] == order[i - 1];
      }
    }
    FieldsHaveNoTab(parts);
    SplitJoin(parts, '\t');
    StripWrittenLine(name, order);
  }

  lemma FieldsHaveNoTab(parts: seq<string>)
    requires forall i :: 0 <= i < |parts| ==> Field(parts[i])
    ensures forall i :: 0 <= i < |parts| ==> '\t' !in parts[i]
  {
    forall i | 0 <= i < |parts| ensures '\t' !in parts[i] {
      assert Field(parts[i]);
    }
  }


  /**
   * Reading back a written line: an empty set cannot be re-read (one field only); otherwise
   * the name survives, the first written gene becomes the description and the rest the genes.
   */
  lemma ReadWrittenLine(name: string, order: seq<string>)
    requires Field(name)
    requires forall i :: 0 <= i < |order| ==> Field(order[i])
    requires NoDuplicates(order)
    ensures |order| == 0 <==> FromGmtLine(GmtLine(name, order)).Failure?
    ensures |order| > 0 ==>
      var g := FromGmtLine(GmtLine(name, order)).value;
      && g.name == name
      && g.description == Some(order[0])
      && g.genes == Elements(order) - {order[0]}
      && g.redundantGenes == None
  {
    if |order| == 0 {
      EmptyLineFails(name);
    } else {
      FieldsOfWrittenLine(name, order);
      ElementsTail(order);
      NonEmptyLineReads(GmtLine(name, order), name, order);
    }
  }

  /** The line of an empty set is the name and a tab: one field only once stripped. */
  lemma EmptyLineFails(name: string)
    requires Field(name)
    ensures FromGmtLine(GmtLine(name, [])).Failure?
  {
    assert !IsSpace(name[0]) && !IsSpace(name[|name| - 1]);
    assert '\t' !in name;
    assert GmtLine(name, []) == name + "\t\n";
    StripTrailing(name, "\t\n");
    SplitField(name, '\t');
  }

  lemma NonEmptyLineReads(line: string, name: string, order: seq<string>)
    requires |order| > 0
    requires Split(Strip(line), '\t') == [name] + order
    requires Elements(order[1..]) == Elements(order) - {order[0]} && NoDuplicates(order[1..])
    ensures FromGmtLine(line).Success?
    ensures var g := FromGmtLine(line).value;
      && g.name == name
      && g.description == Some(order[0])
      && g.genes == Elements(order) - {order[0]}
      && g.redundantGenes == None
  {
    var f := [name] + order;
    assert f[2..] == order[1..];
    assert NoDuplicates(f[2..]);
  }



  /** The round trip for a whole gene set, whatever order its genes were written in. */
  lemma ReadWritten(line: string, g: GeneSet)
    requires WrittenAs(line, g) && Clean(g)
    ensures FromGmtLine(line).Failure? <==> IsEmpty(g)
    ensures !IsEmpty(g) ==>
      var back := FromGmtLine(line).value;
      && back.name == g.name
      && back.description.Some?
      && back.description.value in g.genes
      && back.genes == g.genes - {back.description.value}
  {
    var order :| Enumerates(order, g.genes) && line == GmtLine(g.name, order);
    forall i | 0 <= i < |order| ensures Field(order[i]) {
      assert order[i] in Elements(order);
    }
    CardElements(order);
    ReadWrittenLine(g.name, order);
    if |order| > 0 {
      assert order[0] in g.genes;
    }
  }
}
