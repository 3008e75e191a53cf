/**
 * GeneSets: a collection of gene sets (gsea_api/molecular_signatures_db.py, class
 * GeneSets): redundancy grouping, the three-step constructor, and the derived
 * collections trim, extract, subset, collapse_redundant and format_names.
 */
module GeneSetCollection {
  import opened Wrappers
  import opened Text
  import opened SeqFacts
  import opened Files
  import opened GeneSetRecord

  datatype GeneSets = GeneSets(
    geneSets: seq<GeneSet>,
    name: string,
    path: Option<Path>,
    redundant: seq<Group>,
    emptyGeneSets: set<GeneSet>)

  /** The keyword arguments allow_redundant, remove_empty, collapse_redundant (None: False) and collapse_limit. */
  datatype Options = Options(allowRedundant: bool, removeEmpty: bool, collapse: Option<string>, collapseLimit: nat)

  /** The defaults of GeneSets(...), which trim, extract and subset rebuild with. */
  const Defaults := Options(false, true, None, 10)

  // ----- Python sets of GeneSet: members are told apart by (name, genes) only -----

  function Keys(s: seq<GeneSet>): set<Key> {
    set g | g in s :: KeyOf(g)
  }

  function KeySet(s: set<GeneSet>): set<Key> {
    set g | g in s :: KeyOf(g)
  }

  predicate DistinctKeys(s: seq<GeneSet>) {
    forall i, j :: 0 <= i < j < |s| ==> KeyOf(s[i]) != KeyOf(s[j])
  }

  lemma KeysSnoc(s: seq<GeneSet>, x: GeneSet)
    ensures Keys(s + [x]) == Keys(s) + {KeyOf(x)}
  {
    assert forall g :: g in s + [x] <==> g in s || g == x;
  }

  /** set(s) for a sequence of gene sets: the first member of each key, in input order. */
  function Distinct(s: seq<GeneSet>): (r: seq<GeneSet>)
    ensures Keys(r) == Keys(s)
    ensures forall g :: g in r ==> g in s
    ensures DistinctKeys(r)
    ensures |r| <= |s|
  {
    if |s| == 0 then []
    else
      var p, x := s[..|s| - 1], s[|s| - 1];
      assert s == p + [x];
      KeysSnoc(p, x);
      var q := Distinct(p);
      if KeyOf(x) in Keys(q) then q
      else
        KeysSnoc(q, x);
        var r := q + [x];
        assert DistinctKeys(r) by {
          forall i, j | 0 <= i < j < |r| ensures KeyOf(r[i]) != KeyOf(r[j]) {
            assert r[i] == q[i];
            if j < |q| {
              assert r[j] == q[j];
            } else {
              assert q[i] in q;
            }
          }
        }
        assert forall g :: g in r ==> g in q || g == x;
        r
  }

  /** The members for which `keep` holds, in order. */
  function Filter(s: seq<GeneSet>, keep: GeneSet -> bool): (r: seq<GeneSet>)
    ensures forall g :: g in r <==> g in s && keep(g)
    ensures |r| <= |s|
  {
    if |s| == 0 then []
    else
      var p, x := s[..|s| - 1], s[|s| - 1];
      assert s == p + [x];
      Filter(p, keep) + (if keep(x) then [x] else [])
  }

  // ----- group_identical and find_redundant -----

  /** The distinct gene contents of the members, in order of first appearance. */
  function Contents(s: seq<GeneSet>): (r: seq<set<string>>)
    ensures forall c :: c in r <==> exists g :: g in s && g.genes == c
    ensures NoDuplicates(r)
  {
    if |s| == 0 then []
    else
      var p, x := s[..|s| - 1], s[|s| - 1];
      assert s == p + [x];
      var c := Contents(p);
      if x.genes in c then c else c + [x.genes]
  }

  /** The names of the members holding exactly `genes`, in member order. */
  function NamesWith(s: seq<GeneSet>, genes: set<string>): (r: seq<string>)
    ensures |r| <= |s|
    ensures forall n :: n in r <==> exists g :: g in s && g.genes == genes && g.name == n
    ensures (forall g :: g in s ==> g.genes != genes) ==> r == []
  {
    if |s| == 0 then []
    else
      var p, x := s[..|s| - 1], s[|s| - 1];
      assert s == p + [x];
      NamesWith(p, genes) + (if x.genes == genes then [x.name] else [])
  }

  /** The grouping that group_identical(key='name') builds: contents in first-appearance order. */
  function Grouping(s: seq<GeneSet>): (r: seq<Group>)
    ensures |r| == |Contents(s)|
    ensures forall i :: 0 <= i < |r| ==> r[i].genes == Contents(s)[i]
    ensures forall i :: 0 <= i < |r| ==> r[i].names == NamesWith(s, r[i].genes)
  {
    var c := Contents(s);
    seq(|c|, i requires 0 <= i < |c| => Group(c[i], NamesWith(s, c[i])))
  }

  predicate DistinctGenes(groups: seq<Group>) {
    forall i, j :: 0 <= i < j < |groups| ==> groups[i].genes != groups[j].genes
  }

  lemma NamesWithSnoc(s: seq<GeneSet>, x: GeneSet, genes: set<string>)
    ensures NamesWith(s + [x], genes) == NamesWith(s, genes) + (if x.genes == genes then [x.name] else [])
  {
    assert (s + [x])[..|s|] == s;
  }

  lemma ContentsSnoc(s: seq<GeneSet>, x: GeneSet)
    ensures Contents(s + [x]) == if x.genes in Contents(s) then Contents(s) else Contents(s) + [x.genes]
  {
    assert (s + [x])[..|s|] == s;
  }

  /** A member whose content already has group j adds its name to that group. */
  lemma GroupingSnocFound(s: seq<GeneSet>, x: GeneSet, j: nat)
    requires j < |Contents(s)| && Contents(s)[j] == x.genes
    ensures Grouping(s + [x]) == Grouping(s)[j := Group(x.genes, Grouping(s)[j].names + [x.name])]
  {
    var c, t := Contents(s), s + [x];
    ContentsSnoc(s, x);
    var g, h := Grouping(s), Grouping(t);
    forall k | 0 <= k < |c| ensures h[k] == g[j := Group(x.genes, g[j].names + [x.name])][k] {
      NamesWithSnoc(s, x, c[k]);
      if k != j {
        assert c[k] != c[j];
      }
    }
  }

  /** A member with a content not seen before opens a new group at the end. */
  lemma GroupingSnocNew(s: seq<GeneSet>, x: GeneSet)
    requires x.genes !in Contents(s)
    ensures Grouping(s + [x]) == Grouping(s) + [Group(x.genes, [x.name])]
  {
    var c, t := Contents(s), s + [x];
    ContentsSnoc(s, x);
    var g, h := Grouping(s), Grouping(t);
    forall k | 0 <= k < |c| ensures h[k] == g[k] {
      NamesWithSnoc(s, x, c[k]);
    }
    NamesWithSnoc(s, x, x.genes);
    assert NamesWith(s, x.genes) == [];
    assert h[|c|] == Group(x.genes, [x.name]);
  }

  /** GeneSets.group_identical: one pass over the members, indexing groups by gene content. */
  method GroupIdentical(members: seq<GeneSet>) returns (groups: seq<Group>)
    ensures groups == Grouping(members)
  {
    groups := [];
    var index: map<set<string>, nat> := map[];
    for i := 0 to |members|
      invariant groups == Grouping(members[..i])
      invariant forall c :: c in index <==> c in Contents(members[..i])
      invariant forall c :: c in index ==> index[c] < |Contents(members[..i])| && Contents(members[..i])[index[c]] == c
    {
      var g := members[i];
      assert members[..i + 1] == members[..i] + [g];
      ContentsSnoc(members[..i], g);
      if g.genes in index {
        var j := index[g.genes];
        GroupingSnocFound(members[..i], g, j);
        groups := groups[j := Group(g.genes, groups[j].names + [g.name])];
      } else {
        GroupingSnocNew(members[..i], g);
        index := index[g.genes := |groups|];
        groups := groups + [Group(g.genes, [g.name])];
      }
    }
    assert members[..|members|] == members;
  }

  lemma DistinctGenesSplit(p: seq<Group>, x: Group)
    ensures DistinctGenes(p + [x]) ==> DistinctGenes(p) && forall y :: y in p ==> y.genes != x.genes
  {
    var s := p + [x];
    if DistinctGenes(s) {
      forall i, j | 0 <= i < j < |p| ensures p[i].genes != p[j].genes {
        assert p[i] == s[i] && p[j] == s[j];
      }
      forall y | y in p ensures y.genes != x.genes {
        var k :| 0 <= k < |p| && p[k] == y;
        assert s[k] == y && s[|p|] == x;
      }
    }
  }

  lemma DistinctGenesJoin(q: seq<Group>, x: Group)
    ensures DistinctGenes(q) && (forall y :: y in q ==> y.genes != x.genes) ==> DistinctGenes(q + [x])
  {
    var s := q + [x];
    if DistinctGenes(q) && (forall y :: y in q ==> y.genes != x.genes) {
      forall i, j | 0 <= i < j < |s| ensures s[i].genes != s[j].genes {
        assert s[i] == q[i] && s[i] in q;
        if j < |q| {
          assert s[j] == q[j];
        }
      }
    }
  }

  /** Groups with more than `min` names, in grouping order. */
  function Larger(groups: seq<Group>, min: nat): (r: seq<Group>)
    ensures forall x :: x in r <==> x in groups && |x.names| > min
    ensures DistinctGenes(groups) ==> DistinctGenes(r)
  {
    if |groups| == 0 then []
    else
      var p, x := groups[..|groups| - 1], groups[|groups| - 1];
      assert groups == p + [x];
      var q := Larger(p, min);
      DistinctGenesSplit(p, x);
      if |x.names| > min then
        DistinctGenesJoin(q, x);
        q + [x]
      else q
  }

  /** GeneSets.find_redundant(key='name', min_duplicates=min) */
  function FindRedundant(s: seq<GeneSet>, min: nat): seq<Group> {
    Larger(Grouping(s), min)
  }

  /**
   * find_redundant returns exactly the contents held by more than `min` members, each with
   * the names of its holders in member order, every content once.
   */
  lemma FindRedundantExactly(s: seq<GeneSet>, min: nat)
    ensures var r := FindRedundant(s, min);
      && (forall i :: 0 <= i < |r| ==> r[i].names == NamesWith(s, r[i].genes) && |r[i].names| > min)
      && (forall i :: 0 <= i < |r| ==> exists g :: g in s && g.genes == r[i].genes)
      && (forall g :: g in s && |NamesWith(s, g.genes)| > min ==> exists i :: 0 <= i < |r| && r[i].genes == g.genes)
      && DistinctGenes(r)
  {
    var r := FindRedundant(s, min);
    RedundantAreHeld(s, min);
    HeldAreRedundant(s, min);
    GroupingDistinct(s);
  }

  lemma RedundantAreHeld(s: seq<GeneSet>, min: nat)
    ensures var r := FindRedundant(s, min);
      forall i :: 0 <= i < |r| ==>
        && r[i].names == NamesWith(s, r[i].genes) && |r[i].names| > min
        && exists g :: g in s && g.genes == r[i].genes
  {
    var groups, r := Grouping(s), FindRedundant(s, min);
    forall i | 0 <= i < |r| ensures r[i].names == NamesWith(s, r[i].genes) && exists g :: g in s && g.genes == r[i].genes {
      assert r[i] in groups;
      var k :| 0 <= k < |groups| && groups[k] == r[i];
      assert Contents(s)[k] in Contents(s);
    }
  }

  lemma HeldAreRedundant(s: seq<GeneSet>, min: nat)
    ensures var r := FindRedundant(s, min);
      forall g :: g in s && |NamesWith(s, g.genes)| > min ==> exists i :: 0 <= i < |r| && r[i].genes == g.genes
  {
    var groups, r := Grouping(s), FindRedundant(s, min);
    var c := Contents(s);
    forall g | g in s && |NamesWith(s, g.genes)| > min ensures exists i :: 0 <= i < |r| && r[i].genes == g.genes {
      assert g.genes in c;
      var k :| 0 <= k < |c| && c[k] == g.genes;
      assert groups[k] in r;
      var i :| 0 <= i < |r| && r[i] == groups[k];
    }
  }

  lemma GroupingDistinct(s: seq<GeneSet>)
    ensures DistinctGenes(Grouping(s))
  {
    var groups, c := Grouping(s), Contents(s);
    forall i, j | 0 <= i < j < |groups| ensures groups[i].genes != groups[j].genes {
      assert c[i] != c[j];
    }
  }

  // ----- counting the holders of a gene content -----

  lemma FilterSnoc(s: seq<GeneSet>, x: GeneSet, keep: GeneSet -> bool)
    ensures Filter(s + [x], keep) == Filter(s, keep) + (if keep(x) then [x] else [])
  {
    assert (s + [x])[..|s|] == s;
  }

  lemma DistinctSnoc(s: seq<GeneSet>, x: GeneSet)
    ensures Distinct(s + [x]) == if KeyOf(x) in Keys(Distinct(s)) then Distinct(s) else Distinct(s) + [x]
  {
    assert (s + [x])[..|s|] == s;
  }

  lemma {:induction false} FilterHolders(s: seq<GeneSet>, keep: GeneSet -> bool, c: set<string>)
    ensures |NamesWith(Filter(s, keep), c)| <= |NamesWith(s, c)|
    decreases |s|
  {
    if |s| > 0 {
      var p, x := s[..|s| - 1], s[|s| - 1];
      assert s == p + [x];
      var fp := Filter(p, keep);
      FilterHolders(p, keep, c);
      NamesWithSnoc(p, x, c);
      FilterSnoc(p, x, keep);
      if keep(x) {
        assert Filter(s, keep) == fp + [x];
        NamesWithSnoc(fp, x, c);
      } else {
        assert Filter(s, keep) == fp;
      }
    }
  }

  lemma {:induction false} DistinctHolders(s: seq<GeneSet>, c: set<string>)
    ensures |NamesWith(Distinct(s), c)| <= |NamesWith(s, c)|
    decreases |s|
  {
    if |s| > 0 {
      var p, x := s[..|s| - 1], s[|s| - 1];
      assert s == p + [x];
      DistinctHolders(p, c);
      NamesWithSnoc(p, x, c);
      DistinctSnoc(p, x);
      if KeyOf(x) !in Keys(Distinct(p)) {
        NamesWithSnoc(Distinct(p), x, c);
      }
    }
  }

  /** Two positions holding the same content make it held more than once. */
  lemma {:induction false} TwoHolders(s: seq<GeneSet>, i: nat, j: nat)
    requires i < j < |s| && s[i].genes == s[j].genes
    ensures |NamesWith(s, s[j].genes)| >= 2
    decreases |s|
  {
    var p, x := s[..|s| - 1], s[|s| - 1];
    assert s == p + [x];
    NamesWithSnoc(p, x, s[j].genes);
    if j == |s| - 1 {
      assert s[i] in p;
      assert s[i].name in NamesWith(p, s[j].genes);
    } else {
      assert p[i] == s[i] && p[j] == s[j];
      TwoHolders(p, i, j);
    }
  }

  /** A member holds its own content. */
  lemma OneHolder(s: seq<GeneSet>, g: GeneSet)
    requires g in s
    ensures |NamesWith(s, g.genes)| >= 1
  {
    assert g.name in NamesWith(s, g.genes);
  }

  // ----- the constructor -----

  /** any(redundant): iterating the dict yields its keys, so only a non-empty gene content counts as true. */
  predicate HasNonEmptyKey(redundant: seq<Group>) {
    exists i :: 0 <= i < |redundant| && |redundant[i].genes| > 0
  }

  /** The truthiness of collapse_redundant: False (None here) and '' both leave sets uncollapsed. */
  predicate Collapsing(opts: Options) {
    opts.collapse.Some? && opts.collapse.value != ""
  }

  /** names[:limit] */
  function Head(names: seq<string>, limit: nat): seq<string> {
    if |names| <= limit then names else names[..limit]
  }

  /** The name of a collapsed set: at most `limit` names joined, then how many were left out. */
  function CollapsedName(names: seq<string>, sep: string, limit: nat): string {
    Join(sep, Head(names, limit))
      + (if |names| > limit then sep + "... " + NatToString(|names| - limit) + " more" else "")
  }

  /** The synthetic set standing for a redundant group. */
  function CollapsedSet(group: Group, sep: string, limit: nat): GeneSet {
    GeneSet(CollapsedName(group.names, sep, limit), group.genes, Some(Join(sep, group.names)), None, map[], None)
  }

  function CollapseGroups(groups: seq<Group>, sep: string, limit: nat): (r: seq<GeneSet>)
    ensures |r| == |groups|
    ensures forall i :: 0 <= i < |r| ==> r[i] == CollapsedSet(groups[i], sep, limit)
  {
    seq(|groups|, i requires 0 <= i < |groups| => CollapsedSet(groups[i], sep, limit))
  }

  function GenesOf(groups: seq<Group>): set<set<string>> {
    set g | g in groups :: g.genes
  }

  function EmptyMembers(s: seq<GeneSet>): seq<GeneSet> {
    Filter(s, (g: GeneSet) => IsEmpty(g))
  }

  function NonEmptyMembers(s: seq<GeneSet>): seq<GeneSet> {
    Filter(s, (g: GeneSet) => !IsEmpty(g))
  }

  /** The members whose content is none of `contents`. */
  function Outside(s: seq<GeneSet>, contents: set<set<string>>): seq<GeneSet> {
    Filter(s, (g: GeneSet) => g.genes !in contents)
  }

  /** Step 2 of the constructor: with remove_empty and some empty set present, the non-empty members as a Python set. */
  function Kept(input: seq<GeneSet>, removeEmpty: bool): seq<GeneSet> {
    if |Distinct(EmptyMembers(input))| > 0 && removeEmpty then Distinct(NonEmptyMembers(input)) else input
  }

  /** len(sum(redundant.values(), [])) */
  function TotalNames(groups: seq<Group>): nat {
    if |groups| == 0 then 0 else |groups[0].names| + TotalNames(groups[1..])
  }

  /**
   * GeneSets(gene_sets, name, allow_redundant, remove_empty, path, collapse_redundant,
   * collapse_limit): redundancy is computed on the input, then empty sets are removed
   * (turning the members into a Python set), then redundant groups are collapsed.
   */
  function Make(input: seq<GeneSet>, name: string, path: Option<Path>, opts: Options): GeneSets {
    var redundant := FindRedundant(input, 1);
    var empties := Distinct(EmptyMembers(input));
    var kept := Kept(input, opts.removeEmpty);
    var members :=
      if Collapsing(opts) && HasNonEmptyKey(redundant) then
        CollapseGroups(redundant, opts.collapse.value, opts.collapseLimit) + Outside(kept, GenesOf(redundant))
      else kept;
    GeneSets(members, name, path, redundant, Elements(empties))
  }

  /** The names of the members, in order. */
  function Names(s: seq<GeneSet>): (r: seq<string>)
    ensures |r| == |s| && forall i :: 0 <= i < |s| ==> r[i] == s[i].name
  {
    seq(|s|, i requires 0 <= i < |s| => s[i].name)
  }

  function LimitWarnings(groups: seq<Group>, limit: nat): seq<Warning> {
    if |groups| == 0 then []
    else
      var last := groups[|groups| - 1];
      LimitWarnings(groups[..|groups| - 1], limit)
        + (if |last.names| > limit then [CollapseLimitExceeded(|last.names|, Head(last.names, 3), limit)] else [])
  }

  function EmptyCollapsedWarnings(groups: seq<Group>, sep: string, limit: nat): seq<Warning> {
    if |groups| == 0 then []
    else
      var last := groups[|groups| - 1];
      EmptyCollapsedWarnings(groups[..|groups| - 1], sep, limit)
        + (if |last.genes| == 0 then [EmptyGeneSet(CollapsedName(last.names, sep, limit))] else [])
  }

  /** The warning about redundant sets, raised before anything is removed or collapsed. */
  function RedundancyWarnings(redundant: seq<Group>, opts: Options): seq<Warning> {
    if !opts.allowRedundant && HasNonEmptyKey(redundant) && !Collapsing(opts)
    then [RedundantGeneSets(redundant, TotalNames(redundant) > 3)] else []
  }

  /** The warning about the empty sets found: removed, or present with their names when few. */
  function EmptyWarnings(empties: seq<GeneSet>, removeEmpty: bool): seq<Warning> {
    if |empties| == 0 then []
    else if removeEmpty then [EmptyRemoved(|empties|)]
    else [EmptyPresent(|empties|, if |empties| <= 5 then Some(Names(empties)) else None)]
  }

  /** The warnings of the collapsing step. */
  function CollapseWarnings(redundant: seq<Group>, opts: Options): seq<Warning> {
    if Collapsing(opts) && HasNonEmptyKey(redundant) then
      var sep := opts.collapse.value;
      LimitWarnings(redundant, opts.collapseLimit)
        + EmptyCollapsedWarnings(redundant, sep, opts.collapseLimit)
        + [Collapsed(TotalNames(redundant), |redundant|, sep)]
    else []
  }

  /** The warnings of the three steps, given the redundant groups and the empty sets found. */
  function WarningsOf(redundant: seq<Group>, empties: seq<GeneSet>, opts: Options): seq<Warning> {
    RedundancyWarnings(redundant, opts) + EmptyWarnings(empties, opts.removeEmpty) + CollapseWarnings(redundant, opts)
  }

  /** The warnings GeneSets(...) emits, in order. */
  function MakeWarnings(input: seq<GeneSet>, opts: Options): seq<Warning> {
    WarningsOf(FindRedundant(input, 1), Distinct(EmptyMembers(input)), opts)
  }

  /** The loop warning about each redundant group with more names than collapse_limit. */
  method WarnOverLimit(redundant: seq<Group>, limit: nat) returns (warnings: seq<Warning>)
    ensures warnings == LimitWarnings(redundant, limit)
    ensures |warnings| == |Larger(redundant, limit)|
    ensures forall k :: 0 <= k < |warnings| ==> var group := Larger(redundant, limit)[k];
      warnings[k] == CollapseLimitExceeded(|group.names|, Head(group.names, 3), limit)
  {
    warnings := [];
    for i := 0 to |redundant|
      invariant warnings == LimitWarnings(redundant[..i], limit)
    {
      assert redundant[..i + 1][..i] == redundant[..i];
      var names := redundant[i].names;
      if |names| > limit {
        warnings := warnings + [CollapseLimitExceeded(|names|, Head(names, 3), limit)];
      }
    }
    assert redundant[..|redundant|] == redundant;
    LimitWarningsExact(redundant, limit);
  }

  /** One limit warning per group with more than `limit` names, in group order. */
  lemma {:induction false} LimitWarningsExact(groups: seq<Group>, limit: nat)
    ensures |LimitWarnings(groups, limit)| == |Larger(groups, limit)|
    ensures forall k :: 0 <= k < |Larger(groups, limit)| ==> var group := Larger(groups, limit)[k];
      LimitWarnings(groups, limit)[k] == CollapseLimitExceeded(|group.names|, Head(group.names, 3), limit)
    decreases |groups|
  {
    if |groups| > 0 {
      LimitWarningsExact(groups[..|groups| - 1], limit);
    }
  }

  /** One empty-set warning per collapsed set without genes, under that set's name, in order. */
  lemma {:induction false} EmptyCollapsedWarningsExact(groups: seq<Group>, sep: string, limit: nat)
    ensures var empties := EmptyMembers(CollapseGroups(groups, sep, limit));
      && |EmptyCollapsedWarnings(groups, sep, limit)| == |empties|
      && forall k :: 0 <= k < |empties| ==> EmptyCollapsedWarnings(groups, sep, limit)[k] == EmptyGeneSet(empties[k].name)
    decreases |groups|
  {
    if |groups| > 0 {
      var p := groups[..|groups| - 1];
      EmptyCollapsedWarningsExact(p, sep, limit);
      var m := CollapsedSet(groups[|groups| - 1], sep, limit);
      CollapseGroupsSnoc(groups, sep, limit);
      EmptyMembersSnoc(CollapseGroups(p, sep, limit), m);
    }
  }

  lemma CollapseGroupsSnoc(groups: seq<Group>, sep: string, limit: nat)
    requires |groups| > 0
    ensures CollapseGroups(groups, sep, limit)
      == CollapseGroups(groups[..|groups| - 1], sep, limit) + [CollapsedSet(groups[|groups| - 1], sep, limit)]
  {
  }

  lemma EmptyMembersSnoc(p: seq<GeneSet>, m: GeneSet)
    ensures EmptyMembers(p + [m]) == EmptyMembers(p) + (if IsEmpty(m) then [m] else [])
  {
    assert (p + [m])[..|p|] == p;
  }

  /** Building one synthetic set per redundant group; GeneSet(...) warns about each empty one. */
  method CollapseEach(redundant: seq<Group>, sep: string, limit: nat)
    returns (collapsed: seq<GeneSet>, warnings: seq<Warning>)
    ensures collapsed == CollapseGroups(redundant, sep, limit)
    ensures warnings == EmptyCollapsedWarnings(redundant, sep, limit)
    ensures var empties := EmptyMembers(collapsed);
      |warnings| == |empties| && forall k :: 0 <= k < |empties| ==> warnings[k] == EmptyGeneSet(empties[k].name)
  {
    collapsed := [];
    warnings := [];
    for i := 0 to |redundant|
      invariant collapsed == CollapseGroups(redundant[..i], sep, limit)
      invariant warnings == EmptyCollapsedWarnings(redundant[..i], sep, limit)
    {
      var group := redundant[i];
      assert redundant[..i + 1][..i] == redundant[..i];
      assert CollapseGroups(redundant[..i + 1], sep, limit) == collapsed + [CollapsedSet(group, sep, limit)];
      collapsed := collapsed + [CollapsedSet(group, sep, limit)];
      if |group.genes| == 0 {
        warnings := warnings + [EmptyGeneSet(CollapsedName(group.names, sep, limit))];
      }
    }
    assert redundant[..|redundant|] == redundant;
    EmptyCollapsedWarningsExact(redundant, sep, limit);
  }

  /** The empty-set step of GeneSets.__init__: the members kept and the warning given. */
  method RemoveEmpty(input: seq<GeneSet>, removeEmpty: bool) returns (members: seq<GeneSet>, warnings: seq<Warning>)
    ensures members == Kept(input, removeEmpty)
    ensures warnings == EmptyWarnings(Distinct(EmptyMembers(input)), removeEmpty)
  {
    var empties := Distinct(EmptyMembers(input));
    members := input;
    warnings := [];
    if |empties| != 0 {
      if removeEmpty {
        members := Distinct(NonEmptyMembers(input));
        warnings := [EmptyRemoved(|empties|)];
      } else {
        warnings := [EmptyPresent(|empties|, if |empties| <= 5 then Some(Names(empties)) else None)];
      }
    }
  }

  /**
   * GeneSets.__init__ step by step: group the members, warn about redundancy, drop the
   * empty sets, then collapse each redundant group; the result and the warnings are those
   * that Make and MakeWarnings describe.
   */
  method NewGeneSets(input: seq<GeneSet>, name: string, path: Option<Path>, opts: Options)
    returns (gs: GeneSets, warnings: seq<Warning>)
    ensures gs == Make(input, name, path, opts)
    ensures warnings == MakeWarnings(input, opts)
  {
    var groups := GroupIdentical(input);
    var redundant := Larger(groups, 1);
    assert redundant == FindRedundant(input, 1);
    var redundancyWarnings := [];
    if !opts.allowRedundant && HasNonEmptyKey(redundant) && !Collapsing(opts) {
      redundancyWarnings := [RedundantGeneSets(redundant, TotalNames(redundant) > 3)];
    }
    var members, emptyWarnings := RemoveEmpty(input, opts.removeEmpty);
    var collapseWarnings := [];
    if Collapsing(opts) && HasNonEmptyKey(redundant) {
      var sep := opts.collapse.value;
      var limitWarnings := WarnOverLimit(redundant, opts.collapseLimit);
      var collapsed, emptyCollapsed := CollapseEach(redundant, sep, opts.collapseLimit);
      collapseWarnings := limitWarnings + emptyCollapsed + [Collapsed(TotalNames(redundant), |redundant|, sep)];
      members := collapsed + Outside(members, GenesOf(redundant));
    }
    assert redundancyWarnings == RedundancyWarnings(redundant, opts);
    assert collapseWarnings == CollapseWarnings(redundant, opts);
    warnings := redundancyWarnings + emptyWarnings + collapseWarnings;
    gs := GeneSets(members, name, path, redundant, Elements(Distinct(EmptyMembers(input))));
  }

  /** Some empty set was passed exactly when the constructor finds empty sets. */
  lemma EmptiesFound(input: seq<GeneSet>)
    ensures |Distinct(EmptyMembers(input))| > 0 <==> exists g :: g in input && IsEmpty(g)
  {
    var empties := Distinct(EmptyMembers(input));
    if |empties| > 0 {
      assert empties[0] in input;
    } else {
      forall g | g in input ensures !IsEmpty(g) {
        assert KeyOf(g) !in Keys(EmptyMembers(input));
      }
    }
  }

  /** Redundancy is reported unless it is allowed or collapsed, and only for a non-empty content. */
  lemma RedundancyWarned(input: seq<GeneSet>, opts: Options)
    ensures var w := MakeWarnings(input, opts); var redundant := FindRedundant(input, 1);
      && (RedundantGeneSets(redundant, TotalNames(redundant) > 3) in w
          <==> !opts.allowRedundant && HasNonEmptyKey(redundant) && !Collapsing(opts))
      && (forall i :: 0 <= i < |w| && w[i].RedundantGeneSets? ==>
            && i == 0 && w[i] == RedundantGeneSets(redundant, TotalNames(redundant) > 3)
            && !opts.allowRedundant && HasNonEmptyKey(redundant) && !Collapsing(opts))
  {
    RedundancyWarnedOf(FindRedundant(input, 1), Distinct(EmptyMembers(input)), opts);
  }

  lemma RedundancyWarnedOf(redundant: seq<Group>, empties: seq<GeneSet>, opts: Options)
    ensures var w := WarningsOf(redundant, empties, opts);
      && (RedundantGeneSets(redundant, TotalNames(redundant) > 3) in w
          <==> !opts.allowRedundant && HasNonEmptyKey(redundant) && !Collapsing(opts))
      && (forall i :: 0 <= i < |w| && w[i].RedundantGeneSets? ==>
            && i == 0 && w[i] == RedundantGeneSets(redundant, TotalNames(redundant) > 3)
            && !opts.allowRedundant && HasNonEmptyKey(redundant) && !Collapsing(opts))
  {
    var w1, w2, w3 := RedundancyWarnings(redundant, opts), EmptyWarnings(empties, opts.removeEmpty), CollapseWarnings(redundant, opts);
    CollapseWarningsKind(redundant, opts);
    var rest := w2 + w3;
    assert forall x: Warning :: x in rest ==> !x.RedundantGeneSets?;
    var w := WarningsOf(redundant, empties, opts);
    if !opts.allowRedundant && HasNonEmptyKey(redundant) && !Collapsing(opts) {
      assert w == [RedundantGeneSets(redundant, TotalNames(redundant) > 3)] + rest;
      assert w[0] == RedundantGeneSets(redundant, TotalNames(redundant) > 3);
      assert forall i :: 1 <= i < |w| ==> w[i] == rest[i - 1];
    } else {
      assert w1 == [];
      assert w == rest;
    }
  }

  /** The removal of empty sets is reported exactly when some were passed and removal is on. */
  lemma EmptyRemovalWarned(input: seq<GeneSet>, opts: Options)
    ensures EmptyRemoved(|Distinct(EmptyMembers(input))|) in MakeWarnings(input, opts)
      <==> opts.removeEmpty && exists g :: g in input && IsEmpty(g)
  {
    EmptiesFound(input);
    EmptyRemovalWarnedOf(FindRedundant(input, 1), Distinct(EmptyMembers(input)), opts);
  }

  lemma EmptyRemovalWarnedOf(redundant: seq<Group>, empties: seq<GeneSet>, opts: Options)
    ensures EmptyRemoved(|empties|) in WarningsOf(redundant, empties, opts) <==> opts.removeEmpty && |empties| > 0
  {
    var w1, w2, w3 := RedundancyWarnings(redundant, opts), EmptyWarnings(empties, opts.removeEmpty), CollapseWarnings(redundant, opts);
    CollapseWarningsKind(redundant, opts);
    assert forall x: Warning :: x in w1 + w3 ==> !x.EmptyRemoved?;
    assert WarningsOf(redundant, empties, opts) == w1 + w2 + w3;
  }

  /**
   * Without removal, the empty sets are reported exactly when some were passed: with their
   * count, and with their names when there are at most five; no other such report appears.
   */
  lemma EmptyPresentWarned(input: seq<GeneSet>, opts: Options)
    ensures var empties := Distinct(EmptyMembers(input)); var w := MakeWarnings(input, opts);
      && (EmptyPresent(|empties|, if |empties| <= 5 then Some(Names(empties)) else None) in w
          <==> !opts.removeEmpty && exists g :: g in input && IsEmpty(g))
      && (forall x :: x in w && x.EmptyPresent? ==>
            x == EmptyPresent(|empties|, if |empties| <= 5 then Some(Names(empties)) else None))
  {
    EmptiesFound(input);
    EmptyPresentWarnedOf(FindRedundant(input, 1), Distinct(EmptyMembers(input)), opts);
  }

  lemma EmptyPresentWarnedOf(redundant: seq<Group>, empties: seq<GeneSet>, opts: Options)
    ensures var report := EmptyPresent(|empties|, if |empties| <= 5 then Some(Names(empties)) else None);
      && (report in WarningsOf(redundant, empties, opts) <==> !opts.removeEmpty && |empties| > 0)
      && (forall x :: x in WarningsOf(redundant, empties, opts) && x.EmptyPresent? ==> x == report)
  {
    var w1, w2, w3 := RedundancyWarnings(redundant, opts), EmptyWarnings(empties, opts.removeEmpty), CollapseWarnings(redundant, opts);
    CollapseWarningsKind(redundant, opts);
    assert forall x: Warning :: x in w1 + w3 ==> !x.EmptyPresent?;
    assert WarningsOf(redundant, empties, opts) == w1 + w2 + w3;
  }

  /** A collapse summary is emitted exactly when collapsing happens. */
  lemma CollapseWarned(input: seq<GeneSet>, opts: Options)
    ensures var w := MakeWarnings(input, opts); var redundant := FindRedundant(input, 1);
      && (Collapsing(opts) && HasNonEmptyKey(redundant)
          ==> Collapsed(TotalNames(redundant), |redundant|, opts.collapse.value) in w)
      && (forall i :: 0 <= i < |w| && w[i].Collapsed? ==> Collapsing(opts) && HasNonEmptyKey(redundant))
  {
    CollapseWarnedOf(FindRedundant(input, 1), Distinct(EmptyMembers(input)), opts);
  }

  lemma CollapseWarnedOf(redundant: seq<Group>, empties: seq<GeneSet>, opts: Options)
    ensures var w := WarningsOf(redundant, empties, opts);
      && (Collapsing(opts) && HasNonEmptyKey(redundant)
          ==> Collapsed(TotalNames(redundant), |redundant|, opts.collapse.value) in w)
      && (forall i :: 0 <= i < |w| && w[i].Collapsed? ==> Collapsing(opts) && HasNonEmptyKey(redundant))
  {
    var w1, w2, w3 := RedundancyWarnings(redundant, opts), EmptyWarnings(empties, opts.removeEmpty), CollapseWarnings(redundant, opts);
    assert forall x: Warning :: x in w1 + w2 ==> !x.Collapsed?;
    assert WarningsOf(redundant, empties, opts) == w1 + w2 + w3;
  }

  lemma CollapseWarningsKind(redundant: seq<Group>, opts: Options)
    ensures forall x :: x in CollapseWarnings(redundant, opts) ==>
      x.CollapseLimitExceeded? || x.EmptyGeneSet? || x.Collapsed?
  {
    if Collapsing(opts) && HasNonEmptyKey(redundant) {
      LimitWarningsKind(redundant, opts.collapseLimit);
      EmptyCollapsedWarningsKind(redundant, opts.collapse.value, opts.collapseLimit);
    }
  }

  lemma LimitWarningsKind(groups: seq<Group>, limit: nat)
    ensures forall w :: w in LimitWarnings(groups, limit) ==> w.CollapseLimitExceeded?
  {
  }

  lemma EmptyCollapsedWarningsKind(groups: seq<Group>, sep: string, limit: nat)
    ensures forall w :: w in EmptyCollapsedWarnings(groups, sep, limit) ==> w.EmptyGeneSet?
  {
  }

  // ----- what the constructor keeps -----

  lemma KeptFacts(input: seq<GeneSet>, removeEmpty: bool)
    ensures var kept := Kept(input, removeEmpty);
      && |kept| <= |input|
      && (forall m :: m in kept ==> m in input)
      && (removeEmpty ==> forall m :: m in kept ==> !IsEmpty(m))
      && (forall g :: g in input && (removeEmpty ==> !IsEmpty(g)) ==> KeyOf(g) in Keys(kept))
      && (forall c :: |NamesWith(kept, c)| <= |NamesWith(input, c)|)
      && (!removeEmpty ==> kept == input)
  {
    EmptiesFound(input);
    var kept := Kept(input, removeEmpty);
    if |Distinct(EmptyMembers(input))| > 0 && removeEmpty {
      var ne := NonEmptyMembers(input);
      forall g | g in input && !IsEmpty(g) ensures KeyOf(g) in Keys(kept) {
        assert g in ne;
        assert KeyOf(g) in Keys(ne);
      }
      forall c ensures |NamesWith(kept, c)| <= |NamesWith(input, c)| {
        DistinctHolders(ne, c);
        FilterHolders(input, (g: GeneSet) => !IsEmpty(g), c);
      }
    }
  }

  /**
   * Without collapsing and with remove_empty: the members are non-empty input sets, every
   * non-empty input set is kept (up to its name and genes), and the empty ones are recorded.
   */
  lemma MakeRemovesEmpty(input: seq<GeneSet>, name: string, path: Option<Path>, opts: Options)
    requires opts.removeEmpty && !(Collapsing(opts) && HasNonEmptyKey(FindRedundant(input, 1)))
    ensures var r := Make(input, name, path, opts);
      && r.name == name && r.path == path && r.redundant == FindRedundant(input, 1)
      && |r.geneSets| <= |input|
      && (forall m :: m in r.geneSets ==> m in input && !IsEmpty(m))
      && (forall g :: g in input && !IsEmpty(g) ==> KeyOf(g) in Keys(r.geneSets))
      && (forall e :: e in r.emptyGeneSets ==> e in input && IsEmpty(e))
      && (forall g :: g in input && IsEmpty(g) ==> KeyOf(g) in KeySet(r.emptyGeneSets))
  {
    KeptFacts(input, true);
    EmptySetsRecorded(input, name, path, opts);
  }

  /** Without collapsing and without remove_empty the members are the input, unchanged. */
  lemma MakeKeepsInput(input: seq<GeneSet>, name: string, path: Option<Path>, opts: Options)
    requires !opts.removeEmpty && !(Collapsing(opts) && HasNonEmptyKey(FindRedundant(input, 1)))
    ensures var r := Make(input, name, path, opts);
      && r.geneSets == input && r.name == name && r.path == path
      && (forall e :: e in r.emptyGeneSets ==> e in input && IsEmpty(e))
      && (forall g :: g in input && IsEmpty(g) ==> KeyOf(g) in KeySet(r.emptyGeneSets))
  {
    KeptFacts(input, false);
    EmptySetsRecorded(input, name, path, opts);
  }

  /** empty_gene_sets holds the empty input sets, one per (name, genes). */
  lemma EmptySetsRecorded(input: seq<GeneSet>, name: string, path: Option<Path>, opts: Options)
    ensures var r := Make(input, name, path, opts);
      && (forall e :: e in r.emptyGeneSets ==> e in input && IsEmpty(e))
      && (forall g :: g in input && IsEmpty(g) ==> KeyOf(g) in KeySet(r.emptyGeneSets))
  {
    var em := EmptyMembers(input);
    var d := Distinct(em);
    var r := Make(input, name, path, opts);
    assert r.emptyGeneSets == Elements(d);
    forall g | g in input && IsEmpty(g) ensures KeyOf(g) in KeySet(r.emptyGeneSets) {
      assert KeyOf(g) in Keys(em);
      var h :| h in d && KeyOf(h) == KeyOf(g);
      assert h in r.emptyGeneSets;
    }
  }

  // ----- collapsing -----

  /** The members passed through a collapse are input sets held once. */
  lemma OutsideHeldOnce(input: seq<GeneSet>, removeEmpty: bool)
    ensures var o := Outside(Kept(input, removeEmpty), GenesOf(FindRedundant(input, 1)));
      forall m :: m in o ==> m in input && |NamesWith(input, m.genes)| == 1 && (removeEmpty ==> !IsEmpty(m))
  {
    var red := FindRedundant(input, 1);
    var o := Outside(Kept(input, removeEmpty), GenesOf(red));
    KeptFacts(input, removeEmpty);
    forall m | m in o ensures |NamesWith(input, m.genes)| == 1 {
      OneHolder(input, m);
      if |NamesWith(input, m.genes)| > 1 {
        HeldAreRedundant(input, 1);
        assert false;
      }
    }
  }

  /** Every input set held once (and non-empty, under remove_empty) is passed through a collapse. */
  lemma OutsideComplete(input: seq<GeneSet>, removeEmpty: bool)
    ensures var o := Outside(Kept(input, removeEmpty), GenesOf(FindRedundant(input, 1)));
      forall g :: g in input && |NamesWith(input, g.genes)| == 1 && (removeEmpty ==> !IsEmpty(g)) ==> g in o
  {
    var red := FindRedundant(input, 1);
    var kept := Kept(input, removeEmpty);
    KeptFacts(input, removeEmpty);
    forall g | g in input && |NamesWith(input, g.genes)| == 1 && (removeEmpty ==> !IsEmpty(g))
      ensures g.genes !in GenesOf(red) && g in kept
    {
      if g.genes in GenesOf(red) {
        RedundantAreHeld(input, 1);
        assert false;
      }
      assert KeyOf(g) in Keys(kept);
      var h :| h in kept && KeyOf(h) == KeyOf(g);
      if h != g {
        var a :| 0 <= a < |input| && input[a] == g;
        var b :| 0 <= b < |input| && input[b] == h;
        if a < b { TwoHolders(input, a, b); } else { TwoHolders(input, b, a); }
        assert false;
      }
    }
  }

  /** No two members passed through a collapse share their genes. */
  lemma OutsideDistinct(input: seq<GeneSet>, removeEmpty: bool)
    ensures var o := Outside(Kept(input, removeEmpty), GenesOf(FindRedundant(input, 1)));
      forall i, j :: 0 <= i < j < |o| ==> o[i].genes != o[j].genes
  {
    var kept := Kept(input, removeEmpty);
    var o := Outside(kept, GenesOf(FindRedundant(input, 1)));
    OutsideHeldOnce(input, removeEmpty);
    KeptFacts(input, removeEmpty);
    forall i, j | 0 <= i < j < |o| ensures o[i].genes != o[j].genes {
      if o[i].genes == o[j].genes {
        TwoHolders(o, i, j);
        FilterHolders(kept, (g: GeneSet) => g.genes !in GenesOf(FindRedundant(input, 1)), o[j].genes);
        assert false;
      }
    }
  }

  /**
   * Collapsing (collapse_redundant a non-empty string, and some redundant content non-empty):
   * each redundant group becomes one set named by its first collapse_limit names and the
   * count of the rest, described by all its names; every other input set held once is
   * passed through; and no two members share their genes.
   */
  lemma MakeCollapses(input: seq<GeneSet>, name: string, path: Option<Path>, opts: Options)
    requires Collapsing(opts) && HasNonEmptyKey(FindRedundant(input, 1))
    ensures |FindRedundant(input, 1)| <= |Make(input, name, path, opts).geneSets|
    ensures var r := Make(input, name, path, opts); var red := FindRedundant(input, 1);
      var sep, limit := opts.collapse.value, opts.collapseLimit;
      forall i :: 0 <= i < |red| ==>
        && r.geneSets[i].genes == red[i].genes
        && r.geneSets[i].name == CollapsedName(red[i].names, sep, limit)
        && r.geneSets[i].description == Some(Join(sep, red[i].names))
        && r.geneSets[i].representativeness == None && r.geneSets[i].metadata == map[]
    ensures var r := Make(input, name, path, opts); var red := FindRedundant(input, 1);
      forall m :: m in r.geneSets[|red|..] ==>
        m in input && |NamesWith(input, m.genes)| == 1 && (opts.removeEmpty ==> !IsEmpty(m))
    ensures var r := Make(input, name, path, opts); var red := FindRedundant(input, 1);
      forall g :: g in input && |NamesWith(input, g.genes)| == 1 && (opts.removeEmpty ==> !IsEmpty(g))
        ==> g in r.geneSets[|red|..]
    ensures var r := Make(input, name, path, opts);
      forall i, j :: 0 <= i < j < |r.geneSets| ==> r.geneSets[i].genes != r.geneSets[j].genes
  {
    CollapsedGroups(input, name, path, opts);
    CollapsedPassThrough(input, name, path, opts);
    OutsideHeldOnce(input, opts.removeEmpty);
    OutsideComplete(input, opts.removeEmpty);
    CollapsedDistinct(input, name, path, opts);
  }

  lemma CollapsedGroups(input: seq<GeneSet>, name: string, path: Option<Path>, opts: Options)
    requires Collapsing(opts) && HasNonEmptyKey(FindRedundant(input, 1))
    ensures var ms := Make(input, name, path, opts).geneSets; var red := FindRedundant(input, 1);
      && |red| <= |ms|
      && forall i :: 0 <= i < |red| ==> ms[i] == CollapsedSet(red[i], opts.collapse.value, opts.collapseLimit)
  {
    CollapsedSplit(input, name, path, opts);
  }

  lemma CollapsedPartsDistinct(input: seq<GeneSet>, sep: string, limit: nat, removeEmpty: bool)
    ensures var red := FindRedundant(input, 1);
      DistinctContents(CollapseGroups(red, sep, limit) + Outside(Kept(input, removeEmpty), GenesOf(red)))
  {
    var red := FindRedundant(input, 1);
    var cg := CollapseGroups(red, sep, limit);
    var o := Outside(Kept(input, removeEmpty), GenesOf(red));
    OutsideDistinct(input, removeEmpty);
    GroupingDistinct(input);
    assert DistinctGenes(red);
    forall i, j | 0 <= i < j < |cg| ensures cg[i].genes != cg[j].genes {
      assert cg[i].genes == red[i].genes && cg[j].genes == red[j].genes;
    }
    forall i, j | 0 <= i < |cg| && 0 <= j < |o| ensures cg[i].genes != o[j].genes {
      assert o[j] in o;
      assert red[i] in red;
    }
    AppendDistinct(cg, o);
  }


  lemma CollapsedPassThrough(input: seq<GeneSet>, name: string, path: Option<Path>, opts: Options)
    requires Collapsing(opts) && HasNonEmptyKey(FindRedundant(input, 1))
    ensures var red := FindRedundant(input, 1);
      |red| <= |Make(input, name, path, opts).geneSets| &&
      Make(input, name, path, opts).geneSets[|red|..] == Outside(Kept(input, opts.removeEmpty), GenesOf(red))
  {
    var red := FindRedundant(input, 1);
    var cg := CollapseGroups(red, opts.collapse.value, opts.collapseLimit);
    var o := Outside(Kept(input, opts.removeEmpty), GenesOf(red));
    CollapsedSplit(input, name, path, opts);
    assert (cg + o)[|cg|..] == o;
  }

  lemma CollapsedSplit(input: seq<GeneSet>, name: string, path: Option<Path>, opts: Options)
    requires Collapsing(opts) && HasNonEmptyKey(FindRedundant(input, 1))
    ensures var red := FindRedundant(input, 1);
      Make(input, name, path, opts).geneSets
        == CollapseGroups(red, opts.collapse.value, opts.collapseLimit) + Outside(Kept(input, opts.removeEmpty), GenesOf(red))
  {
  }

  lemma UncollapsedSplit(input: seq<GeneSet>, name: string, path: Option<Path>, opts: Options)
    requires !(Collapsing(opts) && HasNonEmptyKey(FindRedundant(input, 1)))
    ensures Make(input, name, path, opts).geneSets == Kept(input, opts.removeEmpty)
  {
  }

  lemma CollapsedDistinct(input: seq<GeneSet>, name: string, path: Option<Path>, opts: Options)
    requires Collapsing(opts) && HasNonEmptyKey(FindRedundant(input, 1))
    ensures DistinctContents(Make(input, name, path, opts).geneSets)
  {
    CollapsedSplit(input, name, path, opts);
    CollapsedPartsDistinct(input, opts.collapse.value, opts.collapseLimit, opts.removeEmpty);
  }

  /** No two members hold the same genes. */
  predicate DistinctContents(s: seq<GeneSet>) {
    forall i, j :: 0 <= i < j < |s| ==> s[i].genes != s[j].genes
  }

  /** Two sequences with pairwise distinct genes, none shared between them, concatenate to one. */
  lemma AppendDistinct(a: seq<GeneSet>, b: seq<GeneSet>)
    requires forall i, j :: 0 <= i < j < |a| ==> a[i].genes != a[j].genes
    requires forall i, j :: 0 <= i < j < |b| ==> b[i].genes != b[j].genes
    requires forall i, j :: 0 <= i < |a| && 0 <= j < |b| ==> a[i].genes != b[j].genes
    ensures DistinctContents(a + b)
  {
    forall i, j | 0 <= i < j < |a + b| ensures (a + b)[i].genes != (a + b)[j].genes {
      if j < |a| {
        assert (a + b)[i] == a[i] && (a + b)[j] == a[j];
      } else if i < |a| {
        assert (a + b)[i] == a[i] && (a + b)[j] == b[j - |a|];
      } else {
        assert (a + b)[i] == b[i - |a|] && (a + b)[j] == b[j - |a|];
      }
    }
  }


  /**
   * When collapsing happens and two empty sets were passed, their group is collapsed as
   * well, so an empty member comes back even with remove_empty.
   */
  lemma CollapseRestoresEmpty(input: seq<GeneSet>, name: string, path: Option<Path>, opts: Options, a: nat, b: nat)
    requires Collapsing(opts) && HasNonEmptyKey(FindRedundant(input, 1))
    requires a < b < |input| && IsEmpty(input[a]) && IsEmpty(input[b])
    ensures exists m :: m in Make(input, name, path, opts).geneSets && IsEmpty(m)
  {
    var red := FindRedundant(input, 1);
    assert input[a].genes == input[b].genes;
    TwoHolders(input, a, b);
    HeldAreRedundant(input, 1);
    assert input[b] in input;
    var i :| 0 <= i < |red| && red[i].genes == input[b].genes;
    CollapsedSplit(input, name, path, opts);
    var ms := Make(input, name, path, opts).geneSets;
    var collapsed := CollapseGroups(red, opts.collapse.value, opts.collapseLimit);
    assert ms[i] == collapsed[i] && collapsed[i].genes == red[i].genes;
    assert ms[i] in ms;
  }

  /**
   * any(redundant) looks at the gene contents: when only empty sets are held more than once,
   * nothing is collapsed and no redundancy is reported, whatever the options.
   */
  lemma OnlyEmptyRedundancy(input: seq<GeneSet>, name: string, path: Option<Path>, opts: Options)
    requires forall g :: g in input && |NamesWith(input, g.genes)| > 1 ==> IsEmpty(g)
    ensures !HasNonEmptyKey(FindRedundant(input, 1))
    ensures Make(input, name, path, opts).geneSets == Kept(input, opts.removeEmpty)
    ensures forall i :: 0 <= i < |MakeWarnings(input, opts)| ==>
      !MakeWarnings(input, opts)[i].RedundantGeneSets? && !MakeWarnings(input, opts)[i].Collapsed?
  {
    OnlyEmptyRedundant(input);
    UncollapsedSplit(input, name, path, opts);
    NothingRedundantWarned(FindRedundant(input, 1), Distinct(EmptyMembers(input)), opts);
  }

  lemma NothingRedundantWarned(redundant: seq<Group>, empties: seq<GeneSet>, opts: Options)
    requires !HasNonEmptyKey(redundant)
    ensures forall i :: 0 <= i < |WarningsOf(redundant, empties, opts)| ==>
      !WarningsOf(redundant, empties, opts)[i].RedundantGeneSets? && !WarningsOf(redundant, empties, opts)[i].Collapsed?
  {
    RedundancyWarnedOf(redundant, empties, opts);
    CollapseWarnedOf(redundant, empties, opts);
  }

  lemma OnlyEmptyRedundant(input: seq<GeneSet>)
    requires forall g :: g in input && |NamesWith(input, g.genes)| > 1 ==> IsEmpty(g)
    ensures !HasNonEmptyKey(FindRedundant(input, 1))
  {
    var red := FindRedundant(input, 1);
    RedundantAreHeld(input, 1);
    forall i | 0 <= i < |red| ensures |red[i].genes| == 0 {
      var g :| g in input && g.genes == red[i].genes;
    }
  }

  /** collapse_redundant(sep) on a non-empty separator leaves no two members with the same genes. */
  lemma CollapseRedundantDistinct(gs: GeneSets, sep: string)
    requires sep != ""
    ensures var r := CollapseRedundant(gs, sep);
      && r.name == "" && r.path == None
      && forall i, j :: 0 <= i < j < |r.geneSets| ==> r.geneSets[i].genes != r.geneSets[j].genes
  {
    var input := gs.geneSets;
    var opts := Options(false, true, Some(sep), 10);
    var red := FindRedundant(input, 1);
    if HasNonEmptyKey(red) {
      MakeCollapses(input, "", None, opts);
    } else {
      var kept := Kept(input, true);
      assert CollapseRedundant(gs, sep).geneSets == kept;
      KeptFacts(input, true);
      forall i, j | 0 <= i < j < |kept| ensures kept[i].genes != kept[j].genes {
        if kept[i].genes == kept[j].genes {
          TwoHolders(kept, i, j);
          assert kept[j] in input;
          HeldAreRedundant(input, 1);
          assert false;
        }
      }
    }
  }

  // ----- derived collections -----

  /** collapse_redundant(sep): the members rebuilt with the separator, under the default name and no path. */
  function CollapseRedundant(gs: GeneSets, sep: string): GeneSets {
    Make(gs.geneSets, "", None, Options(false, true, Some(sep), 10))
  }

  /** min_genes <= len(genes) <= max_genes, with None for an unbounded max_genes. */
  predicate InSizeRange(g: GeneSet, minGenes: int, maxGenes: Option<int>) {
    minGenes <= |g.genes| && (maxGenes.None? || |g.genes| <= maxGenes.value)
  }

  /** trim(min_genes, max_genes) */
  function Trim(gs: GeneSets, minGenes: int, maxGenes: Option<int>): GeneSets {
    Make(Distinct(Filter(gs.geneSets, (g: GeneSet) => InSizeRange(g, minGenes, maxGenes))), "", None, Defaults)
  }

  /**
   * trim keeps exactly the non-empty members within the size bounds (up to name and genes),
   * and never grows the collection.
   */
  lemma TrimKeeps(gs: GeneSets, minGenes: int, maxGenes: Option<int>)
    ensures var r := Trim(gs, minGenes, maxGenes);
      && r.name == "" && r.path == None
      && Len(r) <= Len(gs)
      && (forall m :: m in r.geneSets ==> m in gs.geneSets && InSizeRange(m, minGenes, maxGenes) && !IsEmpty(m))
      && (forall g :: g in gs.geneSets && InSizeRange(g, minGenes, maxGenes) && !IsEmpty(g)
            ==> KeyOf(g) in Keys(r.geneSets))
  {
    var f := Filter(gs.geneSets, (g: GeneSet) => InSizeRange(g, minGenes, maxGenes));
    var input := Distinct(f);
    MakeRemovesEmpty(input, "", None, Defaults);
    forall g | g in gs.geneSets && InSizeRange(g, minGenes, maxGenes) && !IsEmpty(g)
      ensures KeyOf(g) in Keys(Trim(gs, minGenes, maxGenes).geneSets)
    {
      assert KeyOf(g) in Keys(f);
      var h :| h in input && KeyOf(h) == KeyOf(g);
    }
  }

  /** extract(set_names) */
  function Extract(gs: GeneSets, names: set<string>): GeneSets {
    Make(Distinct(Filter(gs.geneSets, (g: GeneSet) => g.name in names)), "", None, Defaults)
  }

  /** extract keeps exactly the non-empty members whose name is asked for (up to name and genes). */
  lemma ExtractKeeps(gs: GeneSets, names: set<string>)
    ensures var r := Extract(gs, names);
      && r.name == "" && r.path == None
      && Len(r) <= Len(gs)
      && (forall m :: m in r.geneSets ==> m in gs.geneSets && m.name in names && !IsEmpty(m))
      && (forall g :: g in gs.geneSets && g.name in names && !IsEmpty(g) ==> KeyOf(g) in Keys(r.geneSets))
  {
    var f := Filter(gs.geneSets, (g: GeneSet) => g.name in names);
    var input := Distinct(f);
    MakeRemovesEmpty(input, "", None, Defaults);
    forall g | g in gs.geneSets && g.name in names && !IsEmpty(g)
      ensures KeyOf(g) in Keys(Extract(gs, names).geneSets)
    {
      assert KeyOf(g) in Keys(f);
      var h :| h in input && KeyOf(h) == KeyOf(g);
    }
  }

  type Positive = n: nat | n > 0 witness 1

  /** min_representation, as the exact fraction num / den. */
  datatype Fraction = Fraction(num: int, den: Positive)

  /** len(overlap) / len(genes) >= min_representation, compared exactly; the member is not empty. */
  predicate Represented(g: GeneSet, universe: set<string>, floor: Fraction) {
    |g.genes * universe| * floor.den >= floor.num * |g.genes|
  }

  /** The member restricted to the universe: GeneSet(name, overlap, warn_if_empty=False, representativeness=...). */
  function Restrict(g: GeneSet, universe: set<string>): GeneSet {
    GeneSet(g.name, g.genes * universe, None, Some(Ratio(|g.genes * universe|, |g.genes|)), map[], None)
  }

  function Restricted(s: seq<GeneSet>, universe: set<string>, floor: Fraction): (r: seq<GeneSet>)
    ensures forall m :: m in r <==> exists g :: g in s && Represented(g, universe, floor) && m == Restrict(g, universe)
    ensures |r| <= |s|
  {
    if |s| == 0 then []
    else
      var p, x := s[..|s| - 1], s[|s| - 1];
      assert s == p + [x];
      Restricted(p, universe, floor) + (if Represented(x, universe, floor) then [Restrict(x, universe)] else [])
  }

  /** The ZeroDivisionError of len(overlap) / len(genes) on an empty member. */
  datatype SubsetError = ZeroDivision(name: string)

  /** subset(genes, min_representation) */
  function Subset(gs: GeneSets, universe: set<string>, floor: Fraction): (r: Result<GeneSets, SubsetError>)
    ensures r.Failure? <==> exists g :: g in gs.geneSets && IsEmpty(g)
    ensures r.Failure? ==> exists g :: g in gs.geneSets && IsEmpty(g) && r.error == ZeroDivision(g.name)
  {
    var empties := EmptyMembers(gs.geneSets);
    if |empties| > 0 then
      assert empties[0] in empties;
      Failure(ZeroDivision(empties[0].name))
    else
      assert forall g :: g in gs.geneSets ==> !IsEmpty(g) by {
        forall g | g in gs.geneSets ensures !IsEmpty(g) {
          assert IsEmpty(g) ==> g in empties;
        }
      }
      Success(Make(Distinct(Restricted(gs.geneSets, universe, floor)), "", None, Defaults))
  }

  /**
   * The members of r are members of gs restricted to the universe, represented enough, not
   * empty, with their representativeness recorded; and every such restriction is in r (up to key).
   */
  predicate SubsetOf(gs: GeneSets, universe: set<string>, floor: Fraction, r: GeneSets) {
    SubsetWithin(gs, universe, floor, r) && SubsetComplete(gs, universe, floor, r)
  }

  predicate SubsetWithin(gs: GeneSets, universe: set<string>, floor: Fraction, r: GeneSets) {
    forall m :: m in r.geneSets ==> exists g ::
      && g in gs.geneSets && Represented(g, universe, floor)
      && m.name == g.name && m.genes == g.genes * universe && |m.genes| > 0
      && m.representativeness == Some(Ratio(|m.genes|, |g.genes|))
  }

  predicate SubsetComplete(gs: GeneSets, universe: set<string>, floor: Fraction, r: GeneSets) {
    forall g :: g in gs.geneSets && Represented(g, universe, floor) && |g.genes * universe| > 0
      ==> KeyOf(Restrict(g, universe)) in Keys(r.geneSets)
  }


  /**
   * Every member of a subset is a member of the collection restricted to the universe, with
   * its representativeness recorded, at least the floor, and not empty; and every member whose
   * overlap is non-empty and represented enough is there (up to name and genes).
   */
  lemma SubsetMembers(gs: GeneSets, universe: set<string>, floor: Fraction)
    requires Subset(gs, universe, floor).Success?
    ensures var r := Subset(gs, universe, floor).value;
      && r.name == "" && r.path == None
      && Len(r) <= Len(gs)
      && SubsetOf(gs, universe, floor, r)
  {
    var rs := Restricted(gs.geneSets, universe, floor);
    var input := Distinct(rs);
    MakeRemovesEmpty(input, "", None, Defaults);
    forall g | g in gs.geneSets && Represented(g, universe, floor) && |g.genes * universe| > 0
      ensures KeyOf(Restrict(g, universe)) in Keys(Subset(gs, universe, floor).value.geneSets)
    {
      assert Restrict(g, universe) in rs;
      assert KeyOf(Restrict(g, universe)) in Keys(rs);
      var h :| h in input && KeyOf(h) == KeyOf(Restrict(g, universe));
    }
  }

  /**
   * A subset on a universe covering every member and a floor of at most one keeps every
   * member (up to name and genes); it equals the collection exactly when the collection has
   * the default name.
   */
  lemma SubsetWholeUniverse(gs: GeneSets, universe: set<string>, floor: Fraction)
    requires Subset(gs, universe, floor).Success?
    requires forall g :: g in gs.geneSets ==> g.genes <= universe
    requires floor.num <= floor.den
    ensures Keys(Subset(gs, universe, floor).value.geneSets) == Keys(gs.geneSets)
    ensures Equal(Subset(gs, universe, floor).value, gs) <==> gs.name == ""
  {
    var r := Subset(gs, universe, floor).value;
    SubsetMembers(gs, universe, floor);
    WholeKeys(gs, universe, floor, r);
  }

  lemma WholeKeys(gs: GeneSets, universe: set<string>, floor: Fraction, r: GeneSets)
    requires SubsetOf(gs, universe, floor, r)
    requires forall g :: g in gs.geneSets ==> g.genes <= universe && !IsEmpty(g)
    requires floor.num <= floor.den
    ensures Keys(r.geneSets) == Keys(gs.geneSets)
  {
    WholeKeysKept(gs, universe, floor, r);
    WholeKeysWithin(gs, universe, floor, r);
  }

  lemma WholeKeysKept(gs: GeneSets, universe: set<string>, floor: Fraction, r: GeneSets)
    requires SubsetComplete(gs, universe, floor, r)
    requires forall g :: g in gs.geneSets ==> g.genes <= universe && !IsEmpty(g)
    requires floor.num <= floor.den
    ensures Keys(gs.geneSets) <= Keys(r.geneSets)
  {
    forall k | k in Keys(gs.geneSets) ensures k in Keys(r.geneSets) {
      var g :| g in gs.geneSets && KeyOf(g) == k;
      WholeRepresented(g, universe, floor);
      assert KeyOf(Restrict(g, universe)) == k;
    }
  }

  lemma WholeKeysWithin(gs: GeneSets, universe: set<string>, floor: Fraction, r: GeneSets)
    requires SubsetWithin(gs, universe, floor, r)
    requires forall g :: g in gs.geneSets ==> g.genes <= universe
    ensures Keys(r.geneSets) <= Keys(gs.geneSets)
  {
    forall k | k in Keys(r.geneSets) ensures k in Keys(gs.geneSets) {
      var m :| m in r.geneSets && KeyOf(m) == k;
      var g :| g in gs.geneSets && m.name == g.name && m.genes == g.genes * universe;
      assert g.genes * universe == g.genes;
      assert KeyOf(g) == k;
    }
  }




  /** A member lying inside the universe has representativeness one, which reaches any floor up to one. */
  lemma WholeRepresented(g: GeneSet, universe: set<string>, floor: Fraction)
    requires g.genes <= universe && floor.num <= floor.den
    ensures Represented(g, universe, floor) && Restrict(g, universe).genes == g.genes
  {
    var n := |g.genes|;
    assert g.genes * universe == g.genes;
    assert (floor.den - floor.num) * n >= 0;
    assert n * floor.den - floor.num * n == (floor.den - floor.num) * n;
  }

  // ----- format_names, all_genes, gene_sets_by_name, __len__, __eq__ -----

  /** format_names(formatter): a copy whose every member is renamed by the formatter, nothing else changed. */
  method FormatNames(gs: GeneSets, formatter: GeneSet -> string) returns (r: GeneSets)
    ensures r.name == gs.name && r.path == gs.path && r.redundant == gs.redundant && r.emptyGeneSets == gs.emptyGeneSets
    ensures |r.geneSets| == |gs.geneSets|
    ensures forall i :: 0 <= i < |gs.geneSets| ==> r.geneSets[i] == gs.geneSets[i].(name := formatter(gs.geneSets[i]))
  {
    var members := gs.geneSets;
    for i := 0 to |members|
      invariant |members| == |gs.geneSets|
      invariant forall k :: 0 <= k < i ==> members[k] == gs.geneSets[k].(name := formatter(gs.geneSets[k]))
      invariant forall k :: i <= k < |members| ==> members[k] == gs.geneSets[k]
    {
      members := members[i := members[i].(name := formatter(members[i]))];
    }
    r := gs.(geneSets := members);
  }

  /** all_genes: the union of the members' genes. */
  method AllGenes(gs: GeneSets) returns (genes: set<string>)
    ensures forall x :: x in genes <==> exists g :: g in gs.geneSets && x in g.genes
  {
    genes := {};
    for i := 0 to |gs.geneSets|
      invariant forall x :: x in genes <==> exists k :: 0 <= k < i && x in gs.geneSets[k].genes
    {
      genes := genes + gs.geneSets[i].genes;
    }
  }

  /** {gene_set.name: gene_set for gene_set in gene_sets}: a later member wins a shared name. */
  function ByName(s: seq<GeneSet>): (m: map<string, GeneSet>)
    ensures m.Keys == Elements(Names(s))
    ensures forall n :: n in m ==> m[n] in s && m[n].name == n
  {
    if |s| == 0 then map[]
    else
      var p, x := s[..|s| - 1], s[|s| - 1];
      assert s == p + [x];
      assert Names(s) == Names(p) + [x.name];
      ByName(p)[x.name := x]
  }

  /** The AssertionError of gene_sets_by_name when two members share a name. */
  datatype NameError = DuplicateNames

  /** gene_sets_by_name: the members by name, provided no name is shared. */
  function GeneSetsByName(gs: GeneSets): (r: Result<map<string, GeneSet>, NameError>)
    ensures r.Success? <==> NoDuplicates(Names(gs.geneSets))
    ensures r.Success? ==> r.value.Keys == Elements(Names(gs.geneSets))
    ensures r.Success? ==> forall i :: 0 <= i < |gs.geneSets| ==>
      gs.geneSets[i].name in r.value && r.value[gs.geneSets[i].name] == gs.geneSets[i]
  {
    var byName := ByName(gs.geneSets);
    ByNameSize(gs.geneSets);
    if |gs.geneSets| == |byName| then
      ByNameDistinct(gs.geneSets);
      Success(byName)
    else Failure(DuplicateNames)
  }

  lemma ByNameSize(s: seq<GeneSet>)
    ensures |ByName(s)| <= |s|
    ensures |ByName(s)| == |s| <==> NoDuplicates(Names(s))
  {
    var names := Names(s);
    CardElements(names);
    assert |ByName(s)| == |ByName(s).Keys|;
  }

  lemma {:induction false} ByNameDistinct(s: seq<GeneSet>)
    requires NoDuplicates(Names(s))
    ensures forall i :: 0 <= i < |s| ==> s[i].name in ByName(s) && ByName(s)[s[i].name] == s[i]
    decreases |s|
  {
    if |s| > 0 {
      var p, x := s[..|s| - 1], s[|s| - 1];
      assert s == p + [x];
      assert Names(s) == Names(p) + [x.name];
      assert NoDuplicates(Names(p)) by {
        forall i, j | 0 <= i < j < |p| ensures Names(p)[i] != Names(p)[j] {
          assert Names(s)[i] != Names(s)[j];
        }
      }
      ByNameDistinct(p);
      assert ByName(s) == ByName(p)[x.name := x];
      forall i | 0 <= i < |s| ensures s[i].name in ByName(s) && ByName(s)[s[i].name] == s[i] {
        if i < |p| {
          assert s[i] == p[i];
          assert Names(s)[i] != Names(s)[|s| - 1];
        }
      }
    }
  }

  /** __len__ */
  function Len(gs: GeneSets): nat {
    |gs.geneSets|
  }

  /** __eq__: the same members as Python sets (by name and genes) and the same name. */
  predicate Equal(a: GeneSets, b: GeneSets) {
    Keys(a.geneSets) == Keys(b.geneSets) && a.name == b.name
  }
}
