# gsea-api gene sets, MSigDB libraries and expression sets in Dafny

This project models the data side of the `gsea_api` Python package.

- **GeneSet**: one named set of genes. Its constructor turns the gene list into a set, records repeated genes and warns about empty sets. `from_gmt_line` reads a set from one GMT line.
- **GeneSets**: a collection of gene sets. The constructor:
  - groups members by identical gene content (`group_identical`, `find_redundant`) and reports redundancy;
  - removes empty sets, which turns the members into a Python set;
  - optionally collapses each redundant group into one synthetic set.

  The derived collections are `trim`, `extract`, `subset`, `collapse_redundant` and `format_names`. The queries are `all_genes`, `gene_sets_by_name`, `__len__` and `__eq__`. The GMT writer is `_to_gmt` and the reader is `from_gmt`.
- **MolecularSignaturesDatabase**: a directory of MSigDB libraries named `<name>.v<version>.<id_type>.gmt`.
  - Opening it globs `*.v<version>.*.gmt` and runs `parse_name` on each file found.
  - It looks for a `msigdb_v<version>.xml` catalog in the directory, then in its parent.
  - `resolve` and `load` read one library and attach the catalog's metadata to it.
- **ExpressionSet**:
  - the check that there are as many class labels as columns;
  - the labels `from_cases_and_controls` is meant to build;
  - `contrast`, which keeps the columns labelled with two classes;
  - `safe_classes`;
  - the three `.cls` lines `to_cls` writes;
  - the header of `to_gct`.

Modules:

- `Wrappers`: Option/Result.
- `Text`: `str.strip`, `str.split`, `str.join`, `str.replace` and `str(int)` on `seq<char>`.
- `SeqFacts`: duplicate-free sequences.
- `Files`: a `pathlib`-style path and a file system given as a value.
- `GeneSetRecord`: GeneSet.
- `GeneSetCollection`: GeneSets.
- `GmtFormat`: writing and reading GMT files.
- `SignaturesDatabase`: MolecularSignaturesDatabase.
- `ExpressionData`: ExpressionSet.

## How Python semantics are represented

**Sets of gene sets.** `GeneSet.__eq__` and `__hash__` look only at the name and the genes (`Key`). So a Python `set` of gene sets is modelled by `Distinct`, which keeps the first member of each key, in input order. Python does not specify the iteration order of a set, so the order-free facts are stated with `Keys`.

**The constructor.** `any(redundant)` iterates the dictionary's keys, the gene-set contents, so it is true exactly when some redundant content is non-empty (`HasNonEmptyKey`). `collapse_redundant` is an `Option<string>` whose empty string is falsy, as in Python.
- `Make` and `MakeWarnings` specify the constructor.
- `NewGeneSets` performs it step by step: a grouping loop, the warning steps and the collapse loops.

**Floats.** `min_representation` and `representativeness` are exact fractions of naturals, so the comparison is `|overlap| * den >= num * |genes|`.

**Regular expressions.** `parse_name` is the first match of the lazy pattern at the start of the name:
- the name group cannot cross a newline;
- the version's `.` characters and the `.` before `gmt` match any character but a newline.

**Files.** The file system is a value (`FileSystem`). A missing root, a missing library, an unreadable or malformed file and a name missing from the catalog become `Result` failures; the `ensures` clauses of `Open` and `Load` state which failure each cause gives and that no other cause gives it.

**Warnings.** `warnings.warn` calls are returned as a list of `Warning` values, without their wording.

## Model

| member | source | states |
|---|---|---|
| Text.IsSpace | gsea_api/molecular_signatures_db.py:45 | the characters `str.isspace()` accepts, which `strip()` removes: ' ', '\t' to '\r', '\x1c' to '\x1f', and the Unicode spaces |
| Text.Strip | gsea_api/molecular_signatures_db.py:45 | `strip()`: what is left is no longer and starts and ends with a non-space; StripStart and StripEnd ensure that what each removes is all whitespace; StripTrailing states that trailing whitespace after such a string is exactly what is removed |
| Text.Split | gsea_api/molecular_signatures_db.py:45 | `split(sep)` for one character: at least one field and no field holds the separator; SplitJoin states that it undoes `Join` |
| Text.Join | gsea_api/molecular_signatures_db.py:216 | `sep.join(parts)` (also at lines 144 and 153-158, and in gsea_api/expression_set.py:66-67): SplitJoin states that splitting a join of separator-free parts gives the parts back, JoinEnds that a join of fields starts and ends with a non-space |
| Text.NatToString | gsea_api/expression_set.py:61 | `str(n)` for a count (also line 73): digits only, at least one, a leading '0' only for 0; ParseNatToString reads it back as n |
| GeneSetRecord.RepeatCounts | gsea_api/molecular_signatures_db.py:36-37 | `Counter(genes)` restricted to counts above one; New ensures `redundant_genes` is exactly this map when the list repeats a gene |
| GeneSetRecord.New | gsea_api/molecular_signatures_db.py:16-41 | the genes are exactly the listed genes; redundant_genes is None iff the list has no repeats, otherwise it maps exactly the repeated genes to their counts; the other fields are as given (metadata `or {}` is the caller's map) |
| GeneSetRecord.NewWarnings | gsea_api/molecular_signatures_db.py:31-39 | an empty-set warning iff warn_if_empty and no genes; a non-unique-genes warning with the counts iff the list repeats a gene; nothing else, and at most one warning (an empty list repeats nothing) |
| GeneSetRecord.FromGmtLine | gsea_api/molecular_signatures_db.py:43-46 | succeeds iff the stripped line has at least two tab-separated fields; then the name is field 0, the description is field 1 and the genes are the remaining fields; the redundant genes are None for distinct gene fields and their repeat counts otherwise; otherwise the unpacking error for that line |
| GeneSetRecord.KeyOf | gsea_api/molecular_signatures_db.py:56-64 | what `__eq__` and `__hash__` compare, the name and the genes; `Distinct` and `Keys` state equality of gene sets through it |
| GeneSetRecord.IsEmpty | gsea_api/molecular_signatures_db.py:48-50 | a set with no genes; NewWarnings warns on it and EmptiesFound, KeptFacts and EmptySetsRecorded state how the collection treats it |
| GeneSetRecord.GmtLine | gsea_api/molecular_signatures_db.py:216 | the line `_to_gmt` writes for a set whose genes are enumerated in the given order: name, tab, the tab-joined genes, newline; ReadWrittenLine and ReadWritten read it back |
| GeneSetRecord.ReadWrittenLine | gsea_api/molecular_signatures_db.py:43-46 | a line written for a name and distinct genes that are fields (no tab or line break, no whitespace at either end; inner spaces allowed) reads back iff at least one gene was written; the name survives, the first gene written becomes the description, the others the genes, and no gene is counted as repeated |
| GeneSetRecord.ReadWritten | gsea_api/molecular_signatures_db.py:214-216 | for any gene order `_to_gmt` may use, reading the line back fails iff the set is empty; otherwise the name is kept and the genes lose exactly the gene taken as description |
| SeqFacts.CardElements | gsea_api/molecular_signatures_db.py:36 | the set of a list has at most its length, and equal length iff the list repeats nothing (the test behind redundant_genes) |
| GeneSetCollection.Distinct | gsea_api/molecular_signatures_db.py:121 | set(gene_sets): the same keys (name, genes) as the input, each once, only input members, never longer |
| GeneSetCollection.GroupIdentical | gsea_api/molecular_signatures_db.py:172-176 | the dictionary loop yields exactly the grouping of the members by gene content, in first-appearance order |
| GeneSetCollection.Grouping | gsea_api/molecular_signatures_db.py:172-176 | one group per distinct gene content of the members, in first-appearance order, each with the names of its holders in member order |
| GeneSetCollection.Larger | gsea_api/molecular_signatures_db.py:178-183 | the groups with more than min_duplicates names, exactly, keeping distinct contents distinct |
| GeneSetCollection.FindRedundantExactly | gsea_api/molecular_signatures_db.py:178-183 | find_redundant holds exactly the contents held by more than min_duplicates members, each content once and with all its holders' names |
| GeneSetCollection.RedundantAreHeld | gsea_api/molecular_signatures_db.py:178-183 | every redundant group is a content some member holds, with the names of all its holders, more than min of them |
| GeneSetCollection.HeldAreRedundant | gsea_api/molecular_signatures_db.py:178-183 | every content held by more than min members appears among the redundant groups |
| GeneSetCollection.GroupingDistinct | gsea_api/molecular_signatures_db.py:172-176 | the groups of group_identical have pairwise distinct gene contents (dictionary keys) |
| GeneSetCollection.TwoHolders | gsea_api/molecular_signatures_db.py:172-176 | two members with the same genes give their content at least two names |
| GeneSetCollection.NewGeneSets | gsea_api/molecular_signatures_db.py:79-170 | the constructor performed step by step yields exactly the collection Make describes and the warnings MakeWarnings describes |
| GeneSetCollection.RemoveEmpty | gsea_api/molecular_signatures_db.py:118-130 | the empty-set step keeps the members Kept describes and emits the warning EmptyWarnings describes |
| GeneSetCollection.FindRedundant | gsea_api/molecular_signatures_db.py:178-183 | the groups of group_identical with more than min_duplicates names; FindRedundantExactly, RedundantAreHeld and HeldAreRedundant state what they hold |
| GeneSetCollection.HasNonEmptyKey | gsea_api/molecular_signatures_db.py:99 | `any(redundant)`: iterating the dictionary's keys, the gene-set contents, is true iff some redundant content is non-empty (also line 132); OnlyEmptyRedundancy states the consequence |
| GeneSetCollection.Collapsing | gsea_api/molecular_signatures_db.py:132 | the truthiness of `collapse_redundant`: a non-empty separator string; CollapseWarned, RedundancyWarned and MakeCollapses are stated with it |
| GeneSetCollection.TotalNames | gsea_api/molecular_signatures_db.py:94 | `len(sum(redundant.values(), []))`, the number of names over all groups; it is the count the redundancy and collapse warnings carry (RedundancyWarned, CollapseWarned) |
| GeneSetCollection.Outside | gsea_api/molecular_signatures_db.py:137-141 | the members whose gene content is not a redundant content; OutsideHeldOnce and OutsideComplete state which input sets they are |
| GeneSetCollection.Kept | gsea_api/molecular_signatures_db.py:118-123 | the members left after the empty-set step: `set(gene_sets) - empty_gene_sets` under remove_empty, the input otherwise; KeptFacts states what it keeps |
| GeneSetCollection.CollapsedName | gsea_api/molecular_signatures_db.py:153-157 | at most collapse_limit names joined by the separator, then "... n more" when names were left out; MakeCollapses states the resulting member |
| GeneSetCollection.CollapsedSet | gsea_api/molecular_signatures_db.py:150-161 | the collapsed set of one group: its genes, the collapsed name, all names joined as description; MakeCollapses and CollapseRestoresEmpty are about it |
| GeneSetCollection.CollapseGroups | gsea_api/molecular_signatures_db.py:150-161 | one collapsed set per redundant group, in group order, each the CollapsedSet of its group |
| GeneSetCollection.Make | gsea_api/molecular_signatures_db.py:79-170 | the collection the constructor builds; MakeRemovesEmpty, MakeKeepsInput, EmptySetsRecorded, MakeCollapses, OutsideHeldOnce, OutsideComplete, CollapseRestoresEmpty and OnlyEmptyRedundancy state its members |
| GeneSetCollection.MakeWarnings | gsea_api/molecular_signatures_db.py:96-167 | the constructor's warnings in order (redundancy, empty sets, limit, empty collapsed sets, collapse summary); RedundancyWarned, EmptyRemovalWarned, EmptyPresentWarned and CollapseWarned state when each appears |
| GeneSetCollection.WarnOverLimit | gsea_api/molecular_signatures_db.py:142-149 | one CollapseLimitExceeded per group of Larger(redundant, collapse_limit), in group order, each with that group's size, its first three names and the limit, and no other warning |
| GeneSetCollection.LimitWarningsExact | gsea_api/molecular_signatures_db.py:142-149 | the limit warnings are exactly one per group with more than collapse_limit names, in order, carrying its size, first three names and the limit |
| GeneSetCollection.CollapseEach | gsea_api/molecular_signatures_db.py:150-161 | the collapsed set of each redundant group in group order, and exactly one empty-set warning per empty collapsed set, in order, under that set's name |
| GeneSetCollection.EmptyCollapsedWarningsExact | gsea_api/molecular_signatures_db.py:150-161 | building the collapsed sets warns (GeneSet's warn_if_empty, line 31) exactly once per collapsed set that is empty, in order, with its name |
| GeneSetCollection.EmptiesFound | gsea_api/molecular_signatures_db.py:118-120 | empty_gene_sets is non-empty iff some input set is empty |
| GeneSetCollection.RedundancyWarned | gsea_api/molecular_signatures_db.py:97-116 | the redundancy warning is emitted iff redundancy is not allowed, some redundant content is non-empty and no collapse is asked for; any redundancy warning in the list is that one, at its head, so it appears at most once |
| GeneSetCollection.EmptyRemovalWarned | gsea_api/molecular_signatures_db.py:120-123 | the removal warning (with the count) is emitted iff remove_empty and some input set is empty |
| GeneSetCollection.EmptyPresentWarned | gsea_api/molecular_signatures_db.py:124-130 | without remove_empty, the report of empty sets is emitted iff some input set is empty, with their count and, when there are at most five, their names; no other such report appears |
| GeneSetCollection.CollapseWarned | gsea_api/molecular_signatures_db.py:132-167 | a collapse summary is emitted iff collapsing happens, and only then |
| GeneSetCollection.KeptFacts | gsea_api/molecular_signatures_db.py:118-127 | removing the empty sets drops no non-empty key, keeps only input members, empties none under remove_empty, gives no content more holders, and keeps the input without remove_empty |
| GeneSetCollection.MakeRemovesEmpty | gsea_api/molecular_signatures_db.py:79-170 | with remove_empty and no collapse: name, path and redundant as given; the members are exactly the non-empty input sets (up to key); empty_gene_sets holds exactly the empty ones |
| GeneSetCollection.MakeKeepsInput | gsea_api/molecular_signatures_db.py:79-170 | without remove_empty and without collapse the members are the input as given, and the empty ones are recorded |
| GeneSetCollection.EmptySetsRecorded | gsea_api/molecular_signatures_db.py:118-169 | empty_gene_sets holds exactly the empty input sets (up to key), whatever the options |
| GeneSetCollection.MakeCollapses | gsea_api/molecular_signatures_db.py:132-167 | when collapsing, each redundant group becomes a set with its genes, a name joining at most collapse_limit names plus a "... n more" suffix, and all names as description; then every input set held once is passed through (non-empty under remove_empty), and no two members share genes |
| GeneSetCollection.OutsideHeldOnce | gsea_api/molecular_signatures_db.py:137-141 | the non-redundant members kept are input sets whose contents have one holder |
| GeneSetCollection.OutsideComplete | gsea_api/molecular_signatures_db.py:137-141 | every input set held once (and non-empty under remove_empty) is among the non-redundant members |
| GeneSetCollection.CollapseRestoresEmpty | gsea_api/molecular_signatures_db.py:118-167 | redundancy is computed before empty sets are removed, so when collapsing happens two empty inputs come back as one empty collapsed member |
| GeneSetCollection.OnlyEmptyRedundancy | gsea_api/molecular_signatures_db.py:98-132 | when only empty sets are held twice, any(redundant) is false: nothing is collapsed and no redundancy or collapse warning appears |
| GeneSetCollection.CollapseRedundant | gsea_api/molecular_signatures_db.py:205-206 | the constructor rerun on the members with that separator; CollapseRedundantDistinct states the result |
| GeneSetCollection.CollapseRedundantDistinct | gsea_api/molecular_signatures_db.py:205-206 | collapse_redundant(sep) with a non-empty separator gives members with pairwise distinct genes, the default name and no path |
| GeneSetCollection.InSizeRange | gsea_api/molecular_signatures_db.py:202 | `min_genes <= len(genes) <= max_genes`, with no upper bound for the default infinity; TrimKeeps states that trim keeps exactly the members in range |
| GeneSetCollection.Trim | gsea_api/molecular_signatures_db.py:198-203 | a default-option collection of the members within the size range; TrimKeeps states which |
| GeneSetCollection.TrimKeeps | gsea_api/molecular_signatures_db.py:198-203 | trim keeps exactly the non-empty members within [min_genes, max_genes] (up to key), never more members |
| GeneSetCollection.Extract | gsea_api/molecular_signatures_db.py:225-231 | a default-option collection of the members with an asked-for name; ExtractKeeps states which |
| GeneSetCollection.ExtractKeeps | gsea_api/molecular_signatures_db.py:225-231 | extract keeps exactly the non-empty members whose name is asked for (up to key) |
| GeneSetCollection.Restrict | gsea_api/molecular_signatures_db.py:237-243 | the member rebuilt on its overlap with the universe, with representativeness \|overlap\|/\|genes\| and no description or metadata; Restricted and SubsetMembers state which members the subset holds |
| GeneSetCollection.Restricted | gsea_api/molecular_signatures_db.py:236-245 | exactly the members restricted to the universe whose representativeness reaches the floor |
| GeneSetCollection.Subset | gsea_api/molecular_signatures_db.py:233-245 | fails with the division by zero of an empty member iff the collection has one |
| GeneSetCollection.SubsetMembers | gsea_api/molecular_signatures_db.py:233-245 | each member of the subset is a member intersected with the universe, non-empty, its representativeness \|overlap\|/\|genes\| at least the floor; every member with a non-empty overlap that is represented enough is there |
| GeneSetCollection.SubsetWholeUniverse | gsea_api/molecular_signatures_db.py:233-245 | with a universe holding every gene and a floor at most one the subset has the same keys, and equals the collection iff its name is the default |
| GeneSetCollection.FormatNames | gsea_api/molecular_signatures_db.py:208-212 | a copy where each member is renamed by the formatter and nothing else changes |
| GeneSetCollection.AllGenes | gsea_api/molecular_signatures_db.py:247-255 | a gene is in all_genes iff some member holds it |
| GeneSetCollection.ByName | gsea_api/molecular_signatures_db.py:293-296 | the names map to members carrying them, and exactly the members' names are keys |
| GeneSetCollection.GeneSetsByName | gsea_api/molecular_signatures_db.py:290-298 | succeeds iff no two members share a name; then each name maps to its member |
| GeneSetCollection.ByNameSize | gsea_api/molecular_signatures_db.py:297 | the dictionary has at most as many entries as members, and as many iff no two members share a name (the assertion of gene_sets_by_name) |
| GeneSetCollection.ByNameDistinct | gsea_api/molecular_signatures_db.py:293-297 | when no two members share a name, each member is found under its own name |
| GeneSetCollection.Len | gsea_api/molecular_signatures_db.py:310-311 | the number of members; TrimKeeps, ExtractKeeps and Restricted bound it |
| GeneSetCollection.Equal | gsea_api/molecular_signatures_db.py:317-322 | the same members as Python sets (by key) and the same name; SubsetWholeUniverse states when a subset equals the collection |
| GmtFormat.GenesInSomeOrder | gsea_api/molecular_signatures_db.py:216 | iterating a frozenset lists each of its genes exactly once |
| GmtFormat.WriteGmt | gsea_api/molecular_signatures_db.py:214-216 | one line per member, in member order: name, tab, the tab-joined genes in some order, newline |
| GmtFormat.ParseAll | gsea_api/molecular_signatures_db.py:188-192 | reading every line succeeds iff each line parses, and gives the values line by line; otherwise the error of the first failing line |
| GmtFormat.FromGmt | gsea_api/molecular_signatures_db.py:185-196 | succeeds iff the path is a file all of whose lines parse; a missing path or a directory gives the read error; on success the path is kept and the name is the given one or the file name; a file with an unparsable line fails with that parse error |
| GmtFormat.FromGmtMalformed | gsea_api/molecular_signatures_db.py:185-196 | a file with an unparsable line fails as malformed with the error of the first line that does not parse |
| GmtFormat.FromGmtMembers | gsea_api/molecular_signatures_db.py:185-196 | with the default options the members are exactly the non-empty sets the lines describe (up to key) and the empty ones are in empty_gene_sets |
| GmtFormat.ReadWrittenGmt | gsea_api/molecular_signatures_db.py:214-216 | lines written for members whose name and genes are fields (no tab or line break, no whitespace at either end) read back iff no member is empty; each then returns with its name and with its genes minus the one read as description |
| GmtFormat.ReadBackAll | gsea_api/molecular_signatures_db.py:188-192 | when each line reads back as its own member would, the whole list parses iff no member is empty, line by line |
| GmtFormat.SingleGeneReadsEmpty | gsea_api/molecular_signatures_db.py:43-46 | a one-gene set is written as a line that reads back as an empty set described by that gene |
| SignaturesDatabase.LibraryFileName | gsea_api/molecular_signatures_db.py:367 | `<name>.v<version>.<id_type>.gmt`; ParseLibraryFileName states that parse_name inverts it, LibraryFileNameGlobs that the glob finds it |
| SignaturesDatabase.GlobMatches | gsea_api/molecular_signatures_db.py:338-341 | glob's match against `*.v<version>.*.gmt`: ".gmt" at the end, ".v<version>." before it (each `*` any text, possibly empty) and a name not starting with '.', which glob's `*` never matches; LibraryFileNameGlobs and ResolvedNameParses are about it |
| SignaturesDatabase.LibraryFileNameGlobs | gsea_api/molecular_signatures_db.py:338-341 | every library file name whose name is non-empty and does not start with '.' is matched by the glob |
| SignaturesDatabase.MatchTail | gsea_api/molecular_signatures_db.py:363 | the pattern after the name group, matched at the start of the rest: ".v", the version with its dots as any character, ".", entrez or symbols, any character but a newline, "gmt"; it captures only entrez or symbols, and WildcardTailMatches states that it accepts every such tail |
| SignaturesDatabase.ParseName | gsea_api/molecular_signatures_db.py:362-364 | a match captures an id_type that is entrez or symbols |
| SignaturesDatabase.FirstMatch | gsea_api/molecular_signatures_db.py:363 | the lazy name group: the shortest newline-free prefix after which the rest of the pattern matches, or none if no such prefix exists |
| SignaturesDatabase.ParseLibraryFileName | gsea_api/molecular_signatures_db.py:362-364 | parse_name inverts the library file name for a newline-free name without ".v" |
| SignaturesDatabase.ParseWildcardFileName | gsea_api/molecular_signatures_db.py:363 | every name that differs from a library file name only at the version's dots or at the dot before gmt (any character there but a newline) parses as that library |
| SignaturesDatabase.WildcardTailMatches | gsea_api/molecular_signatures_db.py:363 | the pattern's tail matches ".v", the version with any character at its dots, ".", the id_type, any character and "gmt", capturing the id_type |
| SignaturesDatabase.SearchFinds | gsea_api/molecular_signatures_db.py:363 | the lazy search stops at the first position after which the rest of the pattern matches |
| SignaturesDatabase.DotsAreWildcards | gsea_api/molecular_signatures_db.py:363 | two instances: "c2.v7x1.symbols.gmt" and "c2.v7.1.symbols_gmt" parse as c2 under version 7.1 |
| SignaturesDatabase.LibraryFiles | gsea_api/molecular_signatures_db.py:338-341 | the names glob returns: every entry directly inside the root, file or directory, that GlobMatches; Open and ParseFiles state one library per such name |
| SignaturesDatabase.CatalogPath | gsea_api/molecular_signatures_db.py:343-348 | `msigdb_v<version>.xml` in the root if it exists, else in the parent if it exists, else none; FindCatalog's loop is proved to compute it |
| SignaturesDatabase.Open | gsea_api/molecular_signatures_db.py:333-348 | fails with Missing exactly when the root does not exist, and otherwise only for a globbed name the pattern rejects; on success the version is kept, the libraries are parse_name of the globbed names (files and directories directly in the root) taken one by one in some order, each name once, and the catalog is the first of root and parent holding msigdb_v<version>.xml |
| SignaturesDatabase.ParseFiles | gsea_api/molecular_signatures_db.py:339-342 | parse_name on each globbed name: a name the pattern rejects is reported; otherwise the libraries are the parses of some enumeration of the names, each name once, so a library two names parse to appears twice |
| SignaturesDatabase.FindCatalog | gsea_api/molecular_signatures_db.py:343-348 | the catalog is msigdb_v<version>.xml in the root if that exists, else in the parent if that exists, else none |
| SignaturesDatabase.Resolve | gsea_api/molecular_signatures_db.py:366-371 | the library path iff it exists, otherwise the unknown-library error with that path |
| SignaturesDatabase.ResolvedNameParses | gsea_api/molecular_signatures_db.py:338-367 | a resolvable library path lies in the root, its file name matches the glob and parse_name gives back the library's name and id type |
| SignaturesDatabase.AddMetadata | gsea_api/molecular_signatures_db.py:350-360 | succeeds iff every member's name is in the catalog, with each member's metadata replaced by its entry and nothing else changed; otherwise the first missing name is reported |
| SignaturesDatabase.Load | gsea_api/molecular_signatures_db.py:373-381 | succeeds iff the library exists, reads, and (with a catalog) every name is catalogued; the result is from_gmt under the library's name, annotated when a catalog exists; NotResolved only for a missing library path (with resolve's error), NotRead only for an existing one that from_gmt fails on (with its error), NoMetadata only with a catalog, for the first member whose name it lacks |
| Files.PathOf | gsea_api/molecular_signatures_db.py:334 | `Path(s)`: rooted iff s starts with '/', split on '/' with empty and '.' components dropped |
| Files.Child | gsea_api/molecular_signatures_db.py:345 | `p / s`: a rooted s replaces p, otherwise its components are appended; ChildName states the one-component case |
| Files.Parent | gsea_api/molecular_signatures_db.py:344 | `p.parent`: the last component dropped, and the path itself when it has none; ChildName states that it undoes a one-component Child |
| Files.ChildName | gsea_api/molecular_signatures_db.py:344-345 | joining a one-component name that is not '.' appends it: its name is that component and its parent the original path |
| Files.Listing | gsea_api/molecular_signatures_db.py:338-341 | the names of the files and directories directly inside a directory, which is all glob sees; LibraryFiles filters it |
| Files.ReadLines | gsea_api/molecular_signatures_db.py:187-191 | open succeeds iff the path is a file, giving its lines; otherwise a directory or not-found error |
| ExpressionData.New | gsea_api/expression_set.py:14-18 | fails iff the label count differs from the column count; otherwise the data and labels are kept |
| ExpressionData.CaseControlLabels | gsea_api/expression_set.py:28-30 | the case name once per case column, then the control name once per control column |
| ExpressionData.CaseControlLabelsFit | gsea_api/expression_set.py:21-31 | the labels the method evidently intends (see Left out: the source raises first) are accepted by the constructor for as many columns as cases and controls |
| ExpressionData.Positions | gsea_api/expression_set.py:44 | the boolean mask as positions: increasing, exactly the positions whose label is one of the two |
| ExpressionData.LabelColumns | gsea_api/expression_set.py:46 | `df[labels]` selects by label: for each label in turn every column position carrying it, each position within the frame; LabelColumnsDistinct states that with distinct labels this is exactly the positions asked for |
| ExpressionData.Contrast | gsea_api/expression_set.py:36-48 | the assertion fails when either label is absent |
| ExpressionData.SelectColumns | gsea_api/expression_set.py:46 | `data[data.columns[mask]]`: the same index, the columns at the given positions in order, and in every row the cells at those positions |
| ExpressionData.ContrastKeeps | gsea_api/expression_set.py:36-48 | with distinct column labels the index is kept, the columns and labels are those at the mask's positions, every row's cells are its cells at those positions, and the labels left are exactly the two asked for |
| ExpressionData.ContrastLabels | gsea_api/expression_set.py:43-47 | the labels at the mask's positions are exactly the two asked for, when both occur |
| ExpressionData.LabelColumnsDistinct | gsea_api/expression_set.py:46 | with distinct column labels, selecting by the labels at some positions selects exactly those positions |
| ExpressionData.SafeClasses | gsea_api/expression_set.py:55-57 | one label per class, each with every space replaced by an underscore |
| ExpressionData.ClsLinesSplit | gsea_api/expression_set.py:59-67 | the space-joined safe labels, and the space-joined first appearances, split back into exactly those labels |
| ExpressionData.FirstAppearances | gsea_api/expression_set.py:62-65 | the distinct labels in order of first occurrence; FirstAppearancesDistinct and FirstAppearancesOrder state that, and ToCls's loop is proved to compute it |
| ExpressionData.FirstAppearancesDistinct | gsea_api/expression_set.py:62-65 | the first-appearance list holds each distinct label exactly once |
| ExpressionData.FirstAppearancesOrder | gsea_api/expression_set.py:62-65 | labels in the first-appearance list are in the order of their first occurrences |
| Text.ParseNatToString | gsea_api/expression_set.py:61 | the decimal `str` of a count reads back as that count |
| ExpressionData.ToCls | gsea_api/expression_set.py:59-67 | the three lines: sample and class counts with 1, "#" and the classes in first-appearance order, and the space-joined safe labels |
| ExpressionData.ClsHeaderAgrees | gsea_api/expression_set.py:61-66 | the second line names exactly as many classes as the first line counts, each once |
| ExpressionData.NoNulls | gsea_api/expression_set.py:72 | `notnull().all().all()`: every cell of every row holds a value; ToGctHeader states that the header is complete iff it holds |
| ExpressionData.ToGctHeader | gsea_api/expression_set.py:69-73 | "#1.2" then rows and columns separated by a tab, iff no cell is null; otherwise the assertion fails after the first line |

## Left out

- Warning text: each `warn` is a `Warning` value without its message, and the message's rendering (`repr`, joining of names) is not modelled.
- `GeneSet.__repr__`, `GeneSet.__hash__`, `GeneSets.__repr__`, `GeneSets.__hash__`, `GeneSets.to_frame`, `GeneSets.to_rpy2`, `ExpressionSet.hashable` and `lru_cache_mypy`: these are presentation, hashing, caching and foreign calls.
- `collapse_redundant=True`: the boolean is accepted by the source but its `str.join` would raise; only `False` and strings are modelled.
- Set iteration order: wherever the source builds a Python set (`set(gene_sets)`, the set comprehensions of `from_gmt`, `trim`, `extract`, `subset`), the order of the members is the order of first appearance (`Distinct`). Properties are stated up to key where order matters.
- GmtFormat.FromGmt: the warnings of the `GeneSet` constructor for lines with repeated genes are not returned, and neither are those of the `GeneSets` constructor; only the collection is.
- GeneSetCollection.Trim, GeneSetCollection.Extract, GeneSetCollection.Subset, GeneSetCollection.CollapseRedundant and SignaturesDatabase.Load return only the collection: the warnings their `GeneSets(...)` call emits are the ones `MakeWarnings` gives for the same input and options, but they are not returned.
- GeneSetCollection.GroupIdentical: the `key` parameter of `group_identical` and `find_redundant` is fixed at its default `'name'`, the only value the source passes.
- GeneSetCollection.Make: `collapse_limit` is a `nat`; a negative limit, for which Python's `names[:collapse_limit]` counts from the end, is not modelled.
- GeneSetCollection.FormatNames: object identity and `deepcopy`'s sharing are not modelled. Two cases differ. With remove_empty=False an empty member is also an element of `empty_gene_sets`, so the source renames it there too, while the model keeps `empty_gene_sets` unchanged. One object listed twice among the members is renamed twice by the source (the formatter sees the renamed set the second time), while the model renames each entry once from its original.
- `to_gmt` with a path versus a stream is one writer (`WriteGmt`) returning the lines.
- GmtFormat.WriteGmt: the order in which a frozenset's genes are written is chosen non-deterministically, so the lines are stated through `WrittenAs` rather than as one fixed string.
- XML parsing: the catalog is a parameter (`map<string, Metadata>` by STANDARD_NAME) instead of the parsed `msigdb_v<version>.xml`.
- SignaturesDatabase.AddMetadata: the source assigns metadata in place member by member, so a KeyError leaves the earlier members already updated; the model returns a failure and no partial update. Members are values, so aliasing between a member and other objects is not modelled; on the load path every member is a fresh object from `from_gmt`.
- SignaturesDatabase.Open: glob's order and `Path.resolve()` are not modelled; the libraries are stated as a collection of the parsed groups. Glob's bracket and escape syntax is not modelled since the pattern has none. The glob returns directories as well as files, so a directory with a library-shaped name is a library whose load fails as unreadable.
- SignaturesDatabase.ParseName: regular-expression metacharacters in the version other than '.' are not modelled; the version is a string (the source's `str(version)` of a float is the caller's).
- Subset: `min_representation` is an exact fraction; floating-point rounding of `len(overlap) / len(genes)` is not modelled.
- ExpressionData.ContrastKeeps: stated only for distinct column labels; with repeated labels the model selects every column carrying a label, as pandas does, but no lemma describes that case.
- ExpressionData.CaseControlLabelsFit: the source's `from_cases_and_controls` raises before building anything. `assert cases.index == controls.index` asks for the truth value of an element-wise comparison, which pandas refuses for more than one row; and `concat(cases, controls)` passes the controls frame as `concat`'s `axis` argument, which pandas rejects in every case. The lemma describes the labels the method evidently intends; the `concat` and the index check are not modelled.
- ExpressionData.ToGctHeader: the body written by `to_txt` is left out; only the header lines and the null check are modelled.
- Frames hold `real` cells; numeric formatting is not modelled.
