# listfile: a verified model of the top-K file lister

`listfile` walks one or more filesystem roots and prints the K "best" files
ranked by size (largest first), modification time (newest first) or name
(ascending), optionally reversed and optionally skipping dot-files. It also
prints how many files it saw and how many bytes they hold in total. Those
totals cover every file, not just the K it kept. This project models the
`lister` of `main.go` in Dafny:

- `values.dfy`, module `Values`: the `Value` enumeration and `strToValue`.
- `ordering.dfy`, module `Ordering`: the file record (`Entry`), `strings.Compare`,
  and the comparators that `init` installs, including the reverse wrapper.
  It proves each comparator is a total preorder.
- `topk.dfy`, module `TopK`: what one `addFile` call does to the list,
  stated on values.
  - `InsertPos` is the index that `sort.Search` looks for.
  - `Place` puts the entry there; `Truncate` applies the cap.
  - `AddAll` is a sequence of calls.
  - `SearchInsertPos` is Go's binary search, proved to find `InsertPos`.
  - The lemmas prove the cap, sortedness, stable ties and the no-change case.
    They also prove the top-K theorem: the list is the front of the insertion
    sort `StableSort` of every file seen, which places each file after its
    equals; `StableSortStable` proves that entries that tie keep their
    arrival order in that sort, and `TopKStable` that the tying entries kept
    are the earliest ones to arrive.
- `filetree.dfy`, module `FileTree`: the filesystem as a tree of `File`,
  `Dir` and `Unreadable` nodes.
  - `Decide` is the walk callback's verdict.
  - `Visit` and `Walked` give, in order, the entries a walk hands to `addFile`.
  - The lemmas cover the hidden-file and error policy.
- `lister.dfy`, module `Lister`: the `lister` struct as a class, with the
  methods `Init`, `AddFile`, `Walk` and `WalkDir`.
  - `WalkDir` runs `WalkTree` and `WalkChildren`, which do what
    `filepath.Walk` does when it drives the callback.
  - Each method's postcondition ties the new list and totals to the
    `TopK` and `FileTree` functions.

Three behaviours of `main.go` that are easy to miss:

- A root given on the command line that is not a directory is added
  directly, without the hidden-name check (`main.go:92-97`).
- A root directory whose own name starts with `.` is skipped entirely when
  hidden files are ignored, because `filepath.Walk` calls the callback on the
  root itself.
- A negative count is not treated as "always empty": the slice expression at
  `main.go:140` panics, so the class invariant `Valid` requires `count >= 0`.

## Model

| member | source | states |
|---|---|---|
| `Values.Value.Ordinal` | main.go:19-25 | each real constant's ordinal lies strictly between the sentinels `valueStart` and `valueLast` |
| `Values.FromOrdinal` | main.go:188 | the loop variable `v` ranging over the ordinals between the sentinels names the constant with that ordinal |
| `Values.LowerString` | main.go:186-189 | the lower-cased identifier of each constant is its command-line word followed by "value", which is what the loop compares the suffixed input with |
| `Values.NoKeyword` | main.go:188-193 | if the suffixed input matches no lower-cased identifier, the input is none of the three words |
| `Values.StrToValue` | main.go:185-194 | returns `SizeValue`, `DateValue` or `NameValue` exactly when the input is "size", "date" or "name" (case-sensitive, both directions), never a sentinel, and otherwise the error "unknown value: " + input + "value" |
| `Ordering.StrCompare` | main.go:168 | `strings.Compare` returns -1, 0 or 1, and 0 exactly on equal strings |
| `Ordering.StrCompareLess` | main.go:167-170 | `strings.Compare` is negative exactly when the first name is lexicographically smaller, checked against a direct definition of lexicographic order |
| `Ordering.LexLessTail` | main.go:168 | strings with the same first character are in the same lexicographic order as their tails |
| `Ordering.StrCompareAntisym` | main.go:168 | swapping the arguments of `strings.Compare` negates it |
| `Ordering.StrCompareTrans` | main.go:168 | "sorts no later than" under `strings.Compare` is transitive |
| `Ordering.CompareMeaning` | main.go:147-182 | size ranks `a` first exactly when `a` is larger; date exactly when `a` is later; name exactly when `a`'s name is lexicographically smaller; the reverse wrapper returns exactly the negation of the chosen comparator |
| `Ordering.CompareRefl` | main.go:147-182 | every comparator, reversed or not, gives 0 on an entry compared with itself |
| `Ordering.CompareAntisym` | main.go:147-182 | swapping the arguments negates every comparator |
| `Ordering.CompareTrans` | main.go:147-182 | "ranks no later than" is transitive under every comparator, so each is a total preorder |
| `Ordering.BeforeTrans` | main.go:147-182 | ranking strictly before an entry that ranks no later than a third means ranking strictly before the third |
| `Ordering.AdjacentSortedIff` | main.go:130-137 | a list with no neighbour ranked strictly before its predecessor has no pair at all in that order, and conversely |
| `TopK.InsertPos` | main.go:131-133 | the first index whose entry the new file ranks strictly before (or the length): the new file ranks no earlier than everything in front of it |
| `TopK.InsertPosUnique` | main.go:131-133 | that first index is the only index with that property |
| `TopK.InsertPosSplit` | main.go:131-133 | on a sorted list the new file ranks strictly before every entry from that index on, so the search predicate is monotone |
| `TopK.InsertPosPrefix` | main.go:131-133 | on a prefix of the list the insertion index is the same, cut at the prefix's end |
| `TopK.SearchInsertPos` | main.go:130-133 | Go's `sort.Search` halving loop over a sorted list returns exactly that first index |
| `TopK.Truncate` | main.go:139-141 | cutting to `count` leaves `min(len, count)` entries, which are the front of the list |
| `TopK.Insert` | main.go:130-141 | after one call the list has `min(len + 1, count)` entries |
| `TopK.ShiftInserts` | main.go:135-137 | append, then shift the tail by appending it after the first `i + 1` elements, then assign index `i`: the result is the old list with the file placed at `i` |
| `TopK.PlaceAt` | main.go:135-137 | after placing, the entries before the index are unchanged, the file is at the index, and the entries after it are the old ones shifted by one |
| `TopK.PlaceMultiset` | main.go:135-137 | placing adds exactly the new file and loses nothing |
| `TopK.PlaceSorted` | main.go:130-137 | placing at the search index keeps a sorted list sorted |
| `TopK.TruncateSorted` | main.go:139-141 | cutting a sorted list leaves it sorted |
| `TopK.InsertSorted` | main.go:130-141 | `addFile` keeps the list sorted, at most `count` long, and made only of old entries and the new file |
| `TopK.InsertShape` | main.go:130-141 | old entries the file does not outrank stay in front unchanged; the file comes next; the entries it outranks follow, shifted back one place |
| `TopK.TiesGoAfter` | main.go:131-133 | a new file that ties with an old entry is placed after it |
| `TopK.InsertFullUnchanged` | main.go:135-141 | a full list is unchanged by a file that does not rank strictly before its last entry |
| `TopK.InsertZero` | main.go:139-141 | with `count == 0` the list is always empty |
| `TopK.InsertKeepsOrder` | main.go:135-141 | the old entries that survive keep their relative order and are the front of the old list |
| `TopK.InsertTruncate` | main.go:139-141 | capping before an insertion and capping after it give the same list |
| `TopK.AddAllConcat` | main.go:121-144 | feeding two batches of files one after the other is feeding their concatenation |
| `TopK.SumSizesConcat` | main.go:122 | the byte total of two batches is the sum of their totals |
| `TopK.AddAllSorted` | main.go:121-144 | any sequence of calls keeps the list sorted and capped |
| `TopK.StableSortSorted` | main.go:130-137 | the uncapped insertion sort that places each file after its equals is sorted and a permutation of its input |
| `TopK.TiesOfMembers` | main.go:131-133 | the ties of an entry `x` in a list are exactly the list's entries that compare equal to `x` |
| `TopK.PlaceBeforeTies` | main.go:131-133 | in a sorted list, nothing from a file's insertion index on ties with what that file ties with |
| `TopK.PlaceTies` | main.go:130-137 | placing a file in a sorted list appends it to the ties it belongs to and leaves every other tie group as it was |
| `TopK.StableSortStable` | main.go:130-137 | the insertion sort is stable: for every entry `x`, the files that tie with `x` come out in the order they arrived |
| `TopK.TopKIsSortPrefix` | main.go:121-144 | the capped list built from empty is exactly the first `count` entries of that stable sort of every file given |
| `TopK.SortedFrontBest` | main.go:121-144 | in a sorted list, nothing past the front ranks strictly before anything in it |
| `TopK.TopKBest` | main.go:121-144 | from empty, the list holds `min(files, count)` of the files given, sorted, and no file left out ranks strictly before a kept one |
| `TopK.TopKStable` | main.go:121-144 | from empty, the files the list keeps out of any group of ties are the earliest of that group to arrive, in arrival order |
| `TopK.ExampleSizes` | main.go:121-144 | sizes 5, 1, 9, 3, 9, 2 ranked by size with `count = 3` give the first 9, the second 9, then 5; six files and 29 bytes are counted |
| `TopK.FoldStep` | main.go:130-141 | one call on a given list, once the insertion index is known, gives the computed list |
| `FileTree.Decide` | main.go:101-118 | an error skips the subtree; with hidden files ignored, a dot-named directory is skipped and a dot-named file ignored; everything else is accepted |
| `FileTree.VisitFromFiles` | main.go:114-116 | the walk hands over only the tree's regular files, never a directory, each at most once per occurrence |
| `FileTree.VisitChildrenFromFiles` | main.go:114-116 | the same for the children of a directory |
| `FileTree.VisitAllFiles` | main.go:101-118 | without the hidden filter, a tree with no read errors hands over every regular file, in walk order |
| `FileTree.VisitChildrenAllFiles` | main.go:101-118 | the same for the children of a directory |
| `FileTree.VisitNoHidden` | main.go:107-112 | with the hidden filter, no dot-named file is handed over at any depth |
| `FileTree.VisitChildrenNoHidden` | main.go:107-112 | the same for the children of a directory |
| `FileTree.FilterInert` | main.go:107-117 | on a tree in which no object has a dot-name, the filtered walk hands over exactly what the unfiltered walk does, so the filter drops nothing else |
| `FileTree.FilterInertChildren` | main.go:107-117 | the same for the children of a directory |
| `FileTree.FilteredAllFiles` | main.go:101-118 | with hidden files ignored, a readable tree with no dot-names hands over every regular file, in walk order |
| `FileTree.SkippedSubtrees` | main.go:102-112 | with the filter, a dot-named object hands over nothing, however much lies beneath it; an unreadable object never hands over anything |
| `FileTree.RootFile` | main.go:92-97 | a root that is not a directory is handed over directly, hidden or not |
| `FileTree.VisitChildrenConcat` | main.go:101-118 | the children's entries split at any point are the entries of the two parts |
| `FileTree.VisitChildrenStep` | main.go:101-118 | walking one more child appends that child's entries |
| `FileTree.HiddenOnlyChild` | main.go:107-109 | a dot-named child alone in its directory contributes nothing |
| `FileTree.HiddenChildSkipped` | main.go:107-109 | with the filter, a dot-named child and everything beneath it contribute nothing: the directory walks as if it were not there |
| `FileTree.FeedChild` | main.go:101-118 | after one more child, the list and totals are those of the longer prefix of children |
| `Lister.Lister.constructor` | main.go:71-84 | a configured lister starts with an empty list, zero totals and the matching comparator installed |
| `Lister.Lister.Init` | main.go:146-183 | installs the comparator of the value type, negated when the order is reversed |
| `Lister.Lister.AddFile` | main.go:121-144 | adds exactly 1 to the file count and exactly the file's size to the byte total, kept or not; the new list is `Insert` of the old one; sorted and capped are preserved |
| `Lister.Lister.Walk` | main.go:86-98 | walking a root feeds `addFile` exactly the entries `Walked` lists, in order; totals grow by their count and size |
| `Lister.Lister.WalkDir` | main.go:100-119 | walking a directory root feeds `addFile` exactly the entries `Visit` lists, in order |
| `Lister.Lister.WalkTree` | main.go:101-118 | one object of the walk: the callback's verdict, then the file added or the children walked; effect as `Visit` |
| `Lister.Lister.WalkChildren` | main.go:101-118 | a directory's children walked in order; effect as `VisitChildren` |

## Left out

- `main` (`main.go:27-64`) is not modelled. This covers flag parsing, the
  default root ".", `filepath.Abs`, the loop over several roots, printing and
  the exit code. `Walk` models one iteration of that loop; the error that
  `walk` returns is discarded by `main`, so it is not modelled.
- The `printFile` closures and the number, byte and time formatting they use:
  presentation through foreign libraries.
- The real filesystem is replaced by the `Node` tree. `os.Lstat` becomes the
  node's shape, and symbolic links are not followed, so a link is a `File`.
  A child's path is its directory's path joined with its name; path cleaning
  is not modelled. The children are taken in the order the walk visits them:
  the sorting of directory listings inside `filepath.Walk` is not modelled.
- `Unreadable` stands for both an object whose metadata cannot be read and a
  directory whose listing fails. In both cases the callback skips the object
  and its subtree. The message printed to standard error is left out.
- The stringer-generated `Value.String()` is not part of this model. It is
  taken to return the constant's identifier ("SizeValue").
- `Values.ToLower` lower-cases ASCII letters only, because only the
  identifiers "SizeValue", "DateValue" and "NameValue" are lower-cased.
  Full Unicode case mapping of `strings.ToLower` is not modelled.
- `Ordering.StrCompare` compares names by Unicode code point. This equals
  byte order for valid UTF-8; names that are not valid UTF-8 are not modelled.
- Sizes, modification times and totals are unbounded integers. The model
  leaves out the `int64` to `int` conversion in the comparators, the
  saturation of `time.Duration` in `Sub`, and overflow of `sumSize`.
- An empty name is treated as not hidden. The Go code would panic indexing
  `info.Name()[0]`, but a real walk never yields an empty name.
- A negative `count` is excluded by `Lister.Lister.Valid`, because the
  truncation at `main.go:140` panics on it.
