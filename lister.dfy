/** The `lister` object of main.go: its configuration, the sorted top-K list
    it keeps and the totals it counts, and the walk that feeds it. */
module Lister {
  import opened Values
  import opened Ordering
  import opened TopK
  import opened FileTree

  class Lister {
    var files: seq<Entry>
    var count: int
    var ignoreHiddenFiles: bool
    var reverseOrder: bool
    var valueType: Value
    var numFiles: int
    var sumSize: int
    /** The comparator that `Init` installs: `compareFile(a, b)` is `Compare(compareFile, a, b)`. */
    var compareFile: Policy

    /** The list is capped at `count` (a negative `count` makes the truncation
        panic) and sorted under the installed comparator. */
    ghost predicate Valid()
      reads this
    {
      0 <= count && |files| <= count && Sorted(compareFile, files) &&
      compareFile == Policy(valueType, reverseOrder)
    }

    /** A configured lister with the comparator installed and nothing counted yet. */
    constructor (count: int, ignoreHiddenFiles: bool, reverseOrder: bool, valueType: Value)
      requires count >= 0
      ensures Valid()
      ensures this.count == count && this.ignoreHiddenFiles == ignoreHiddenFiles
      ensures this.reverseOrder == reverseOrder && this.valueType == valueType
      ensures files == [] && numFiles == 0 && sumSize == 0
    {
      this.count := count;
      this.ignoreHiddenFiles := ignoreHiddenFiles;
      this.reverseOrder := reverseOrder;
      this.valueType := valueType;
      files := [];
      numFiles := 0;
      sumSize := 0;
      new;
      Init();
      assert Sorted(compareFile, files);
    }

    /** Installs the comparator of the value type, wrapped in a negation when
        the order is reversed. */
    method Init()
      modifies this`compareFile
      ensures compareFile == Policy(valueType, reverseOrder)
    {
      match valueType {
        case SizeValue => compareFile := Policy(SizeValue, false);
        case DateValue => compareFile := Policy(DateValue, false);
        case NameValue => compareFile := Policy(NameValue, false);
      }
      if reverseOrder {
        compareFile := Policy(compareFile.v, true);
      }
    }

    /** Counts the file, then inserts it after every entry it does not rank
        strictly before, and cuts the list back to `count` entries. */
    method AddFile(e: Entry)
      requires Valid()
      modifies this`files, this`numFiles, this`sumSize
      ensures Valid()
      ensures files == Insert(compareFile, count, old(files), e)
      ensures numFiles == old(numFiles) + 1 && sumSize == old(sumSize) + e.size
    {
      sumSize := sumSize + e.size;
      numFiles := numFiles + 1;
      ghost var before := files;
      var n := |files|;
      var i := SearchInsertPos(compareFile, files, e);
      files := files + [e];
      files := files[..i + 1] + files[i..n];
      files := files[i := e];
      ShiftInserts(before, e, i);
      if |files| > count {
        files := files[..count];
      }
      InsertSorted(compareFile, count, before, e);
    }

    /** Walks a command-line root: a directory is walked, anything else is
        added directly, and a root whose metadata cannot be read adds nothing. */
    method Walk(path: string, n: Node)
      requires Valid()
      modifies this`files, this`numFiles, this`sumSize
      ensures Valid()
      ensures files == AddAll(compareFile, count, old(files), Walked(ignoreHiddenFiles, path, n))
      ensures numFiles == old(numFiles) + |Walked(ignoreHiddenFiles, path, n)|
      ensures sumSize == old(sumSize) + SumSizes(Walked(ignoreHiddenFiles, path, n))
    {
      match n {
        case Unreadable(_) =>
        case Dir(_, _) =>
          WalkDir(path, n);
        case File(name, size, mtime) =>
          AddFile(Entry(path, name, size, mtime));
          assert [Entry(path, name, size, mtime)][..0] == [];
      }
    }

    /** Walks the directory tree rooted at `path`, asking the callback about
        every object it meets. */
    method WalkDir(path: string, n: Node)
      requires Valid()
      modifies this`files, this`numFiles, this`sumSize
      ensures Valid()
      ensures files == AddAll(compareFile, count, old(files), Visit(ignoreHiddenFiles, path, n))
      ensures numFiles == old(numFiles) + |Visit(ignoreHiddenFiles, path, n)|
      ensures sumSize == old(sumSize) + SumSizes(Visit(ignoreHiddenFiles, path, n))
    {
      WalkTree(path, n);
    }

    /** One object of the walk: the callback's verdict, then the file added
        or the directory's children walked in order. */
    method WalkTree(path: string, n: Node)
      requires Valid()
      modifies this`files, this`numFiles, this`sumSize
      ensures Valid()
      ensures files == AddAll(compareFile, count, old(files), Visit(ignoreHiddenFiles, path, n))
      ensures numFiles == old(numFiles) + |Visit(ignoreHiddenFiles, path, n)|
      ensures sumSize == old(sumSize) + SumSizes(Visit(ignoreHiddenFiles, path, n))
      decreases n
    {
      var verdict := Decide(ignoreHiddenFiles, n);
      if verdict == Accept {
        match n {
          case File(name, size, mtime) =>
            AddFile(Entry(path, name, size, mtime));
            assert [Entry(path, name, size, mtime)][..0] == [];
          case Dir(_, cs) =>
            WalkChildren(path, cs);
          case Unreadable(_) =>
        }
      }
    }

    /** The state after the entries `es` have been handed to `addFile`,
        starting from the list `start` and the totals `numStart` and `sumStart`. */
    ghost predicate Fed(start: seq<Entry>, numStart: int, sumStart: int, es: seq<Entry>)
      reads this
      requires 0 <= count
    {
      files == AddAll(compareFile, count, start, es) &&
      numFiles == numStart + |es| && sumSize == sumStart + SumSizes(es)
    }

    /** The children of the directory at `path`, walked one after another. */
    method WalkChildren(path: string, cs: seq<Node>)
      requires Valid()
      modifies this`files, this`numFiles, this`sumSize
      ensures Valid()
      ensures files == AddAll(compareFile, count, old(files), VisitChildren(ignoreHiddenFiles, path, cs))
      ensures numFiles == old(numFiles) + |VisitChildren(ignoreHiddenFiles, path, cs)|
      ensures sumSize == old(sumSize) + SumSizes(VisitChildren(ignoreHiddenFiles, path, cs))
      decreases cs
    {
      ghost var start, numStart, sumStart := files, numFiles, sumSize;
      var i := 0;
      while i < |cs|
        invariant 0 <= i <= |cs|
        invariant Valid()
        invariant Fed(start, numStart, sumStart, VisitChildren(ignoreHiddenFiles, path, cs[..i]))
      {
        ghost var mid, numMid, sumMid := files, numFiles, sumSize;
        WalkTree(Join(path, cs[i].name), cs[i]);
        FeedChild(compareFile, count, ignoreHiddenFiles, path, cs, i,
                  start, mid, files, numStart, numMid, numFiles, sumStart, sumMid, sumSize);
        i := i + 1;
      }
      assert cs[..|cs|] == cs;
    }
  }
}
