/** The filesystem as the walk sees it, and the entries the walk hands to `addFile`. */
module FileTree {
  import opened Ordering
  import opened TopK

  /** A filesystem object as `Lstat` and the directory listing report it.
      `Unreadable` is an object whose metadata cannot be read, or a directory
      whose listing fails. Children are in the order the walk visits them. */
  datatype Node =
    | File(name: string, size: nat, mtime: int)
    | Dir(name: string, children: seq<Node>)
    | Unreadable(name: string)

  /** What the walk callback tells the walk to do with one object. */
  datatype Verdict =
    | SkipSubtree  // the callback returns `SkipDir`
    | Ignore       // the callback returns nil without adding anything
    | Accept       // the callback adds a file, or lets the walk descend into a directory

  /** A dot-name. The empty name is taken as not hidden. */
  predicate IsHidden(name: string) {
    |name| > 0 && name[0] == '.'
  }

  /** The walk callback's decision: errors skip the subtree; with hidden
      files ignored, a hidden directory is skipped and a hidden file ignored;
      everything else is accepted. */
  function Decide(ignoreHidden: bool, n: Node): (v: Verdict)
    ensures n.Unreadable? ==> v == SkipSubtree
    ensures !n.Unreadable? ==>
      (v == SkipSubtree <==> ignoreHidden && IsHidden(n.name) && n.Dir?) &&
      (v == Ignore <==> ignoreHidden && IsHidden(n.name) && n.File?)
  {
    if n.Unreadable? then SkipSubtree
    else if ignoreHidden && IsHidden(n.name) then (if n.Dir? then SkipSubtree else Ignore)
    else Accept
  }

  /** The path `filepath.Walk` gives a directory's child when it calls the
      callback of main.go:101. */
  function Join(dir: string, name: string): string {
    if |dir| > 0 && dir[|dir| - 1] == '/' then dir + name else dir + "/" + name
  }

  /** The entries that walking `n` at `path` hands to `addFile`, in order:
      `filepath.Walk` driving the callback of main.go:101-118. */
  function Visit(ignoreHidden: bool, path: string, n: Node): seq<Entry>
    decreases n
  {
    match Decide(ignoreHidden, n)
    case SkipSubtree => []
    case Ignore => []
    case Accept =>
      match n
      case File(name, size, mtime) => [Entry(path, name, size, mtime)]
      case Dir(_, cs) => VisitChildren(ignoreHidden, path, cs)
      case Unreadable(_) => []
  }

  /** The entries of the children of the directory at `dir`, child after child,
      as `filepath.Walk` descends below an accepted directory (main.go:101-118). */
  function VisitChildren(ignoreHidden: bool, dir: string, cs: seq<Node>): seq<Entry>
    decreases cs
  {
    if cs == [] then []
    else
      var c := cs[|cs| - 1];
      VisitChildren(ignoreHidden, dir, cs[..|cs| - 1]) + Visit(ignoreHidden, Join(dir, c.name), c)
  }

  /** The entries that walking a command-line root hands to `addFile`: a
      directory is walked, anything else that `Lstat` can read is added as it
      is, and a root that cannot be read adds nothing (main.go:86-98). */
  function Walked(ignoreHidden: bool, path: string, n: Node): seq<Entry> {
    match n
    case Dir(_, _) => Visit(ignoreHidden, path, n)
    case File(name, size, mtime) => [Entry(path, name, size, mtime)]
    case Unreadable(_) => []
  }

  /** Every regular object of the tree, in walk order, with no filtering: the
      reference the walk's output is measured against. */
  function FilesOf(path: string, n: Node): seq<Entry>
    decreases n
  {
    match n
    case File(name, size, mtime) => [Entry(path, name, size, mtime)]
    case Dir(_, cs) => FilesOfChildren(path, cs)
    case Unreadable(_) => []
  }

  function FilesOfChildren(dir: string, cs: seq<Node>): seq<Entry>
    decreases cs
  {
    if cs == [] then []
    else
      var c := cs[|cs| - 1];
      FilesOfChildren(dir, cs[..|cs| - 1]) + FilesOf(Join(dir, c.name), c)
  }

  /** No part of the tree fails to read. */
  predicate Readable(n: Node)
    decreases n
  {
    match n
    case File(_, _, _) => true
    case Dir(_, cs) => forall i :: 0 <= i < |cs| ==> Readable(cs[i])
    case Unreadable(_) => false
  }

  /** The walk hands over only regular objects of the tree, never a directory,
      each at most as often as it occurs. */
  lemma {:induction false} VisitFromFiles(h: bool, path: string, n: Node)
    ensures multiset(Visit(h, path, n)) <= multiset(FilesOf(path, n))
    decreases n
  {
    if n.Dir? && Decide(h, n) == Accept {
      VisitChildrenFromFiles(h, path, n.children);
    }
  }

  lemma {:induction false} VisitChildrenFromFiles(h: bool, dir: string, cs: seq<Node>)
    ensures multiset(VisitChildren(h, dir, cs)) <= multiset(FilesOfChildren(dir, cs))
    decreases cs
  {
    if cs != [] {
      var c := cs[|cs| - 1];
      VisitChildrenFromFiles(h, dir, cs[..|cs| - 1]);
      VisitFromFiles(h, Join(dir, c.name), c);
    }
  }

  /** Without the hidden filter, a readable tree hands over every regular object, in order. */
  lemma {:induction false} VisitAllFiles(path: string, n: Node)
    requires Readable(n)
    ensures Visit(false, path, n) == FilesOf(path, n)
    decreases n
  {
    if n.Dir? {
      VisitChildrenAllFiles(path, n.children);
    }
  }

  lemma {:induction false} VisitChildrenAllFiles(dir: string, cs: seq<Node>)
    requires forall i :: 0 <= i < |cs| ==> Readable(cs[i])
    ensures VisitChildren(false, dir, cs) == FilesOfChildren(dir, cs)
    decreases cs
  {
    if cs != [] {
      var c := cs[|cs| - 1];
      VisitChildrenAllFiles(dir, cs[..|cs| - 1]);
      VisitAllFiles(Join(dir, c.name), c);
    }
  }

  /** With the hidden filter, no dot-name is handed over. */
  lemma {:induction false} VisitNoHidden(path: string, n: Node)
    ensures forall e :: e in Visit(true, path, n) ==> !IsHidden(e.name)
    decreases n
  {
    if n.Dir? && Decide(true, n) == Accept {
      VisitChildrenNoHidden(path, n.children);
    }
  }

  lemma {:induction false} VisitChildrenNoHidden(dir: string, cs: seq<Node>)
    ensures forall e :: e in VisitChildren(true, dir, cs) ==> !IsHidden(e.name)
    decreases cs
  {
    if cs != [] {
      var c := cs[|cs| - 1];
      VisitChildrenNoHidden(dir, cs[..|cs| - 1]);
      VisitNoHidden(Join(dir, c.name), c);
    }
  }

  /** No object of the tree, at any depth, has a dot-name. */
  predicate NoHiddenName(n: Node)
    decreases n
  {
    !IsHidden(n.name) &&
    match n
    case Dir(_, cs) => forall i :: 0 <= i < |cs| ==> NoHiddenName(cs[i])
    case _ => true
  }

  /** The hidden filter only removes dot-named objects and what lies beneath
      them: on a tree that has none, the filtered walk hands over exactly what
      the unfiltered walk does. */
  lemma {:induction false} FilterInert(path: string, n: Node)
    requires NoHiddenName(n)
    ensures Visit(true, path, n) == Visit(false, path, n)
    decreases n
  {
    if n.Dir? {
      FilterInertChildren(path, n.children);
    }
  }

  lemma {:induction false} FilterInertChildren(dir: string, cs: seq<Node>)
    requires forall i :: 0 <= i < |cs| ==> NoHiddenName(cs[i])
    ensures VisitChildren(true, dir, cs) == VisitChildren(false, dir, cs)
    decreases cs
  {
    if cs != [] {
      var c := cs[|cs| - 1];
      FilterInertChildren(dir, cs[..|cs| - 1]);
      FilterInert(Join(dir, c.name), c);
    }
  }

  /** With the hidden filter, a readable tree with no dot-names hands over
      every regular object, in order. */
  lemma FilteredAllFiles(path: string, n: Node)
    requires Readable(n) && NoHiddenName(n)
    ensures Visit(true, path, n) == FilesOf(path, n)
  {
    FilterInert(path, n);
    VisitAllFiles(path, n);
  }

  /** With the hidden filter, a hidden object hands over nothing, however
      much lies beneath it; an unreadable object never hands over anything. */
  lemma SkippedSubtrees(h: bool, path: string, n: Node)
    ensures h && IsHidden(n.name) ==> Visit(h, path, n) == []
    ensures n.Unreadable? ==> Visit(h, path, n) == [] && Walked(h, path, n) == []
  {
  }

  /** A root that is a single non-directory is added as it is, hidden or not. */
  lemma RootFile(h: bool, path: string, n: Node)
    requires n.File?
    ensures Walked(h, path, n) == [Entry(path, n.name, n.size, n.mtime)]
  {
  }

  /** The children's entries, split anywhere, are the entries of the two parts. */
  lemma {:induction false} VisitChildrenConcat(h: bool, dir: string, a: seq<Node>, b: seq<Node>)
    ensures VisitChildren(h, dir, a + b) == VisitChildren(h, dir, a) + VisitChildren(h, dir, b)
    decreases |b|
  {
    if b == [] {
      assert a + b == a;
    } else {
      var c, init := b[|b| - 1], b[..|b| - 1];
      assert (a + b)[..|a + b| - 1] == a + init;
      assert (a + b)[|a + b| - 1] == c;
      var tail := Visit(h, Join(dir, c.name), c);
      assert VisitChildren(h, dir, a + b) == VisitChildren(h, dir, a + init) + tail;
      VisitChildrenConcat(h, dir, a, init);
      assert VisitChildren(h, dir, b) == VisitChildren(h, dir, init) + tail;
    }
  }

  /** A hidden sibling, and everything beneath it, contributes nothing: the
      directory walks as if it were not there. */
  lemma HiddenChildSkipped(dir: string, a: seq<Node>, c: Node, b: seq<Node>)
    requires IsHidden(c.name)
    ensures VisitChildren(true, dir, a + [c] + b) == VisitChildren(true, dir, a + b)
  {
    var va, vb := VisitChildren(true, dir, a), VisitChildren(true, dir, b);
    VisitChildrenConcat(true, dir, a + [c], b);
    VisitChildrenConcat(true, dir, a, [c]);
    VisitChildrenConcat(true, dir, a, b);
    HiddenOnlyChild(dir, c);
    assert VisitChildren(true, dir, a + [c]) == va;
  }

  /** A hidden object alone in its directory contributes nothing. */
  lemma HiddenOnlyChild(dir: string, c: Node)
    requires IsHidden(c.name)
    ensures VisitChildren(true, dir, [c]) == []
  {
    assert [c][..0] == [];
    assert Visit(true, Join(dir, c.name), c) == [];
  }

  /** Walking one more child appends that child's entries. */
  lemma VisitChildrenStep(h: bool, dir: string, cs: seq<Node>, i: nat)
    requires i < |cs|
    ensures VisitChildren(h, dir, cs[..i + 1]) ==
      VisitChildren(h, dir, cs[..i]) + Visit(h, Join(dir, cs[i].name), cs[i])
  {
    assert cs[..i + 1][..i] == cs[..i];
  }

  /** Walking one more child continues the fold over the children's entries:
      the list and the totals after it are those of the longer prefix. */
  lemma FeedChild(p: Policy, count: nat, h: bool, dir: string, cs: seq<Node>, i: nat,
                  start: seq<Entry>, mid: seq<Entry>, after: seq<Entry>,
                  numStart: int, numMid: int, numAfter: int,
                  sumStart: int, sumMid: int, sumAfter: int)
    requires i < |cs|
    requires mid == AddAll(p, count, start, VisitChildren(h, dir, cs[..i]))
    requires numMid == numStart + |VisitChildren(h, dir, cs[..i])|
    requires sumMid == sumStart + SumSizes(VisitChildren(h, dir, cs[..i]))
    requires after == AddAll(p, count, mid, Visit(h, Join(dir, cs[i].name), cs[i]))
    requires numAfter == numMid + |Visit(h, Join(dir, cs[i].name), cs[i])|
    requires sumAfter == sumMid + SumSizes(Visit(h, Join(dir, cs[i].name), cs[i]))
    ensures after == AddAll(p, count, start, VisitChildren(h, dir, cs[..i + 1]))
    ensures numAfter == numStart + |VisitChildren(h, dir, cs[..i + 1])|
    ensures sumAfter == sumStart + SumSizes(VisitChildren(h, dir, cs[..i + 1]))
  {
    var done, next := VisitChildren(h, dir, cs[..i]), Visit(h, Join(dir, cs[i].name), cs[i]);
    VisitChildrenStep(h, dir, cs, i);
    AddAllConcat(p, count, start, done, next);
    SumSizesConcat(done, next);
  }
}
