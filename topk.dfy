/** The bounded, sorted top-K list that `addFile` maintains, stated on values. */
module TopK {
  import opened Ordering

  function Min(a: int, b: int): int { if a <= b then a else b }

  /** The first index at which `e` ranks strictly before the entry already
      there, or `|s|` when there is none: the index `sort.Search` looks for. */
  function InsertPos(p: Policy, s: seq<Entry>, e: Entry): (k: nat)
    ensures k <= |s|
    ensures forall j :: 0 <= j < k ==> Compare(p, e, s[j]) >= 0
    ensures k < |s| ==> Compare(p, e, s[k]) < 0
  {
    if s == [] then 0
    else if Compare(p, e, s[0]) < 0 then 0
    else 1 + InsertPos(p, s[1..], e)
  }

  /** In a sorted list, `e` ranks strictly before every entry from its insertion index on. */
  lemma InsertPosSplit(p: Policy, s: seq<Entry>, e: Entry)
    requires Sorted(p, s)
    ensures forall j :: InsertPos(p, s, e) <= j < |s| ==> Compare(p, e, s[j]) < 0
  {
    var k := InsertPos(p, s, e);
    forall j | k <= j < |s| ensures Compare(p, e, s[j]) < 0 {
      if j > k {
        CompareAntisym(p, s[j], s[k]);
        BeforeTrans(p, e, s[k], s[j]);
      }
    }
  }

  /** The insertion index is the only index that `e` ranks no earlier than
      everything in front of and strictly before the entry at. */
  lemma InsertPosUnique(p: Policy, s: seq<Entry>, e: Entry, i: nat)
    requires i <= |s|
    requires forall j :: 0 <= j < i ==> Compare(p, e, s[j]) >= 0
    requires i < |s| ==> Compare(p, e, s[i]) < 0
    ensures i == InsertPos(p, s, e)
  {
    var k := InsertPos(p, s, e);
  }

  /** On a prefix, the insertion index is the same one, cut at the prefix's end. */
  lemma InsertPosPrefix(p: Policy, s: seq<Entry>, e: Entry, m: nat)
    requires m <= |s|
    ensures InsertPos(p, s[..m], e) == Min(InsertPos(p, s, e), m)
  {
    var k, k' := InsertPos(p, s, e), InsertPos(p, s[..m], e);
    assert forall j :: 0 <= j < m ==> s[..m][j] == s[j];
    if k' < k { assert Compare(p, e, s[k']) >= 0; }
  }

  /** The list with `e` placed at its insertion index, before truncation (main.go:135-137). */
  function Place(p: Policy, s: seq<Entry>, e: Entry): seq<Entry> {
    var k := InsertPos(p, s, e);
    s[..k] + [e] + s[k..]
  }

  /** The first `count` entries of `s`, or all of them when there are fewer (main.go:139-141). */
  function Truncate(s: seq<Entry>, count: nat): (r: seq<Entry>)
    ensures |r| == Min(|s|, count)
    ensures r == s[..|r|]
  {
    if |s| > count then s[..count] else s
  }

  /** The list after one `addFile` call, capped at `count` entries (main.go:130-141). */
  function Insert(p: Policy, count: nat, s: seq<Entry>, e: Entry): (r: seq<Entry>)
    ensures |r| == Min(|s| + 1, count)
  {
    Truncate(Place(p, s, e), count)
  }

  /** The list after `addFile` (main.go:121-144) has been called on each of `es`, in order. */
  function AddAll(p: Policy, count: nat, s: seq<Entry>, es: seq<Entry>): seq<Entry>
    decreases |es|
  {
    if es == [] then s
    else Insert(p, count, AddAll(p, count, s, es[..|es| - 1]), es[|es| - 1])
  }

  /** The uncapped insertion sort of `es` that places each newcomer after its equals. */
  function StableSort(p: Policy, es: seq<Entry>): seq<Entry>
    decreases |es|
  {
    if es == [] then [] else Place(p, StableSort(p, es[..|es| - 1]), es[|es| - 1])
  }

  /** Total size of `es`: what `sumSize` accumulates (main.go:122). */
  function SumSizes(es: seq<Entry>): nat
    decreases |es|
  {
    if es == [] then 0 else SumSizes(es[..|es| - 1]) + es[|es| - 1].size
  }

  /** `sort.Search` over the list for the first entry that `e` ranks strictly
      before, halving `[lo, hi)` as Go's implementation does. */
  method SearchInsertPos(p: Policy, s: seq<Entry>, e: Entry) returns (i: nat)
    requires Sorted(p, s)
    ensures i == InsertPos(p, s, e)
  {
    var lo, hi := 0, |s|;
    while lo < hi
      invariant 0 <= lo <= hi <= |s|
      invariant forall j :: 0 <= j < lo ==> Compare(p, e, s[j]) >= 0
      invariant forall j :: hi <= j < |s| ==> Compare(p, e, s[j]) < 0
    {
      var h := (lo + hi) / 2;
      if !(Compare(p, e, s[h]) < 0) {
        forall j | 0 <= j < h + 1 ensures Compare(p, e, s[j]) >= 0 {
          if j < h {
            CompareAntisym(p, s[h], s[j]);
            CompareAntisym(p, e, s[h]);
            CompareTrans(p, s[j], s[h], e);
            CompareAntisym(p, s[j], e);
          }
        }
        lo := h + 1;
      } else {
        forall j | h <= j < |s| ensures Compare(p, e, s[j]) < 0 {
          if j > h {
            CompareAntisym(p, s[j], s[h]);
            BeforeTrans(p, e, s[h], s[j]);
          }
        }
        hi := h;
      }
    }
    i := lo;
    InsertPosUnique(p, s, e, i);
  }

  /** Go's insertion idiom: append the entry, shift the tail one place back
      by appending it after the first `i + 1` elements, then overwrite index
      `i`; the result is the entry placed at index `i`. */
  lemma ShiftInserts(s: seq<Entry>, e: Entry, i: nat)
    requires i <= |s|
    ensures var grown := s + [e];
      (grown[..i + 1] + grown[i..|s|])[i := e] == s[..i] + [e] + s[i..]
  {
    var grown := s + [e];
    var shifted := grown[..i + 1] + grown[i..|s|];
    var r, t := shifted[i := e], s[..i] + [e] + s[i..];
    assert |r| == |t|;
    forall j | 0 <= j < |r| ensures r[j] == t[j] {
      if j < i {
        assert r[j] == grown[j] == s[j];
      } else if j > i {
        assert r[j] == grown[j - 1] == s[j - 1];
      }
    }
  }

  /** Placing an entry keeps a sorted list sorted and adds exactly that entry. */
  lemma PlaceSorted(p: Policy, s: seq<Entry>, e: Entry)
    requires Sorted(p, s)
    ensures Sorted(p, Place(p, s, e))
    ensures multiset(Place(p, s, e)) == multiset(s) + multiset{e}
  {
    var k := InsertPos(p, s, e);
    var r := Place(p, s, e);
    InsertPosSplit(p, s, e);
    PlaceAt(p, s, e);
    forall i, j | 0 <= i < j < |r| ensures Compare(p, r[j], r[i]) >= 0 {
      if j < k {
        assert r[j] == s[j] && r[i] == s[i];
      } else if j == k {
        assert r[i] == s[i];
      } else if i == k {
        assert r[j] == s[j - 1];
        CompareAntisym(p, e, s[j - 1]);
      } else if i < k {
        assert r[j] == s[j - 1] && r[i] == s[i];
      } else {
        assert r[j] == s[j - 1] && r[i] == s[i - 1];
      }
    }
    PlaceMultiset(p, s, e);
  }

  /** Placing adds exactly the new entry. */
  lemma PlaceMultiset(p: Policy, s: seq<Entry>, e: Entry)
    ensures multiset(Place(p, s, e)) == multiset(s) + multiset{e}
  {
    var k := InsertPos(p, s, e);
    calc {
      multiset(Place(p, s, e));
      multiset(s[..k]) + multiset{e} + multiset(s[k..]);
      { assert s == s[..k] + s[k..]; }
      multiset(s) + multiset{e};
    }
  }

  /** The positions of a placed list. */
  lemma PlaceAt(p: Policy, s: seq<Entry>, e: Entry)
    ensures var r, k := Place(p, s, e), InsertPos(p, s, e);
      |r| == |s| + 1 && r[k] == e &&
      (forall j :: 0 <= j < k ==> r[j] == s[j]) &&
      (forall j :: k < j < |r| ==> r[j] == s[j - 1])
  {
  }

  /** A prefix of a sorted list is sorted. */
  lemma TruncateSorted(p: Policy, s: seq<Entry>, count: nat)
    requires Sorted(p, s)
    ensures Sorted(p, Truncate(s, count))
  {
  }

  /** `addFile` keeps the list sorted, capped at `count`, and made only of old
      entries and the new one. */
  lemma InsertSorted(p: Policy, count: nat, s: seq<Entry>, e: Entry)
    requires Sorted(p, s)
    ensures Sorted(p, Insert(p, count, s, e))
    ensures |Insert(p, count, s, e)| <= count
    ensures multiset(Insert(p, count, s, e)) <= multiset(s) + multiset{e}
  {
    PlaceSorted(p, s, e);
    var r := Place(p, s, e);
    var t := Insert(p, count, s, e);
    assert r == t + r[|t|..];
    assert multiset(r) == multiset(t) + multiset(r[|t|..]);
  }

  /** Where `addFile` puts things: the old entries that `e` does not rank
      before stay in front, `e` follows them (so it goes after every entry it
      ties with), and the old entries `e` ranks before are shifted one place
      back, the last one dropped when the list was full. */
  lemma InsertShape(p: Policy, count: nat, s: seq<Entry>, e: Entry)
    requires Sorted(p, s)
    ensures var r, k := Insert(p, count, s, e), InsertPos(p, s, e);
      (forall j :: 0 <= j < |r| && j < k ==> r[j] == s[j] && Compare(p, e, s[j]) >= 0) &&
      (k < count ==> r[k] == e) &&
      (forall j :: k < j < |r| ==> r[j] == s[j - 1] && Compare(p, e, r[j]) < 0)
  {
    InsertPosSplit(p, s, e);
    PlaceAt(p, s, e);
    var r, placed := Insert(p, count, s, e), Place(p, s, e);
    assert r == placed[..|r|];
  }

  /** An entry that ties with an old one is placed after it. */
  lemma TiesGoAfter(p: Policy, s: seq<Entry>, e: Entry, j: nat)
    requires Sorted(p, s)
    requires j < |s| && Compare(p, e, s[j]) == 0
    ensures j < InsertPos(p, s, e)
  {
    InsertPosSplit(p, s, e);
  }

  /** A full list is left unchanged by an entry that does not rank strictly
      before its last element. */
  lemma InsertFullUnchanged(p: Policy, count: nat, s: seq<Entry>, e: Entry)
    requires Sorted(p, s)
    requires |s| == count
    requires count > 0 ==> Compare(p, e, s[count - 1]) >= 0
    ensures Insert(p, count, s, e) == s
  {
    InsertPosSplit(p, s, e);
    assert InsertPos(p, s, e) == |s|;
  }

  /** With `count == 0` the list stays empty. */
  lemma InsertZero(p: Policy, s: seq<Entry>, e: Entry)
    ensures Insert(p, 0, s, e) == []
  {
  }

  /** The old entries that survive an `addFile` call keep their relative order
      and are the front of the old list. */
  lemma InsertKeepsOrder(p: Policy, count: nat, s: seq<Entry>, e: Entry)
    ensures var r, k := Insert(p, count, s, e), InsertPos(p, s, e);
      if k < count then r[k] == e && r[..k] + r[k + 1..] == s[..|r| - 1]
      else r == s[..|r|]
  {
    var r, k, placed := Insert(p, count, s, e), InsertPos(p, s, e), Place(p, s, e);
    PlaceAt(p, s, e);
    assert r == placed[..|r|];
    if k < count {
      var rest := r[..k] + r[k + 1..];
      forall j | 0 <= j < |rest| ensures rest[j] == s[j] {
        if j < k {
          assert rest[j] == placed[j];
        } else {
          assert rest[j] == placed[j + 1];
        }
      }
      assert rest == s[..|r| - 1];
    } else {
      assert forall j :: 0 <= j < |r| ==> r[j] == placed[j] == s[j];
      assert r == s[..|r|];
    }
  }

  /** Capping before or after an insertion gives the same capped list. */
  lemma InsertTruncate(p: Policy, count: nat, s: seq<Entry>, e: Entry)
    ensures Insert(p, count, Truncate(s, count), e) == Truncate(Place(p, s, e), count)
  {
    var t := Truncate(s, count);
    var k := InsertPos(p, s, e);
    InsertPosPrefix(p, s, e, |t|);
    var k' := InsertPos(p, t, e);
    PlaceAt(p, s, e);
    PlaceAt(p, t, e);
    var pt, ps := Place(p, t, e), Place(p, s, e);
    var r1, r2 := Truncate(pt, count), Truncate(ps, count);
    assert |r1| == |r2|;
    forall j | 0 <= j < |r1| ensures r1[j] == r2[j] {
      assert r1[j] == pt[j] && r2[j] == ps[j];
      if j < k' {
        assert pt[j] == t[j] == s[j];
      } else if j > k' {
        assert pt[j] == t[j - 1] == s[j - 1];
      }
    }
  }

  /** Appending to the input is continuing the fold. */
  lemma {:induction false} AddAllConcat(p: Policy, count: nat, s: seq<Entry>, a: seq<Entry>, b: seq<Entry>)
    ensures AddAll(p, count, s, a + b) == AddAll(p, count, AddAll(p, count, s, a), b)
    decreases |b|
  {
    if b != [] {
      assert (a + b)[..|a + b| - 1] == a + b[..|b| - 1];
      AddAllConcat(p, count, s, a, b[..|b| - 1]);
    } else {
      assert a + b == a;
    }
  }

  lemma {:induction false} SumSizesConcat(a: seq<Entry>, b: seq<Entry>)
    ensures SumSizes(a + b) == SumSizes(a) + SumSizes(b)
    decreases |b|
  {
    if b != [] {
      assert (a + b)[..|a + b| - 1] == a + b[..|b| - 1];
      SumSizesConcat(a, b[..|b| - 1]);
    } else {
      assert a + b == a;
    }
  }

  /** From any sorted list within the cap, `AddAll` keeps the list sorted and capped. */
  lemma {:induction false} AddAllSorted(p: Policy, count: nat, s: seq<Entry>, es: seq<Entry>)
    requires Sorted(p, s) && |s| <= count
    ensures Sorted(p, AddAll(p, count, s, es)) && |AddAll(p, count, s, es)| <= count
    decreases |es|
  {
    if es != [] {
      AddAllSorted(p, count, s, es[..|es| - 1]);
      InsertSorted(p, count, AddAll(p, count, s, es[..|es| - 1]), es[|es| - 1]);
    }
  }

  /** The reference ordering: the stable insertion sort is sorted and a permutation of its input. */
  lemma {:induction false} StableSortSorted(p: Policy, es: seq<Entry>)
    ensures Sorted(p, StableSort(p, es))
    ensures multiset(StableSort(p, es)) == multiset(es)
    decreases |es|
  {
    if es != [] {
      var init := es[..|es| - 1];
      StableSortSorted(p, init);
      PlaceSorted(p, StableSort(p, init), es[|es| - 1]);
      assert es == init + [es[|es| - 1]];
    }
  }

  /** The list `addFile` builds from an empty start is the front of the stable
      sort of everything it was given. */
  lemma {:induction false} TopKIsSortPrefix(p: Policy, count: nat, es: seq<Entry>)
    ensures AddAll(p, count, [], es) == Truncate(StableSort(p, es), count)
    decreases |es|
  {
    if es != [] {
      var init, last := es[..|es| - 1], es[|es| - 1];
      TopKIsSortPrefix(p, count, init);
      InsertTruncate(p, count, StableSort(p, init), last);
    }
  }

  /** The entries of `s` that tie with `x`, in the order they occur in `s`. */
  function TiesOf(p: Policy, x: Entry, s: seq<Entry>): seq<Entry>
    decreases |s|
  {
    if s == [] then []
    else
      var last := s[|s| - 1];
      TiesOf(p, x, s[..|s| - 1]) + (if Compare(p, last, x) == 0 then [last] else [])
  }

  /** The ties of `x` are exactly the entries of `s` that tie with `x`. */
  lemma {:induction false} TiesOfMembers(p: Policy, x: Entry, s: seq<Entry>)
    ensures forall y :: y in TiesOf(p, x, s) <==> y in s && Compare(p, y, x) == 0
    decreases |s|
  {
    if s != [] {
      TiesOfMembers(p, x, s[..|s| - 1]);
      assert s == s[..|s| - 1] + [s[|s| - 1]];
    }
  }

  lemma {:induction false} TiesOfConcat(p: Policy, x: Entry, a: seq<Entry>, b: seq<Entry>)
    ensures TiesOf(p, x, a + b) == TiesOf(p, x, a) + TiesOf(p, x, b)
    decreases |b|
  {
    if b != [] {
      assert (a + b)[..|a + b| - 1] == a + b[..|b| - 1];
      TiesOfConcat(p, x, a, b[..|b| - 1]);
    } else {
      assert a + b == a;
    }
  }

  /** The reference sort is stable: the entries that tie with any `x` come
      out of it in the order they went in. */
  lemma {:induction false} StableSortStable(p: Policy, x: Entry, es: seq<Entry>)
    ensures TiesOf(p, x, StableSort(p, es)) == TiesOf(p, x, es)
    decreases |es|
  {
    if es != [] {
      var init, e := es[..|es| - 1], es[|es| - 1];
      StableSortStable(p, x, init);
      StableSortSorted(p, init);
      PlaceTies(p, x, StableSort(p, init), e);
    }
  }

  /** Placing `e` in a sorted list puts it after every entry it ties with,
      so among the ties of any `x` it comes last, if it is one of them. */
  lemma PlaceTies(p: Policy, x: Entry, s: seq<Entry>, e: Entry)
    requires Sorted(p, s)
    ensures TiesOf(p, x, Place(p, s, e)) ==
      TiesOf(p, x, s) + (if Compare(p, e, x) == 0 then [e] else [])
  {
    var k := InsertPos(p, s, e);
    if Compare(p, e, x) == 0 {
      PlaceBeforeTies(p, x, s, e);
    }
    InsertedTies(p, x, s, e, k);
  }

  /** Putting `e` at index `k` of `s`, where no tie of `x` follows when `e` is
      one, adds `e` at the end of the ties of `x` exactly when it is one. */
  lemma InsertedTies(p: Policy, x: Entry, s: seq<Entry>, e: Entry, k: nat)
    requires k <= |s|
    requires Compare(p, e, x) == 0 ==> TiesOf(p, x, s[k..]) == []
    ensures TiesOf(p, x, s[..k] + [e] + s[k..]) ==
      TiesOf(p, x, s) + (if Compare(p, e, x) == 0 then [e] else [])
  {
    assert s == s[..k] + s[k..];
    TiesOfConcat(p, x, s[..k], s[k..]);
    SplitTies(p, x, s[..k], e, s[k..]);
  }

  /** The ties of a list with `e` between two parts are those of the parts,
      with `e` between them when it is one. */
  lemma SplitTies(p: Policy, x: Entry, front: seq<Entry>, e: Entry, back: seq<Entry>)
    ensures TiesOf(p, x, front + [e] + back) ==
      TiesOf(p, x, front) + (if Compare(p, e, x) == 0 then [e] else []) + TiesOf(p, x, back)
  {
    TiesOfConcat(p, x, front + [e], back);
    LastTie(p, x, front, e);
  }

  /** One more entry at the end adds it to the ties exactly when it is one. */
  lemma LastTie(p: Policy, x: Entry, s: seq<Entry>, e: Entry)
    ensures TiesOf(p, x, s + [e]) ==
      TiesOf(p, x, s) + (if Compare(p, e, x) == 0 then [e] else [])
  {
    assert (s + [e])[..|s|] == s;
  }

  /** In a sorted list, nothing from the insertion index of an entry that
      ties with `x` on ties with `x`. */
  lemma PlaceBeforeTies(p: Policy, x: Entry, s: seq<Entry>, e: Entry)
    requires Sorted(p, s) && Compare(p, e, x) == 0
    ensures TiesOf(p, x, s[InsertPos(p, s, e)..]) == []
  {
    var k := InsertPos(p, s, e);
    var back := s[k..];
    InsertPosSplit(p, s, e);
    forall j | 0 <= j < |back| ensures Compare(p, back[j], x) != 0 {
      assert back[j] == s[k + j];
      TieNotAfter(p, x, e, back[j]);
    }
    NoTies(p, x, back);
  }

  /** An entry that `e` ranks strictly before does not tie with what `e` ties with. */
  lemma TieNotAfter(p: Policy, x: Entry, e: Entry, y: Entry)
    requires Compare(p, e, x) == 0 && Compare(p, e, y) < 0
    ensures Compare(p, y, x) != 0
  {
    if Compare(p, y, x) == 0 {
      CompareAntisym(p, e, x);
      CompareTrans(p, y, x, e);
      CompareAntisym(p, y, e);
    }
  }

  /** A list with no entry that ties with `x` has no ties of `x`. */
  lemma NoTies(p: Policy, x: Entry, s: seq<Entry>)
    requires forall j :: 0 <= j < |s| ==> Compare(p, s[j], x) != 0
    ensures TiesOf(p, x, s) == []
  {
    TiesOfMembers(p, x, s);
  }

  /** Among entries that tie, the ones the top-K list keeps are the earliest
      to arrive, in arrival order. */
  lemma TopKStable(p: Policy, count: nat, x: Entry, es: seq<Entry>)
    ensures var t, r := TiesOf(p, x, es), TiesOf(p, x, AddAll(p, count, [], es));
      |r| <= |t| && r == t[..|r|]
  {
    var S := StableSort(p, es);
    var n := |Truncate(S, count)|;
    TopKIsSortPrefix(p, count, es);
    StableSortStable(p, x, es);
    assert S == S[..n] + S[n..];
    TiesOfConcat(p, x, S[..n], S[n..]);
  }

  /** In a sorted list, nothing past the first `n` ranks strictly before anything among them. */
  lemma SortedFrontBest(p: Policy, S: seq<Entry>, n: nat)
    requires Sorted(p, S) && n <= |S|
    ensures forall x, y :: x in S[..n] && y in multiset(S[n..]) ==> Compare(p, y, x) >= 0
  {
    forall x, y | x in S[..n] && y in multiset(S[n..]) ensures Compare(p, y, x) >= 0 {
      var i :| 0 <= i < n && S[..n][i] == x;
      var j :| 0 <= j < |S| - n && S[n..][j] == y;
      assert S[i] == x && S[n + j] == y;
    }
  }

  /** A list is its front and its back. */
  lemma FrontSplit(S: seq<Entry>, n: nat)
    requires n <= |S|
    ensures multiset(S) == multiset(S[..n]) + multiset(S[n..])
    ensures multiset(S) - multiset(S[..n]) == multiset(S[n..])
  {
    assert S == S[..n] + S[n..];
  }

  /** The top-K property: from an empty start, the list holds `min(|es|, count)`
      of the entries given, sorted, and no entry left out ranks strictly before
      one that was kept. */
  lemma TopKBest(p: Policy, count: nat, es: seq<Entry>)
    ensures var r := AddAll(p, count, [], es);
      |r| == Min(|es|, count) && Sorted(p, r) && multiset(r) <= multiset(es) &&
      forall x, y :: x in r && y in multiset(es) - multiset(r) ==> Compare(p, y, x) >= 0
  {
    var r, S := AddAll(p, count, [], es), StableSort(p, es);
    TopKIsSortPrefix(p, count, es);
    StableSortSorted(p, es);
    assert |S| == |es| by { assert |multiset(S)| == |multiset(es)|; }
    FrontSplit(S, |r|);
    SortedFrontBest(p, S, |r|);
  }

  /** Files of sizes 5, 1, 9, 3, 9, 2 ranked by size with room for three:
      the two nines in the order they came, then the five; six files and 29
      bytes counted. */
  lemma ExampleSizes(a: Entry, b: Entry, c: Entry, d: Entry, e: Entry, f: Entry)
    requires a.size == 5 && b.size == 1 && c.size == 9
    requires d.size == 3 && e.size == 9 && f.size == 2
    ensures var es := [a, b, c, d, e, f];
      AddAll(Policy(Values.SizeValue, false), 3, [], es) == [c, e, a] &&
      |es| == 6 && SumSizes(es) == 29
  {
    var p := Policy(Values.SizeValue, false);
    ExampleFront(a, b, c);
    ExampleBack(a, b, c, d, e, f);
    AddAllConcat(p, 3, [], [a, b, c], [d, e, f]);
    SumSizesConcat([a, b, c], [d, e, f]);
    assert [a, b, c] + [d, e, f] == [a, b, c, d, e, f];
    assert [a, b, c][..2] == [a, b] && [a, b][..1] == [a] && [a][..0] == [];
    assert [d, e, f][..2] == [d, e] && [d, e][..1] == [d] && [d][..0] == [];
    assert SumSizes([a]) == 5 && SumSizes([d]) == 3;
    assert SumSizes([a, b]) == 6 && SumSizes([d, e]) == 12;
    assert SumSizes([a, b, c]) == 15 && SumSizes([d, e, f]) == 14;
  }

  /** The first three files: 5, 1 and 9 become 9, 5, 1. */
  lemma ExampleFront(a: Entry, b: Entry, c: Entry)
    requires a.size == 5 && b.size == 1 && c.size == 9
    ensures AddAll(Policy(Values.SizeValue, false), 3, [], [a, b, c]) == [c, a, b]
  {
    var p := Policy(Values.SizeValue, false);
    ExampleFrontTwo(a, b);
    assert [a, b, c][..2] == [a, b];
    assert [a, b][..0] + [c] + [a, b][0..] == [c, a, b];
    FoldStep(p, 3, [], [a, b, c], [a, b], 0, [c, a, b]);
  }

  lemma ExampleFrontTwo(a: Entry, b: Entry)
    requires a.size == 5 && b.size == 1
    ensures AddAll(Policy(Values.SizeValue, false), 3, [], [a, b]) == [a, b]
  {
    var p := Policy(Values.SizeValue, false);
    assert [a][..0] == [];
    FoldStep(p, 3, [], [a], [], 0, [a]);
    assert [a, b][..1] == [a];
    assert [a][..1] + [b] + [a][1..] == [a, b];
    FoldStep(p, 3, [], [a, b], [a], 1, [a, b]);
  }

  /** The last three files, 3, 9 and 2, arriving at the full list 9, 5, 1. */
  lemma ExampleBack(a: Entry, b: Entry, c: Entry, d: Entry, e: Entry, f: Entry)
    requires a.size == 5 && b.size == 1 && c.size == 9
    requires d.size == 3 && e.size == 9 && f.size == 2
    ensures AddAll(Policy(Values.SizeValue, false), 3, [c, a, b], [d, e, f]) == [c, e, a]
  {
    var p := Policy(Values.SizeValue, false);
    assert [d][..0] == [];
    assert [c, a, b][..2] + [d] + [c, a, b][2..] == [c, a, d, b];
    FoldStep(p, 3, [c, a, b], [d], [c, a, b], 2, [c, a, d]);
    assert [d, e][..1] == [d];
    assert [c, a, d][..1] + [e] + [c, a, d][1..] == [c, e, a, d];
    FoldStep(p, 3, [c, a, b], [d, e], [c, a, d], 1, [c, e, a]);
    assert [d, e, f][..2] == [d, e];
    assert [c, e, a][..3] + [f] + [c, e, a][3..] == [c, e, a, f];
    FoldStep(p, 3, [c, a, b], [d, e, f], [c, e, a], 3, [c, e, a]);
  }

  /** One step of the fold over a concrete input, given the insertion index. */
  lemma FoldStep(p: Policy, count: nat, s: seq<Entry>, es: seq<Entry>, before: seq<Entry>, k: nat, after: seq<Entry>)
    requires es != [] && k <= |before|
    requires AddAll(p, count, s, es[..|es| - 1]) == before
    requires forall j :: 0 <= j < k ==> Compare(p, es[|es| - 1], before[j]) >= 0
    requires k < |before| ==> Compare(p, es[|es| - 1], before[k]) < 0
    requires after == Truncate(before[..k] + [es[|es| - 1]] + before[k..], count)
    ensures AddAll(p, count, s, es) == after
  {
    InsertPosUnique(p, before, es[|es| - 1], k);
  }
}
