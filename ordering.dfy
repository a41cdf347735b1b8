/** Files as the ranking sees them, and the comparators chosen at start-up. */
module Ordering {
  import opened Values

  /** One file admitted to the ranking: its walk path and the parts of its
      metadata the comparators read. Sizes are byte counts and modification
      times are instants in nanoseconds, both unbounded. */
  datatype Entry = Entry(path: string, name: string, size: nat, mtime: int)

  /** The comparator selected by the value type and wrapped by the reverse flag. */
  datatype Policy = Policy(v: Value, reverse: bool)

  /** Go's `strings.Compare` (main.go:168): -1, 0 or +1 as `a` sorts before, equal to or after `b`.
      Characters are compared by code point, which is the byte order of their
      UTF-8 encodings. */
  function StrCompare(a: string, b: string): (r: int)
    ensures -1 <= r <= 1
    ensures r == 0 <==> a == b
  {
    if a == [] then (if b == [] then 0 else -1)
    else if b == [] then 1
    else if a[0] < b[0] then -1
    else if a[0] > b[0] then 1
    else StrCompare(a[1..], b[1..])
  }

  /** Strict lexicographic order, stated directly: `a` is a proper prefix of
      `b`, or the two first differ at a position where `a` has the smaller character. */
  ghost predicate LexLess(a: string, b: string) {
    (|a| < |b| && a == b[..|a|]) ||
    exists k :: 0 <= k < |a| && k < |b| && a[..k] == b[..k] && a[k] < b[k]
  }

  lemma {:induction false} StrCompareLess(a: string, b: string)
    ensures StrCompare(a, b) < 0 <==> LexLess(a, b)
  {
    if a == [] || b == [] {
    } else if a[0] < b[0] {
      assert a[..0] == b[..0];
    } else if a[0] > b[0] {
      if LexLess(a, b) {
        var k :| 0 <= k < |a| && k < |b| && a[..k] == b[..k] && a[k] < b[k];
        assert k > 0 ==> a[..k][0] == b[..k][0];
      }
    } else {
      StrCompareLess(a[1..], b[1..]);
      LexLessTail(a, b);
    }
  }

  /** Strings with the same first character compare as their tails do. */
  lemma LexLessTail(a: string, b: string)
    requires a != [] && b != [] && a[0] == b[0]
    ensures LexLess(a, b) <==> LexLess(a[1..], b[1..])
  {
    if LexLess(a, b) {
      if |a| < |b| && a == b[..|a|] {
        assert a[1..] == b[1..][..|a[1..]|];
      } else {
        var k :| 0 <= k < |a| && k < |b| && a[..k] == b[..k] && a[k] < b[k];
        assert k > 0;
        assert a[1..][..k-1] == a[..k][1..] == b[..k][1..] == b[1..][..k-1];
      }
    }
    if LexLess(a[1..], b[1..]) {
      if |a[1..]| < |b[1..]| && a[1..] == b[1..][..|a[1..]|] {
        assert a == [a[0]] + a[1..] == b[..|a|];
      } else {
        var k :| 0 <= k < |a[1..]| && k < |b[1..]| && a[1..][..k] == b[1..][..k] && a[1..][k] < b[1..][k];
        assert a[..k+1] == [a[0]] + a[1..][..k] == b[..k+1];
        assert a[k+1] < b[k+1];
      }
    }
  }

  /** Swapping the arguments of `strings.Compare` negates it. */
  lemma {:induction false} StrCompareAntisym(a: string, b: string)
    ensures StrCompare(b, a) == -StrCompare(a, b)
  {
    if a != [] && b != [] && a[0] == b[0] {
      StrCompareAntisym(a[1..], b[1..]);
    }
  }

  /** "Sorts no later than" is transitive for `strings.Compare`. */
  lemma {:induction false} StrCompareTrans(a: string, b: string, c: string)
    requires StrCompare(a, b) <= 0 && StrCompare(b, c) <= 0
    ensures StrCompare(a, c) <= 0
  {
    if a != [] && b != [] && c != [] && a[0] == b[0] == c[0] {
      StrCompareTrans(a[1..], b[1..], c[1..]);
    }
  }

  /** The comparator closure the value type selects in `init` (main.go:147-175). */
  function BaseCompare(v: Value, a: Entry, b: Entry): int {
    match v
    case SizeValue => -(a.size - b.size)
    case DateValue => -(a.mtime - b.mtime)
    case NameValue => StrCompare(a.name, b.name)
  }

  /** `compareFile` as `init` leaves it, with the reverse wrapper of main.go:177-182:
      negative when `a` ranks before `b`, zero on a tie. */
  function Compare(p: Policy, a: Entry, b: Entry): int {
    if p.reverse then -BaseCompare(p.v, a, b) else BaseCompare(p.v, a, b)
  }

  /** What "ranks before" means for each value type, and that the reverse
      wrapper negates the selected comparator exactly. */
  lemma CompareMeaning(a: Entry, b: Entry)
    ensures Compare(Policy(SizeValue, false), a, b) < 0 <==> a.size > b.size
    ensures Compare(Policy(DateValue, false), a, b) < 0 <==> a.mtime > b.mtime
    ensures Compare(Policy(NameValue, false), a, b) < 0 <==> LexLess(a.name, b.name)
    ensures forall v: Value :: Compare(Policy(v, true), a, b) == -Compare(Policy(v, false), a, b)
  {
    StrCompareLess(a.name, b.name);
  }

  /** Every entry ties with itself, under every policy. */
  lemma CompareRefl(p: Policy, a: Entry)
    ensures Compare(p, a, a) == 0
  {
  }

  /** Swapping the arguments negates the comparator. */
  lemma CompareAntisym(p: Policy, a: Entry, b: Entry)
    ensures Compare(p, b, a) == -Compare(p, a, b)
  {
    StrCompareAntisym(a.name, b.name);
  }

  /** "Ranks no later than" is transitive: every policy is a total preorder. */
  lemma CompareTrans(p: Policy, a: Entry, b: Entry, c: Entry)
    requires Compare(p, a, b) <= 0 && Compare(p, b, c) <= 0
    ensures Compare(p, a, c) <= 0
  {
    if p.v == NameValue {
      if p.reverse {
        StrCompareAntisym(a.name, b.name);
        StrCompareAntisym(b.name, c.name);
        StrCompareAntisym(a.name, c.name);
        StrCompareTrans(c.name, b.name, a.name);
      } else {
        StrCompareTrans(a.name, b.name, c.name);
      }
    }
  }

  /** Ranking strictly before something that ranks no later than `c` is
      ranking strictly before `c`. */
  lemma BeforeTrans(p: Policy, a: Entry, b: Entry, c: Entry)
    requires Compare(p, a, b) < 0 && Compare(p, b, c) <= 0
    ensures Compare(p, a, c) < 0
  {
    if Compare(p, a, c) >= 0 {
      CompareAntisym(p, a, c);
      CompareTrans(p, b, c, a);
      CompareAntisym(p, a, b);
    }
  }

  /** No entry ranks strictly before an earlier one. */
  ghost predicate Sorted(p: Policy, s: seq<Entry>) {
    forall i, j :: 0 <= i < j < |s| ==> Compare(p, s[j], s[i]) >= 0
  }

  /** The same order stated on neighbours only. */
  ghost predicate AdjacentSorted(p: Policy, s: seq<Entry>) {
    forall i :: 0 <= i < |s| - 1 ==> Compare(p, s[i + 1], s[i]) >= 0
  }

  /** Checking neighbours suffices, because every policy is a total preorder. */
  lemma {:induction false} AdjacentSortedIff(p: Policy, s: seq<Entry>)
    ensures AdjacentSorted(p, s) <==> Sorted(p, s)
  {
    if AdjacentSorted(p, s) && |s| > 1 {
      AdjacentSortedIff(p, s[1..]);
      assert Sorted(p, s[1..]);
      forall i, j | 0 <= i < j < |s| ensures Compare(p, s[j], s[i]) >= 0 {
        if i > 0 {
          assert s[j] == s[1..][j - 1] && s[i] == s[1..][i - 1];
        } else if j > 1 {
          assert Compare(p, s[j], s[1]) >= 0 by {
            assert s[j] == s[1..][j - 1] && s[1] == s[1..][0];
          }
          CompareAntisym(p, s[j], s[1]);
          CompareAntisym(p, s[1], s[0]);
          CompareTrans(p, s[0], s[1], s[j]);
          CompareAntisym(p, s[0], s[j]);
        }
      }
    }
  }
}
