/**
 * The JavaScript array built-ins the core relies on: `slice(0, n)` and
 * `Array.prototype.sort` with a comparator that only tells preferred elements
 * from the others, plus `Select`, which stands for a test inside a loop that
 * keeps some elements and for the sort's two groups. ECMA-262 (2023 edition, section 23.1.3.30)
 * requires that sort to be stable, so with a two-valued key it is a stable
 * partition: preferred elements first, each group in its original order.
 */
module JsArray {

  /** The elements `x` of `s` with `key(x) == keep`, in their original order. */
  function Select<T>(s: seq<T>, key: T -> bool, keep: bool): (r: seq<T>)
    ensures |r| <= |s|
    ensures forall i :: 0 <= i < |r| ==> key(r[i]) == keep
  {
    if s == [] then []
    else (if key(s[0]) == keep then [s[0]] else []) + Select(s[1..], key, keep)
  }

  /** Selecting from a concatenation selects from each part. */
  lemma {:induction false} SelectAppend<T>(a: seq<T>, b: seq<T>, key: T -> bool, keep: bool)
    ensures Select(a + b, key, keep) == Select(a, key, keep) + Select(b, key, keep)
  {
    if a == [] {
      assert a + b == b;
    } else {
      assert (a + b)[1..] == a[1..] + b;
      SelectAppend(a[1..], b, key, keep);
    }
  }

  /** A sequence whose every element has key `keep` is its own selection, and the other selection is empty. */
  lemma {:induction false} SelectUniform<T>(s: seq<T>, key: T -> bool, keep: bool)
    requires forall i :: 0 <= i < |s| ==> key(s[i]) == keep
    ensures Select(s, key, keep) == s
    ensures Select(s, key, !keep) == []
  {
    if s != [] {
      SelectUniform(s[1..], key, keep);
    }
  }

  /** The two selections together hold every element of `s` exactly as often as `s` does. */
  lemma {:induction false} SelectMultiset<T>(s: seq<T>, key: T -> bool)
    ensures multiset(Select(s, key, true)) + multiset(Select(s, key, false)) == multiset(s)
  {
    if s != [] {
      var h, t := [s[0]], s[1..];
      SelectMultiset(t, key);
      assert s == h + t;
      SelectAppend(h, t, key, true);
      SelectAppend(h, t, key, false);
      if key(s[0]) {
        assert Select(h, key, true) == h && Select(h, key, false) == [];
      } else {
        assert Select(h, key, true) == [] && Select(h, key, false) == h;
      }
    }
  }

  /** The comparator of the sort: negative when only `a` is preferred, positive when only `b` is, else 0. */
  function Compare<T>(key: T -> bool, a: T, b: T): (c: int)
    ensures c == 0 <==> key(a) == key(b)
    ensures c < 0 <==> key(a) && !key(b)
  {
    if key(a) == key(b) then 0 else if key(a) then -1 else 1
  }

  /** No element is placed after an element that the comparator orders after it. */
  ghost predicate SortedBy<T>(s: seq<T>, key: T -> bool) {
    forall i, j :: 0 <= i < j < |s| ==> Compare(key, s[i], s[j]) <= 0
  }

  /**
   * What a stable sort with `Compare` promises of its output `out` for input
   * `a`: a permutation of `a`, sorted by the comparator, with the elements the
   * comparator calls equal (the two groups) in their original relative order.
   */
  ghost predicate IsStableSortOf<T>(out: seq<T>, a: seq<T>, key: T -> bool) {
    && multiset(out) == multiset(a)
    && SortedBy(out, key)
    && Select(out, key, true) == Select(a, key, true)
    && Select(out, key, false) == Select(a, key, false)
  }

  /** `a.sort(Compare)`: the preferred elements in order, then the others in order. */
  function SortByPreference<T>(a: seq<T>, key: T -> bool): (r: seq<T>)
  {
    Select(a, key, true) + Select(a, key, false)
  }

  /** A sequence sorted by the comparator is its preferred part followed by its other part. */
  lemma {:induction false} SortedSplits<T>(s: seq<T>, key: T -> bool)
    requires SortedBy(s, key)
    ensures s == Select(s, key, true) + Select(s, key, false)
  {
    if s != [] {
      if key(s[0]) {
        assert SortedBy(s[1..], key) by {
          forall i, j | 0 <= i < j < |s[1..]| ensures Compare(key, s[1..][i], s[1..][j]) <= 0 {
            assert Compare(key, s[i + 1], s[j + 1]) <= 0;
          }
        }
        SortedSplits(s[1..], key);
      } else {
        forall i | 0 <= i < |s| ensures key(s[i]) == false {
          if i > 0 { assert Compare(key, s[0], s[i]) <= 0; }
        }
        SelectUniform(s, key, false);
      }
    }
  }

  /** The preferred part followed by the other part is sorted by the comparator. */
  lemma PartitionSorted<T>(a: seq<T>, key: T -> bool)
    ensures SortedBy(SortByPreference(a, key), key)
  {
    var p, q := Select(a, key, true), Select(a, key, false);
    var r := p + q;
    forall i, j | 0 <= i < j < |r| ensures Compare(key, r[i], r[j]) <= 0 {
      if i < |p| {
        assert r[i] == p[i];
      } else {
        assert r[j] == q[j - |p|];
      }
    }
  }

  /** SortByPreference meets everything a stable sort promises. */
  lemma SortByPreferenceIsStableSort<T>(a: seq<T>, key: T -> bool)
    ensures IsStableSortOf(SortByPreference(a, key), a, key)
  {
    var p, q := Select(a, key, true), Select(a, key, false);
    SelectMultiset(a, key);
    SelectUniform(p, key, true);
    SelectUniform(q, key, false);
    SelectAppend(p, q, key, true);
    SelectAppend(p, q, key, false);
    PartitionSorted(a, key);
  }

  /** Any output a stable sort may give is SortByPreference's: the stable sort is unique. */
  lemma StableSortUnique<T>(out: seq<T>, a: seq<T>, key: T -> bool)
    requires IsStableSortOf(out, a, key)
    ensures out == SortByPreference(a, key)
  {
    SortedSplits(out, key);
  }

  /** `s.slice(0, n)`: the first `n` elements, or all of them when there are fewer. */
  function Take<T>(s: seq<T>, n: nat): (r: seq<T>)
    ensures |r| <= n && |r| <= |s|
    ensures |s| <= n ==> r == s
    ensures |s| > n ==> |r| == n
    ensures forall i :: 0 <= i < |r| ==> r[i] == s[i]
  {
    if |s| <= n then s else s[..n]
  }

  /** A prefix of a sorted sequence is sorted. */
  lemma TakeSorted<T>(s: seq<T>, key: T -> bool, n: nat)
    requires SortedBy(s, key)
    ensures SortedBy(Take(s, n), key)
  {
    var r := Take(s, n);
    forall i, j | 0 <= i < j < |r| ensures Compare(key, r[i], r[j]) <= 0 {
      assert r[i] == s[i] && r[j] == s[j];
    }
  }

  /**
   * Sorting by preference and keeping the first `n`: at most `n` elements,
   * preferred ones first, only preferred ones when at least `n` of the input
   * are preferred, and otherwise all the preferred ones followed by the
   * earliest others.
   */
  lemma SortedPrefix<T>(a: seq<T>, key: T -> bool, n: nat)
    ensures var r := Take(SortByPreference(a, key), n);
      && |r| <= n
      && SortedBy(r, key)
      && (|Select(a, key, true)| >= n ==> r == Select(a, key, true)[..n])
      && (|Select(a, key, true)| < n ==>
            r == Select(a, key, true) + Take(Select(a, key, false), n - |Select(a, key, true)|))
  {
    var p, q := Select(a, key, true), Select(a, key, false);
    PartitionSorted(a, key);
    TakeSorted(p + q, key, n);
    if |p| >= n {
      TakeWithinFirst(p, q, n);
    } else {
      TakeBeyondFirst(p, q, n);
    }
  }

  /** The first `n` of `p + q` lie in `p` when `p` has at least `n` elements. */
  lemma TakeWithinFirst<T>(p: seq<T>, q: seq<T>, n: nat)
    requires |p| >= n
    ensures Take(p + q, n) == p[..n]
  {
    assert (p + q)[..n] == p[..n];
  }

  /** When `p` has fewer than `n` elements, the first `n` of `p + q` are `p` and then the first of `q`. */
  lemma TakeBeyondFirst<T>(p: seq<T>, q: seq<T>, n: nat)
    requires |p| < n
    ensures Take(p + q, n) == p + Take(q, n - |p|)
  {
    if |p + q| > n {
      assert (p + q)[..n] == p + q[..n - |p|];
    }
  }

  /** The sort keeps every element exactly as often as the input has it, so it keeps the length. */
  lemma SortKeepsElements<T>(a: seq<T>, key: T -> bool)
    ensures multiset(SortByPreference(a, key)) == multiset(a)
    ensures |SortByPreference(a, key)| == |a|
  {
    SelectMultiset(a, key);
    assert |multiset(SortByPreference(a, key))| == |multiset(a)|;
  }

  /**
   * Sorting by preference and keeping the first `n`: min(n, |a|) elements of
   * `a`, with no preferred element after one that is not.
   */
  lemma TopPreferred<T>(a: seq<T>, key: T -> bool, n: nat)
    ensures var r := Take(SortByPreference(a, key), n);
      && |r| == (if |a| < n then |a| else n)
      && (forall i, j :: 0 <= i < j < |r| && key(r[j]) ==> key(r[i]))
      && (forall k :: 0 <= k < |r| ==> r[k] in a)
  {
    var s := SortByPreference(a, key);
    var r := Take(s, n);
    SortKeepsElements(a, key);
    SortedPrefix(a, key, n);
    forall i, j | 0 <= i < j < |r| && key(r[j]) ensures key(r[i]) {
      assert Compare(key, r[i], r[j]) <= 0;
    }
    forall k | 0 <= k < |r| ensures r[k] in a {
      assert r[k] == s[k];
      assert s[k] in multiset(s);
    }
  }

  /** The worked example [B, A, C, D] with A and D preferred sorts to [A, D, B, C] and is kept whole. */
  lemma PartitionExample<T>(a: T, b: T, c: T, d: T, key: T -> bool)
    requires key(a) && key(d) && !key(b) && !key(c)
    ensures Take(SortByPreference([b, a, c, d], key), 4) == [a, d, b, c]
  {
    var s := [b, a, c, d];
    assert s == [b] + [a] + [c] + [d];
    SelectAppend([b] + [a] + [c], [d], key, true);
    SelectAppend([b] + [a], [c], key, true);
    SelectAppend([b], [a], key, true);
    SelectAppend([b] + [a] + [c], [d], key, false);
    SelectAppend([b] + [a], [c], key, false);
    SelectAppend([b], [a], key, false);
  }
}
