/**
 * The re-sort of the add path, `artists.sort((a, b) => a.toLowerCase().localeCompare(b.toLowerCase()))`:
 * a stable sort by the lower-cased name, done in place on the array.
 */
module ArtistSort {
  import opened JsText

  /** Ascending by lower-cased name. */
  predicate SortedByKey(s: seq<string>) {
    forall i, j :: 0 <= i < j < |s| ==> KeyLe(s[i], s[j])
  }

  /** Places `x` after the last entry of `s` that may stand before it (one step of a stable insertion sort). */
  function InsertBack(s: seq<string>, x: string): (r: seq<string>)
    ensures |r| == |s| + 1
  {
    if s == [] || KeyLe(s[|s| - 1], x) then s + [x]
    else InsertBack(s[..|s| - 1], x) + [s[|s| - 1]]
  }

  lemma {:induction false} InsertBackPermutation(s: seq<string>, x: string)
    ensures multiset(InsertBack(s, x)) == multiset(s) + multiset{x}
    decreases |s|
  {
    if s != [] && !KeyLe(s[|s| - 1], x) {
      var init := s[..|s| - 1];
      InsertBackPermutation(init, x);
      assert s == init + [s[|s| - 1]];
    }
  }

  /** The reference ordering: insertion sort, one element at a time from the left. */
  function SortByKey(s: seq<string>): (r: seq<string>)
    ensures |r| == |s|
  {
    if s == [] then [] else InsertBack(SortByKey(s[..|s| - 1]), s[|s| - 1])
  }

  lemma {:induction false} InsertBackSorted(s: seq<string>, x: string)
    requires SortedByKey(s)
    ensures SortedByKey(InsertBack(s, x))
    decreases |s|
  {
    if s == [] {
    } else if KeyLe(s[|s| - 1], x) {
      forall k | 0 <= k < |s| ensures KeyLe(s[k], x) {
        if k < |s| - 1 {
          KeyLeTransitive(s[k], s[|s| - 1], x);
        }
      }
      SortedSnoc(s, x);
    } else {
      var n := |s| - 1;
      var init, last := s[..n], s[n];
      SortedPrefix(s, n);
      InsertBackSorted(init, x);
      InsertBackPermutation(init, x);
      var m := InsertBack(init, x);
      KeyLeTotal(last, x);
      forall k | 0 <= k < |m| ensures KeyLe(m[k], last) {
        assert m[k] in multiset(m);
        if m[k] != x {
          assert m[k] in multiset(init);
          var i :| 0 <= i < n && init[i] == m[k];
          assert s[i] == m[k];
        }
      }
      SortedSnoc(m, last);
    }
  }

  /** An entry that may follow every entry of a sorted list extends it. */
  lemma SortedSnoc(t: seq<string>, y: string)
    requires SortedByKey(t)
    requires forall k :: 0 <= k < |t| ==> KeyLe(t[k], y)
    ensures SortedByKey(t + [y])
  {
    var r := t + [y];
    forall i, j | 0 <= i < j < |r| ensures KeyLe(r[i], r[j]) {
      assert r[i] == t[i];
    }
  }

  /** The reference ordering is sorted and a permutation of its input. */
  lemma {:induction false} SortByKeySorted(s: seq<string>)
    ensures SortedByKey(SortByKey(s))
    ensures multiset(SortByKey(s)) == multiset(s)
  {
    if s != [] {
      var init := s[..|s| - 1];
      SortByKeySorted(init);
      InsertBackSorted(SortByKey(init), s[|s| - 1]);
      InsertBackPermutation(SortByKey(init), s[|s| - 1]);
      assert s == init + [s[|s| - 1]];
    }
  }

  /** The entries of `s` that are the same artist as `k`, in the order they stand in `s`. */
  function Ties(s: seq<string>, k: string): (r: seq<string>)
    ensures forall i :: 0 <= i < |r| ==> SameKey(r[i], k)
    ensures |r| <= |s|
  {
    if s == [] then []
    else Ties(s[..|s| - 1], k) + (if SameKey(s[|s| - 1], k) then [s[|s| - 1]] else [])
  }

  /** Appending one entry to a list extends its ties with that entry alone. */
  lemma TiesSnoc(s: seq<string>, x: string, k: string)
    ensures Ties(s + [x], k) == Ties(s, k) + Ties([x], k)
  {
    assert (s + [x])[..|s|] == s;
    assert [x][..0] == [];
  }

  /** Two entries that the comparator puts in strict order are never both tied with `k`. */
  lemma TiesSwap(x: string, y: string, k: string)
    requires !KeyLe(y, x)
    ensures Ties([x], k) + Ties([y], k) == Ties([y], k) + Ties([x], k)
  {
    KeyLeTieIff(y, x);
    assert [x][..0] == [] && [y][..0] == [];
  }

  /** One insertion step keeps the order of every group of ties: `x` ends up after the entries tied with it. */
  lemma {:induction false} InsertBackStable(s: seq<string>, x: string, k: string)
    ensures Ties(InsertBack(s, x), k) == Ties(s + [x], k)
    decreases |s|
  {
    if s != [] && !KeyLe(s[|s| - 1], x) {
      var init, last := s[..|s| - 1], s[|s| - 1];
      assert s == init + [last];
      var tx, tl := Ties([x], k), Ties([last], k);
      calc {
        Ties(InsertBack(s, x), k);
        Ties(InsertBack(init, x) + [last], k);
        { TiesSnoc(InsertBack(init, x), last, k); }
        Ties(InsertBack(init, x), k) + tl;
        { InsertBackStable(init, x, k); TiesSnoc(init, x, k); }
        Ties(init, k) + tx + tl;
        { TiesSwap(x, last, k); }
        Ties(init, k) + (tl + tx);
        { TiesSnoc(init, last, k); }
        Ties(s, k) + tx;
        { TiesSnoc(s, x, k); }
        Ties(s + [x], k);
      }
    }
  }

  /** The sort is stable: the names that are the same artist as `k` keep the order they had. */
  lemma {:induction false} SortByKeyStable(s: seq<string>, k: string)
    ensures Ties(SortByKey(s), k) == Ties(s, k)
  {
    if s != [] {
      var init, last := s[..|s| - 1], s[|s| - 1];
      calc {
        Ties(SortByKey(s), k);
        Ties(InsertBack(SortByKey(init), last), k);
        { InsertBackStable(SortByKey(init), last, k); }
        Ties(SortByKey(init) + [last], k);
        { TiesSnoc(SortByKey(init), last, k); SortByKeyStable(init, k); TiesSnoc(init, last, k); }
        Ties(init + [last], k);
        { assert s == init + [last]; }
        Ties(s, k);
      }
    }
  }

  /** Sorting a list that is already in order changes nothing. */
  lemma {:induction false} SortByKeyOfSorted(s: seq<string>)
    requires SortedByKey(s)
    ensures SortByKey(s) == s
  {
    if s != [] {
      var n := |s| - 1;
      var init, last := s[..n], s[n];
      SortedPrefix(s, n);
      SortByKeyOfSorted(init);
      assert SortByKey(s) == InsertBack(init, last);
      assert n > 0 ==> init[n - 1] == s[n - 1];
      InsertBackAfterLast(init, last);
      assert s == init + [last];
    }
  }

  /** An entry that may follow the last one goes at the end. */
  lemma InsertBackAfterLast(t: seq<string>, y: string)
    requires t == [] || KeyLe(t[|t| - 1], y)
    ensures InsertBack(t, y) == t + [y]
  {
  }

  /** A prefix of a sorted list is sorted, and a sorted list's last entry may follow every other one. */
  lemma SortedPrefix(s: seq<string>, n: nat)
    requires SortedByKey(s) && n < |s|
    ensures SortedByKey(s[..n])
    ensures n > 0 ==> KeyLe(s[n - 1], s[n])
  {
    var p := s[..n];
    forall i, j | 0 <= i < j < n ensures KeyLe(p[i], p[j]) {
      assert p[i] == s[i] && p[j] == s[j];
    }
  }

  /** Moving `x` one slot left past an entry that must follow it. */
  lemma InsertBackStep(p: seq<string>, x: string, j: nat)
    requires 0 < j <= |p| && !KeyLe(p[j - 1], x)
    ensures InsertBack(p[..j], x) + p[j..] == InsertBack(p[..j - 1], x) + p[j - 1..]
  {
    var q := p[..j];
    assert q[|q| - 1] == p[j - 1];
    assert q[..|q| - 1] == p[..j - 1];
    assert InsertBack(q, x) == InsertBack(p[..j - 1], x) + [p[j - 1]];
    assert p[j - 1..] == [p[j - 1]] + p[j..];
  }

  /** The array after the shifting loop, read as a sequence: the run before the gap, `x`, the shifted run. */
  lemma ShiftedRun(s: seq<string>, prefix: seq<string>, x: string, j: nat)
    requires j <= |prefix| < |s|
    requires forall k :: 0 <= k < j ==> s[k] == prefix[k]
    requires s[j] == x
    requires forall k :: j < k <= |prefix| ==> s[k] == prefix[k - 1]
    ensures s[..|prefix| + 1] == prefix[..j] + [x] + prefix[j..]
  {
    var inserted := prefix[..j] + [x] + prefix[j..];
    forall k | 0 <= k <= |prefix| ensures s[k] == inserted[k] {
      if k > j {
        assert inserted[k] == prefix[j..][k - j - 1];
      }
    }
  }

  /** Two arrays that agree past index `i` have equal suffixes there. */
  lemma SameSuffix(s: seq<string>, t: seq<string>, i: nat)
    requires |s| == |t| && i < |s|
    requires forall k :: i < k < |s| ==> s[k] == t[k]
    ensures s[i + 1..] == t[i + 1..]
  {
    var u, v := s[i + 1..], t[i + 1..];
    forall k | 0 <= k < |u| ensures u[k] == v[k] {
      assert u[k] == s[i + 1 + k] && v[k] == t[i + 1 + k];
    }
  }

  /** One outer step: inserts `a[i]` into the sorted run `a[..i]` by shifting larger entries right. */
  method InsertIntoPrefix(a: array<string>, i: nat)
    requires i < a.Length
    modifies a
    ensures a[..i + 1] == InsertBack(old(a[..i]), old(a[i]))
    ensures a[i + 1..] == old(a[i + 1..])
  {
    ghost var prefix := a[..i];
    var x := a[i];
    var j := i;
    assert prefix[..j] == prefix && prefix[j..] == [];
    while j > 0 && !KeyLe(a[j - 1], x)
      invariant 0 <= j <= i
      invariant forall k :: 0 <= k < j ==> a[k] == prefix[k]
      invariant forall k :: j < k <= i ==> a[k] == prefix[k - 1]
      invariant forall k :: i < k < a.Length ==> a[k] == old(a[k])
      invariant InsertBack(prefix, x) == InsertBack(prefix[..j], x) + prefix[j..]
    {
      InsertBackStep(prefix, x, j);
      a[j] := a[j - 1];
      j := j - 1;
    }
    a[j] := x;
    ShiftedRun(a[..], prefix, x, j);
    SameSuffix(a[..], old(a[..]), i);
  }

  /** The in-place sort of the add path: a stable insertion sort, proved to be the reference ordering. */
  method SortInPlace(a: array<string>)
    modifies a
    ensures a[..] == SortByKey(old(a[..]))
  {
    ghost var input := a[..];
    for i := 0 to a.Length
      invariant a[..i] == SortByKey(input[..i])
      invariant a[i..] == input[i..]
    {
      InsertIntoPrefix(a, i);
      assert input[..i + 1][..i] == input[..i];
    }
    assert input[..a.Length] == input;
  }
}
