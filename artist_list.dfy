/**
 * The rules the worker applies to the artist list: which names it accepts, when an artist counts as
 * already present (case-insensitively), and what removing a name takes out (exact matches only).
 */
module ArtistList {
  import opened Wrappers
  import opened JsText
  import opened ArtistSort

  /** `(body.name || '').trim()`: a missing name reads as empty, and a name that trims to nothing is refused. */
  function NameOf(nameOpt: Option<string>): (r: Option<string>)
    ensures r.None? <==> AllTrimmable(nameOpt.GetOr(""))
    ensures r.Some? ==> r.value != [] && !IsTrimmable(r.value[0]) && !IsTrimmable(r.value[|r.value| - 1])
  {
    var s := nameOpt.GetOr("");
    TrimEmptyIff(s);
    var name := Trim(s);
    if name == [] then None else Some(name)
  }

  /** An accepted name is a slice of what was sent, with only whitespace cut from either side. */
  lemma NameOfSlice(nameOpt: Option<string>)
    ensures NameOf(nameOpt).Some? ==>
      exists i, j :: (0 <= i <= j <= |nameOpt.GetOr("")| && NameOf(nameOpt).value == nameOpt.GetOr("")[i..j]
                      && AllTrimmable(nameOpt.GetOr("")[..i]) && AllTrimmable(nameOpt.GetOr("")[j..]))
  {
    var i, j := TrimBounds(nameOpt.GetOr(""));
  }

  /** `artists.some(a => a.toLowerCase() === name.toLowerCase())`. */
  function HasMatch(list: seq<string>, name: string): (r: bool)
    ensures r <==> exists i :: 0 <= i < |list| && SameKey(list[i], name)
  {
    if list == [] then false
    else if SameKey(list[0], name) then true
    else
      var r := HasMatch(list[1..], name);
      assert forall i :: 0 < i < |list| ==> list[i] == list[1..][i - 1];
      r
  }

  /** `artists.filter(a => a !== name)`: every exact, case-sensitive occurrence of `name` goes. */
  function Without(list: seq<string>, name: string): (r: seq<string>)
    ensures |r| <= |list|
    ensures forall x :: x in r <==> x in list && x != name
  {
    if list == [] then []
    else if list[0] == name then Without(list[1..], name)
    else [list[0]] + Without(list[1..], name)
  }

  /** No two names of the list are equal once lower-cased. */
  predicate CaseUnique(list: seq<string>) {
    forall i, j :: 0 <= i < j < |list| ==> !SameKey(list[i], list[j])
  }

  /** Removing takes out exactly the occurrences of `name` and keeps every other name. */
  lemma {:induction false} WithoutMultiset(list: seq<string>, name: string)
    ensures multiset(Without(list, name)) == multiset(list)[name := 0]
  {
    if list != [] {
      WithoutMultiset(list[1..], name);
      assert list == [list[0]] + list[1..];
    }
  }

  /** The filtered list is as long as the original exactly when `name` does not occur in it. */
  lemma {:induction false} WithoutLength(list: seq<string>, name: string)
    ensures |Without(list, name)| == |list| <==> name !in list
  {
    if list != [] {
      WithoutLength(list[1..], name);
      assert list == [list[0]] + list[1..];
    }
  }

  /** The filter works element by element, so it keeps the order of what it keeps. */
  lemma {:induction false} WithoutAppend(a: seq<string>, b: seq<string>, name: string)
    ensures Without(a + b, name) == Without(a, name) + Without(b, name)
  {
    if a == [] {
      assert a + b == b;
    } else {
      assert (a + b)[1..] == a[1..] + b;
      WithoutAppend(a[1..], b, name);
    }
  }

  /** A sorted list stays sorted when names are taken out. */
  lemma {:induction false} WithoutSorted(list: seq<string>, name: string)
    requires SortedByKey(list)
    ensures SortedByKey(Without(list, name))
  {
    if list != [] {
      var tail := list[1..];
      assert SortedByKey(tail) by {
        forall i, j | 0 <= i < j < |tail| ensures KeyLe(tail[i], tail[j]) {
          assert tail[i] == list[i + 1] && tail[j] == list[j + 1];
        }
      }
      WithoutSorted(tail, name);
      var w := Without(tail, name);
      if list[0] != name {
        forall k | 0 <= k < |w| ensures KeyLe(list[0], w[k]) {
          assert w[k] in tail;
          var m :| 0 <= m < |tail| && tail[m] == w[k];
          assert list[m + 1] == w[k];
        }
        var r := [list[0]] + w;
        forall i, j | 0 <= i < j < |r| ensures KeyLe(r[i], r[j]) {
          if i > 0 {
            assert r[i] == w[i - 1] && r[j] == w[j - 1];
          } else {
            assert r[j] == w[j - 1];
          }
        }
      }
    }
  }

  lemma CaseUniqueTail(list: seq<string>)
    requires list != [] && CaseUnique(list)
    ensures CaseUnique(list[1..])
  {
    forall i, j | 0 <= i < j < |list| - 1 ensures !SameKey(list[1..][i], list[1..][j]) {
      assert list[1..][i] == list[i + 1] && list[1..][j] == list[j + 1];
    }
  }

  /** Removing names keeps the list free of case-insensitive duplicates. */
  lemma {:induction false} WithoutCaseUnique(list: seq<string>, name: string)
    requires CaseUnique(list)
    ensures CaseUnique(Without(list, name))
  {
    if list != [] {
      var tail := list[1..];
      CaseUniqueTail(list);
      WithoutCaseUnique(tail, name);
      var w := Without(tail, name);
      if list[0] != name {
        forall k | 0 <= k < |w| ensures !SameKey(list[0], w[k]) {
          assert w[k] in tail;
          var m :| 0 <= m < |tail| && tail[m] == w[k];
          assert list[m + 1] == w[k];
        }
        var r := [list[0]] + w;
        forall i, j | 0 <= i < j < |r| ensures !SameKey(r[i], r[j]) {
          if i > 0 {
            assert r[i] == w[i - 1] && r[j] == w[j - 1];
          } else {
            assert r[j] == w[j - 1];
          }
        }
      }
    }
  }

  lemma CaseUniqueAppend(t: seq<string>, y: string)
    requires CaseUnique(t)
    requires forall z :: z in t ==> !SameKey(z, y)
    ensures CaseUnique(t + [y])
  {
    var r := t + [y];
    forall i, j | 0 <= i < j < |r| ensures !SameKey(r[i], r[j]) {
      if j < |t| {
        assert r[i] == t[i] && r[j] == t[j];
      } else {
        assert r[i] == t[i] && t[i] in t;
      }
    }
  }

  lemma CaseUniquePrefix(s: seq<string>, n: nat)
    requires CaseUnique(s) && n <= |s|
    ensures CaseUnique(s[..n])
  {
    forall i, j | 0 <= i < j < n ensures !SameKey(s[..n][i], s[..n][j]) {
      assert s[..n][i] == s[i] && s[..n][j] == s[j];
    }
  }

  lemma {:induction false} InsertBackCaseUnique(s: seq<string>, x: string)
    requires CaseUnique(s)
    requires forall z :: z in s ==> !SameKey(z, x)
    ensures CaseUnique(InsertBack(s, x))
  {
    if s == [] || KeyLe(s[|s| - 1], x) {
      CaseUniqueAppend(s, x);
    } else {
      var n := |s| - 1;
      var front, last := s[..n], s[n];
      CaseUniquePrefix(s, n);
      assert forall z :: z in front ==> z in s;
      InsertBackCaseUnique(front, x);
      InsertBackPermutation(front, x);
      forall z | z in InsertBack(front, x) ensures !SameKey(z, last) {
        assert z in multiset(InsertBack(front, x));
        if z != x {
          assert z in front;
          var m :| 0 <= m < n && front[m] == z;
          assert s[m] == z;
        } else {
          assert last in s;
        }
      }
      CaseUniqueAppend(InsertBack(front, x), last);
    }
  }

  /** Sorting never creates a case-insensitive duplicate. */
  lemma {:induction false} SortByKeyCaseUnique(s: seq<string>)
    requires CaseUnique(s)
    ensures CaseUnique(SortByKey(s))
  {
    if s != [] {
      var n := |s| - 1;
      var front, last := s[..n], s[n];
      CaseUniquePrefix(s, n);
      SortByKeyCaseUnique(front);
      SortByKeySorted(front);
      forall z | z in SortByKey(front) ensures !SameKey(z, last) {
        assert z in multiset(SortByKey(front));
        assert z in front;
        var m :| 0 <= m < n && front[m] == z;
        assert s[m] == z;
      }
      InsertBackCaseUnique(SortByKey(front), last);
    }
  }

  /** Adding a name that has no case-insensitive match: the result holds the old names and the new one,
      each exactly as often as before, in order, and the new name is now matched. */
  lemma AddNewName(list: seq<string>, name: string)
    ensures multiset(SortByKey(list + [name])) == multiset(list) + multiset{name}
    ensures SortedByKey(SortByKey(list + [name]))
    ensures name in SortByKey(list + [name])
    ensures HasMatch(SortByKey(list + [name]), name)
  {
    var r := SortByKey(list + [name]);
    SortByKeySorted(list + [name]);
    assert name in multiset(r);
    var i :| 0 <= i < |r| && r[i] == name;
    assert SameKey(r[i], name);
  }

  /** Adding a name with no case-insensitive match keeps the list free of case-insensitive duplicates. */
  lemma AddKeepsCaseUnique(list: seq<string>, name: string)
    requires CaseUnique(list) && !HasMatch(list, name)
    ensures CaseUnique(SortByKey(list + [name]))
  {
    forall z | z in list ensures !SameKey(z, name) {
      var i :| 0 <= i < |list| && list[i] == z;
    }
    CaseUniqueAppend(list, name);
    SortByKeyCaseUnique(list + [name]);
  }

  /** How many names of the list match `name` case-insensitively. */
  function MatchCount(list: seq<string>, name: string): (n: nat)
    ensures n <= |list|
    ensures n > 0 <==> HasMatch(list, name)
  {
    if list == [] then 0
    else
      var n := MatchCount(list[1..], name);
      if SameKey(list[0], name) then n + 1 else n
  }

  /** In a list without case-insensitive duplicates, every name is matched at most once. */
  lemma {:induction false} CaseUniqueMatchCount(list: seq<string>, name: string)
    requires CaseUnique(list)
    ensures MatchCount(list, name) <= 1
  {
    if list != [] {
      var tail := list[1..];
      CaseUniqueTail(list);
      CaseUniqueMatchCount(tail, name);
      if SameKey(list[0], name) {
        forall k | 0 <= k < |tail| ensures !SameKey(tail[k], name) {
          assert tail[k] == list[k + 1];
        }
      }
    }
  }

  /** After a new name is added, exactly one name of the list matches it. */
  lemma AddedOnce(list: seq<string>, name: string)
    requires CaseUnique(list) && !HasMatch(list, name)
    ensures MatchCount(SortByKey(list + [name]), name) == 1
  {
    AddNewName(list, name);
    AddKeepsCaseUnique(list, name);
    CaseUniqueMatchCount(SortByKey(list + [name]), name);
  }
}
