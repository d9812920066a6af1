/**
 * The dropdown option lists and the index each dropdown opens at. A list is
 * the placeholder followed by the folder names in sorted order (descending
 * string order for the date dropdown, ascending for the two others); the index is
 * where the previous selection sits in that list, or 0 (the placeholder)
 * when it is not listed.
 */
module Selector {

  /** The entry that stands for "nothing selected yet". */
  const Placeholder := "-- Select --"

  /** Python's `a <= b` on strings: lexicographic order by code point. */
  predicate StrLe(a: string, b: string)
  {
    |a| == 0 || (|b| > 0 && (a[0] < b[0] || (a[0] == b[0] && StrLe(a[1..], b[1..]))))
  }

  /**
   * The order in its usual reading: `a <= b` exactly when `a` is a prefix of
   * `b`, or at the first position where they differ `a` holds the smaller
   * character.
   */
  lemma {:induction false} StrLeIff(a: string, b: string)
    ensures StrLe(a, b) <==>
      || (|a| <= |b| && a == b[..|a|])
      || (exists k :: 0 <= k < |a| && k < |b| && a[..k] == b[..k] && a[k] < b[k])
    decreases |a|
  {
    if |a| > 0 && |b| > 0 {
      if a[0] < b[0] {
        assert a[..0] == b[..0];
      } else if a[0] != b[0] {
        forall k | 0 < k <= |a| && k <= |b| ensures a[..k][0] == a[0] && b[..k][0] == b[0] {
        }
      } else {
        var a', b' := a[1..], b[1..];
        StrLeIff(a', b');
        assert |a| <= |b| && a == b[..|a|] <==> |a'| <= |b'| && a' == b'[..|a'|] by {
          if |a'| <= |b'| && a' == b'[..|a'|] {
            assert a == [a[0]] + a' && b[..|a|] == [b[0]] + b'[..|a'|];
          }
        }
        if exists k :: 0 <= k < |a'| && k < |b'| && a'[..k] == b'[..k] && a'[k] < b'[k] {
          var k :| 0 <= k < |a'| && k < |b'| && a'[..k] == b'[..k] && a'[k] < b'[k];
          assert a[..k + 1] == [a[0]] + a'[..k] && b[..k + 1] == [b[0]] + b'[..k];
          assert a[k + 1] == a'[k] && b[k + 1] == b'[k];
        }
        if exists k :: 0 <= k < |a| && k < |b| && a[..k] == b[..k] && a[k] < b[k] {
          var k :| 0 <= k < |a| && k < |b| && a[..k] == b[..k] && a[k] < b[k];
          assert k > 0;
          assert a'[..k - 1] == a[..k][1..] && b'[..k - 1] == b[..k][1..];
          assert a'[k - 1] == a[k] && b'[k - 1] == b[k];
        }
      }
    }
  }

  /** Any two strings are comparable. */
  lemma {:induction false} StrLeTotal(a: string, b: string)
    ensures StrLe(a, b) || StrLe(b, a)
  {
    if |a| > 0 && |b| > 0 && a[0] == b[0] {
      StrLeTotal(a[1..], b[1..]);
    }
  }

  /** `a` may come before `b` in the requested direction. */
  predicate InOrder(a: string, b: string, descending: bool)
  {
    if descending then StrLe(b, a) else StrLe(a, b)
  }

  /** Every adjacent pair is in order. */
  predicate Sorted(s: seq<string>, descending: bool)
  {
    forall i :: 0 < i < |s| ==> InOrder(s[i - 1], s[i], descending)
  }

  /** Inserts `x` before the first element of `s` it may precede. */
  function Insert(x: string, s: seq<string>, descending: bool): seq<string>
  {
    if s == [] then [x]
    else if InOrder(x, s[0], descending) then [x] + s
    else [s[0]] + Insert(x, s[1..], descending)
  }

  /** Inserting adds exactly one occurrence of `x` and nothing else. */
  lemma {:induction false} InsertPermutation(x: string, s: seq<string>, descending: bool)
    ensures multiset(Insert(x, s, descending)) == multiset(s) + multiset{x}
    ensures |Insert(x, s, descending)| == |s| + 1
  {
    if s != [] && !InOrder(x, s[0], descending) {
      InsertPermutation(x, s[1..], descending);
      assert s == [s[0]] + s[1..];
    }
  }

  /** Putting an element in front of a sorted sequence it may precede keeps it sorted. */
  lemma ConsSorted(a: string, rest: seq<string>, descending: bool)
    requires Sorted(rest, descending)
    requires |rest| > 0 ==> InOrder(a, rest[0], descending)
    ensures Sorted([a] + rest, descending)
  {
    var r := [a] + rest;
    forall i | 1 < i < |r| ensures InOrder(r[i - 1], r[i], descending) {
      assert r[i - 1] == rest[i - 2] && r[i] == rest[i - 1];
    }
  }

  /** Inserting into a sorted sequence keeps it sorted. */
  lemma {:induction false} InsertSorted(x: string, s: seq<string>, descending: bool)
    requires Sorted(s, descending)
    ensures Sorted(Insert(x, s, descending), descending)
    ensures Insert(x, s, descending)[0] == x || (|s| > 0 && Insert(x, s, descending)[0] == s[0])
  {
    if s == [] {
    } else if InOrder(x, s[0], descending) {
      ConsSorted(x, s, descending);
    } else {
      StrLeTotal(x, s[0]);
      var tail := s[1..];
      assert Sorted(tail, descending);
      InsertSorted(x, tail, descending);
      var rest := Insert(x, tail, descending);
      assert InOrder(s[0], rest[0], descending) by {
        if rest[0] != x {
          assert s[1] == tail[0];
        }
      }
      ConsSorted(s[0], rest, descending);
    }
  }

  /** `sorted(names)` (ascending) or `sorted(names, reverse=True)` (descending). */
  function Sort(names: seq<string>, descending: bool): (r: seq<string>)
    ensures Sorted(r, descending)
    ensures multiset(r) == multiset(names)
    ensures |r| == |names|
  {
    if names == [] then []
    else
      var rest := Sort(names[1..], descending);
      InsertSorted(names[0], rest, descending);
      InsertPermutation(names[0], rest, descending);
      assert names == [names[0]] + names[1..];
      Insert(names[0], rest, descending)
  }

  /**
   * The options of one dropdown: the placeholder, then every folder name
   * once per occurrence, in sorted order.
   */
  function Options(folders: seq<string>, descending: bool): (r: seq<string>)
    ensures |r| == |folders| + 1 && r[0] == Placeholder
    ensures Sorted(r[1..], descending)
    ensures multiset(r[1..]) == multiset(folders)
  {
    var sorted := Sort(folders, descending);
    assert ([Placeholder] + sorted)[1..] == sorted;
    [Placeholder] + sorted
  }

  /** Python's `list.index(x)`: the first position holding `x`. */
  function IndexOf(s: seq<string>, x: string): (i: nat)
    requires x in s
    ensures i < |s| && s[i] == x
    ensures forall j :: 0 <= j < i ==> s[j] != x
  {
    if s[0] == x then 0 else 1 + IndexOf(s[1..], x)
  }

  /**
   * The index a dropdown opens at, given its folder names and the previous
   * selection: the previous selection's first position among the options
   * when it is one of them, and 0 otherwise. The index is always in range,
   * and the option it points at is the previous selection when that is
   * still listed and the placeholder otherwise.
   */
  function SelectorIndex(folders: seq<string>, descending: bool, previous: string): (i: nat)
    ensures i < |Options(folders, descending)|
    ensures Options(folders, descending)[i] ==
      if previous in folders then previous else Placeholder
    ensures previous !in folders ==> i == 0
    ensures forall j :: 0 <= j < i ==> Options(folders, descending)[j] != previous
  {
    var options := Options(folders, descending);
    assert previous in folders <==> previous in options[1..] by {
      assert previous in multiset(folders) <==> previous in multiset(options[1..]);
    }
    assert options == [options[0]] + options[1..];
    if previous in options then IndexOf(options, previous) else 0
  }
}
