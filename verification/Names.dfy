/** Crate names in the code-point order used by Python's `sorted`, and the two
    uses the publish scripts make of it: sorting a set and sorting a deque. */
module Names {

  /** Strict code-point order on strings. */
  predicate Less(a: string, b: string) {
    if b == "" then false
    else if a == "" then true
    else if a[0] != b[0] then a[0] < b[0]
    else Less(a[1..], b[1..])
  }

  lemma {:induction false} LessTotal(a: string, b: string)
    ensures Less(a, b) || Less(b, a) || a == b
    ensures !(Less(a, b) && Less(b, a))
    ensures !Less(a, a)
  {
    if a != "" {
      LessTotal(a[1..], a[1..]);
    }
    if a != "" && b != "" && a[0] == b[0] {
      LessTotal(a[1..], b[1..]);
      assert a == [a[0]] + a[1..] && b == [b[0]] + b[1..];
    }
  }

  lemma {:induction false} LessTransitive(a: string, b: string, c: string)
    requires Less(a, b) && Less(b, c)
    ensures Less(a, c)
  {
    if a != "" && a[0] == b[0] && b[0] == c[0] {
      LessTransitive(a[1..], b[1..], c[1..]);
    }
  }

  /** The strings agree before place `i` and `a` is smaller there. */
  ghost predicate SmallerAt(a: string, b: string, i: nat) {
    i < |a| && i < |b| && a[..i] == b[..i] && a[i] < b[i]
  }

  /** `a` is a proper prefix of `b`, or smaller at the first place where they differ. */
  lemma {:induction false} LessMeans(a: string, b: string)
    ensures Less(a, b) <==> a < b || exists i: nat :: SmallerAt(a, b, i)
  {
    if a != "" && b != "" {
      LessMeans(a[1..], b[1..]);
      SmallerFirst(a, b);
      hide SmallerAt;
      if a[0] == b[0] {
        forall i: nat ensures SmallerAt(a, b, i + 1) <==> SmallerAt(a[1..], b[1..], i) { SmallerNext(a, b, i); }
        if i: nat :| SmallerAt(a, b, i) {
          assert SmallerAt(a[1..], b[1..], i - 1);
        }
        if i: nat :| SmallerAt(a[1..], b[1..], i) {
          assert SmallerAt(a, b, i + 1);
        }
        assert a == [a[0]] + a[1..] && b == [b[0]] + b[1..];
      }
    }
  }

  lemma SmallerFirst(a: string, b: string)
    requires a != "" && b != ""
    ensures SmallerAt(a, b, 0) <==> a[0] < b[0]
    ensures forall i: nat :: i > 0 && SmallerAt(a, b, i) ==> a[0] == b[0]
  {
    forall i: nat | i > 0 && SmallerAt(a, b, i) ensures a[0] == b[0] {
      assert a[..i][0] == b[..i][0];
    }
  }

  lemma SmallerNext(a: string, b: string, i: nat)
    requires a != "" && b != "" && a[0] == b[0]
    ensures SmallerAt(a, b, i + 1) <==> SmallerAt(a[1..], b[1..], i)
  {
    if i + 1 < |a| && i + 1 < |b| {
      assert a[..i + 1] == [a[0]] + a[1..][..i] && b[..i + 1] == [b[0]] + b[1..][..i];
      assert a[..i + 1][1..] == a[1..][..i] && b[..i + 1][1..] == b[1..][..i];
    }
  }

  /** Strictly increasing: sorted and free of duplicates. */
  ghost predicate Ascending(s: seq<string>) {
    forall i, j :: 0 <= i < j < |s| ==> Less(s[i], s[j])
  }

  ghost predicate NoDuplicates<T>(s: seq<T>) {
    forall i, j :: 0 <= i < j < |s| ==> s[i] != s[j]
  }

  function Elements<T(==)>(s: seq<T>): set<T> {
    set x | x in s
  }

  lemma ElementsCons<T>(x: T, s: seq<T>)
    ensures Elements([x] + s) == {x} + Elements(s)
  {
    forall y ensures y in Elements([x] + s) <==> y in {x} + Elements(s) {
      if y in s {
        var i :| 0 <= i < |s| && s[i] == y;
        assert ([x] + s)[i + 1] == y;
      }
      assert ([x] + s)[0] == x;
    }
  }

  lemma ElementsAppend<T>(s: seq<T>, x: T)
    ensures Elements(s + [x]) == Elements(s) + {x}
  {
    forall y ensures y in Elements(s + [x]) <==> y in Elements(s) + {x} {
      assert (s + [x])[|s|] == x;
    }
  }

  lemma NoDuplicatesAppend<T>(s: seq<T>, x: T)
    requires NoDuplicates(s) && x !in Elements(s)
    ensures NoDuplicates(s + [x]) && Elements(s + [x]) == Elements(s) + {x}
  {
    ElementsAppend(s, x);
    forall i, j | 0 <= i < j < |s + [x]| ensures (s + [x])[i] != (s + [x])[j] {
      assert s[i] in Elements(s);
    }
  }

  lemma ElementsEmpty<T>(s: seq<T>)
    ensures Elements(s) == {} <==> s == []
  {
    if s != [] { assert s[0] in Elements(s); }
  }

  lemma DifferenceEmpty<T>(a: set<T>, b: set<T>)
    ensures a - b == {} <==> a <= b
  {
    if a - b == {} {
      forall x | x in a ensures x in b {
        assert x !in a - b;
      }
    }
  }

  ghost predicate IsLeast(m: string, s: set<string>) {
    m in s && forall x | x in s && x != m :: Less(m, x)
  }

  lemma LeastExists(s: set<string>)
    requires s != {}
    ensures exists m :: IsLeast(m, s)
    decreases s
  {
    var x :| x in s;
    if s == {x} {
      assert IsLeast(x, s);
    } else {
      LeastExists(s - {x});
      var m :| IsLeast(m, s - {x});
      LessTotal(m, x);
      if Less(m, x) {
        assert IsLeast(m, s);
      } else {
        forall y | y in s && y != x
          ensures Less(x, y)
        {
          if y != m {
            LessTransitive(x, m, y);
          }
        }
        assert IsLeast(x, s);
      }
    }
  }

  /** `sorted(s)` for a set of names: its one strictly increasing listing. */
  ghost function SortedNames(s: set<string>): (r: seq<string>)
    ensures Ascending(r) && Elements(r) == s
    decreases s
  {
    if s == {} then []
    else
      LeastExists(s);
      var m :| IsLeast(m, s);
      var rest := SortedNames(s - {m});
      ElementsCons(m, rest);
      assert forall x | x in rest :: x in Elements(rest);
      [m] + rest
  }

  /** There is only one increasing listing of a set, so any sort that produces
      one produces this one, whatever order it started from. */
  lemma {:induction false} AscendingUnique(a: seq<string>, b: seq<string>)
    requires Ascending(a) && Ascending(b)
    requires Elements(a) == Elements(b)
    ensures a == b
  {
    ElementsEmpty(a);
    ElementsEmpty(b);
    if a != [] {
      assert a[0] in Elements(a) && b[0] in Elements(b);
      var i :| 0 <= i < |b| && b[i] == a[0];
      var j :| 0 <= j < |a| && a[j] == b[0];
      LessTotal(a[0], b[0]);
      assert a[0] == b[0];
      forall x ensures x in Elements(a[1..]) <==> x in Elements(b[1..])
      {
        LessTotal(a[0], a[0]);
        assert x in Elements(a) <==> x == a[0] || x in Elements(a[1..]);
        assert x in Elements(b) <==> x == b[0] || x in Elements(b[1..]);
      }
      AscendingUnique(a[1..], b[1..]);
      assert a == [a[0]] + a[1..] && b == [b[0]] + b[1..];
    }
  }

  /** Inserts `x` after every entry that is smaller than it. */
  function Insert(x: string, s: seq<string>): (r: seq<string>)
    ensures multiset(r) == multiset(s) + multiset{x}
  {
    if s == [] then [x]
    else if Less(s[0], x) then
      assert s == [s[0]] + s[1..];
      [s[0]] + Insert(x, s[1..])
    else [x] + s
  }

  /** `sorted(s)` for a list of names. */
  function Sort(s: seq<string>): (r: seq<string>)
    ensures multiset(r) == multiset(s)
  {
    if s == [] then []
    else
      assert s == [s[0]] + s[1..];
      Insert(s[0], Sort(s[1..]))
  }

  lemma {:induction false} InsertAscending(x: string, s: seq<string>)
    requires Ascending(s) && x !in s
    ensures Ascending(Insert(x, s))
  {
    var r := Insert(x, s);
    if s == [] {
    } else if Less(s[0], x) {
      InsertAscending(x, s[1..]);
      var t := Insert(x, s[1..]);
      forall k | 0 <= k < |t| ensures Less(s[0], t[k]) {
        assert t[k] in multiset(t);
        assert t[k] == x || t[k] in s[1..];
      }
    } else {
      LessTotal(s[0], x);
      forall k | 0 <= k < |s| ensures Less(x, s[k]) {
        if k > 0 { LessTransitive(x, s[0], s[k]); }
      }
    }
  }

  /** Sorting a list without duplicates gives the sorted listing of its elements. */
  lemma {:induction false} SortIsSortedNames(s: seq<string>)
    requires NoDuplicates(s)
    ensures Sort(s) == SortedNames(Elements(s))
  {
    SortAscending(s);
    forall x ensures x in Sort(s) <==> x in s {
      assert x in multiset(Sort(s)) <==> x in multiset(s);
    }
    assert Elements(Sort(s)) == Elements(s);
    AscendingUnique(Sort(s), SortedNames(Elements(s)));
  }

  lemma {:induction false} SortAscending(s: seq<string>)
    requires NoDuplicates(s)
    ensures Ascending(Sort(s))
  {
    if s != [] {
      SortAscending(s[1..]);
      assert s[0] !in s[1..];
      assert multiset(Sort(s[1..])) == multiset(s[1..]);
      assert s[0] !in multiset(Sort(s[1..]));
      InsertAscending(s[0], Sort(s[1..]));
    }
  }

  /** `sorted(s)` for a set: the set is listed in an arbitrary iteration order
      and the list is sorted. */
  method SortSet(s: set<string>) returns (r: seq<string>)
    ensures r == SortedNames(s)
  {
    var todo := s;
    var listed: seq<string> := [];
    while todo != {}
      invariant todo <= s
      invariant NoDuplicates(listed)
      invariant Elements(listed) == s - todo
      decreases todo
    {
      var x :| x in todo;
      NoDuplicatesAppend(listed, x);
      listed, todo := listed + [x], todo - {x};
    }
    assert Elements(listed) == s;
    SortIsSortedNames(listed);
    r := Sort(listed);
  }
}
