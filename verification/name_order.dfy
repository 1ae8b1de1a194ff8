/** The order `Array.prototype.sort` puts directory entries in when called
    without a comparator: character by character, a proper prefix first. */
module NameOrder {

  /** `a` sorts no later than `b`. */
  predicate NameLe(a: string, b: string)
    decreases |a|
  {
    |a| == 0 || (|b| > 0 && (a[0] < b[0] || (a[0] == b[0] && NameLe(a[1..], b[1..]))))
  }

  lemma {:induction false} NameLeTotal(a: string, b: string)
    ensures NameLe(a, b) || NameLe(b, a)
    decreases |a|
  {
    if |a| > 0 && |b| > 0 && a[0] == b[0] {
      NameLeTotal(a[1..], b[1..]);
    }
  }

  lemma {:induction false} NameLeTransitive(a: string, b: string, c: string)
    requires NameLe(a, b) && NameLe(b, c)
    ensures NameLe(a, c)
    decreases |a|
  {
    if |a| > 0 && a[0] == b[0] && b[0] == c[0] {
      NameLeTransitive(a[1..], b[1..], c[1..]);
    }
  }

  lemma {:induction false} NameLeAntisymmetric(a: string, b: string)
    requires NameLe(a, b) && NameLe(b, a)
    ensures a == b
    decreases |a|
  {
    if |a| > 0 {
      NameLeAntisymmetric(a[1..], b[1..]);
      assert a == [a[0]] + a[1..];
      assert b == [b[0]] + b[1..];
    }
  }

  predicate Sorted(s: seq<string>)
  {
    forall i, j :: 0 <= i < j < |s| ==> NameLe(s[i], s[j])
  }

  /** Puts `x` before the first element it sorts no later than. */
  function Insert(x: string, s: seq<string>): (r: seq<string>)
    ensures |r| == |s| + 1
    decreases |s|
  {
    if |s| == 0 then [x]
    else if NameLe(x, s[0]) then [x] + s
    else [s[0]] + Insert(x, s[1..])
  }

  lemma {:induction false} InsertPermutes(x: string, s: seq<string>)
    ensures multiset(Insert(x, s)) == multiset(s) + multiset{x}
    decreases |s|
  {
    if |s| > 0 && !NameLe(x, s[0]) {
      InsertPermutes(x, s[1..]);
      assert s == [s[0]] + s[1..];
    }
  }

  lemma {:induction false} InsertSorted(x: string, s: seq<string>)
    requires Sorted(s)
    ensures Sorted(Insert(x, s))
    decreases |s|
  {
    if |s| == 0 {
    } else if NameLe(x, s[0]) {
      forall i, j | 0 <= i < j < |[x] + s|
        ensures NameLe(([x] + s)[i], ([x] + s)[j])
      {
        if i == 0 && j > 1 {
          NameLeTransitive(x, s[0], s[j - 1]);
        }
      }
    } else {
      NameLeTotal(x, s[0]);
      var t := Insert(x, s[1..]);
      InsertSorted(x, s[1..]);
      InsertPermutes(x, s[1..]);
      forall j | 0 <= j < |t|
        ensures NameLe(s[0], t[j])
      {
        assert t[j] in multiset(t);
        if t[j] != x {
          FirstIsLeast(s, t[j]);
        }
      }
    }
  }

  /** The head of a non-empty sorted list sorts no later than any of its
      other members. */
  lemma FirstIsLeast(s: seq<string>, x: string)
    requires Sorted(s) && |s| > 0 && x in multiset(s[1..])
    ensures NameLe(s[0], x)
  {
    var m :| 0 <= m < |s[1..]| && s[1..][m] == x;
    assert s[m + 1] == x;
  }

  /** Taking the head off a list takes one copy of it off the contents. */
  lemma MultisetTail(s: seq<string>)
    requires |s| > 0
    ensures multiset(s[1..]) == multiset(s) - multiset{s[0]}
  {
    assert s == [s[0]] + s[1..];
  }

  /** `names.sort()`, as an insertion sort. */
  function Sort(names: seq<string>): (r: seq<string>)
    ensures |r| == |names|
    decreases |names|
  {
    if |names| == 0 then []
    else Insert(names[0], Sort(names[1..]))
  }

  /** Sorting reorders the names without adding or losing any, and puts
      them in order. */
  lemma SortSortsAndPermutes(names: seq<string>)
    ensures Sorted(Sort(names))
    ensures multiset(Sort(names)) == multiset(names)
  {
    SortSorts(names);
    SortPermutes(names);
  }

  lemma {:induction false} SortSorts(names: seq<string>)
    ensures Sorted(Sort(names))
    decreases |names|
  {
    if |names| > 0 {
      SortSorts(names[1..]);
      InsertSorted(names[0], Sort(names[1..]));
    }
  }

  lemma {:induction false} SortPermutes(names: seq<string>)
    ensures multiset(Sort(names)) == multiset(names)
    decreases |names|
  {
    if |names| > 0 {
      SortPermutes(names[1..]);
      InsertPermutes(names[0], Sort(names[1..]));
      assert names == [names[0]] + names[1..];
    }
  }

  /** A sorted list is fixed by its contents: any two sorted arrangements of
      the same names are the same list, so `Sort` is the only sorted
      permutation. */
  lemma {:induction false} SortedPermutationUnique(s: seq<string>, t: seq<string>)
    requires Sorted(s) && Sorted(t) && multiset(s) == multiset(t)
    ensures s == t
    decreases |s|
  {
    if |s| > 0 {
      assert |t| == |multiset(t)| == |multiset(s)| == |s|;
      MultisetTail(s);
      MultisetTail(t);
      assert NameLe(t[0], s[0]) by {
        if s[0] != t[0] {
          assert s[0] in multiset(t[1..]);
          FirstIsLeast(t, s[0]);
        } else {
          NameLeTotal(s[0], t[0]);
        }
      }
      assert NameLe(s[0], t[0]) by {
        if s[0] != t[0] {
          assert t[0] in multiset(s[1..]);
          FirstIsLeast(s, t[0]);
        } else {
          NameLeTotal(s[0], t[0]);
        }
      }
      NameLeAntisymmetric(s[0], t[0]);
      SortedPermutationUnique(s[1..], t[1..]);
    }
  }
}
