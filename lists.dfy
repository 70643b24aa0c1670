/** Sequence helpers shared by the conflict registry and the area plugin: Python lists used as
    duplicate-free collections, `list.remove`, `list.index`, comprehension filters and deletion
    of one position. */
module Lists {

  datatype Option<T> = None | Some(value: T)

  /** No element occurs twice. */
  predicate NoDup<T(==)>(s: seq<T>) {
    forall i, j :: 0 <= i < j < |s| ==> s[i] != s[j]
  }

  /** The elements of a sequence, as a set. */
  function SetOf<T>(s: seq<T>): set<T> {
    set x | x in s
  }

  lemma SetOfCons<T>(s: seq<T>)
    requires s != []
    ensures SetOf(s) == {s[0]} + SetOf(s[1..])
  {
    assert s == [s[0]] + s[1..];
  }

  lemma SetOfConcat<T>(a: seq<T>, b: seq<T>)
    ensures SetOf(a + b) == SetOf(a) + SetOf(b)
  {
    assert forall x :: x in a + b <==> x in a || x in b;
  }

  lemma NoDupTail<T>(s: seq<T>)
    requires NoDup(s) && s != []
    ensures NoDup(s[1..]) && s[0] !in s[1..]
  {
    var t := s[1..];
    forall i, j | 0 <= i < j < |t| ensures t[i] != t[j] {
      assert t[i] == s[i + 1] && t[j] == s[j + 1];
    }
    forall k | 0 <= k < |t| ensures t[k] != s[0] { assert t[k] == s[k + 1]; }
  }

  lemma NoDupCons<T>(x: T, t: seq<T>)
    requires NoDup(t) && x !in t
    ensures NoDup([x] + t)
  {
    var s := [x] + t;
    forall i, j | 0 <= i < j < |s| ensures s[i] != s[j] {
      assert s[j] == t[j - 1];
      if i > 0 { assert s[i] == t[i - 1]; }
    }
  }

  /** `if x not in s: s.append(x)` */
  function AppendNew<T(==)>(s: seq<T>, x: T): (r: seq<T>)
    ensures SetOf(r) == SetOf(s) + {x}
    ensures NoDup(s) ==> NoDup(r)
    ensures |r| == |s| + (if x in s then 0 else 1)
  {
    if x in s then s else s + [x]
  }

  /** Two duplicate-free sequences with no common element concatenate without duplicates. */
  lemma NoDupConcat<T>(a: seq<T>, b: seq<T>)
    requires NoDup(a) && NoDup(b) && SetOf(a) * SetOf(b) == {}
    ensures NoDup(a + b)
  {
    var s := a + b;
    forall x | x in SetOf(a) ensures x !in SetOf(b) {
      assert x !in SetOf(a) * SetOf(b);
    }
    forall i, j | 0 <= i < j < |s| ensures s[i] != s[j] {
      if j < |a| {
        assert s[i] == a[i] && s[j] == a[j];
      } else if i < |a| {
        assert s[i] == a[i] && a[i] in SetOf(a);
        assert s[j] == b[j - |a|] && b[j - |a|] in SetOf(b);
      } else {
        assert s[i] == b[i - |a|] && s[j] == b[j - |a|];
      }
    }
  }

  /** AppendNew applied to every element of `ks`, left to right. */
  function AppendAllNew<T(==)>(s: seq<T>, ks: seq<T>): seq<T>
    decreases |ks|
  {
    if ks == [] then s else AppendNew(AppendAllNew(s, ks[..|ks| - 1]), ks[|ks| - 1])
  }

  lemma {:induction false} AppendAllNewSet<T>(s: seq<T>, ks: seq<T>)
    ensures SetOf(AppendAllNew(s, ks)) == SetOf(s) + SetOf(ks)
    ensures NoDup(s) ==> NoDup(AppendAllNew(s, ks))
    ensures |AppendAllNew(s, ks)| >= |s| && AppendAllNew(s, ks)[..|s|] == s
    decreases |ks|
  {
    if ks != [] {
      var init := ks[..|ks| - 1];
      AppendAllNewSet(s, init);
      assert ks == init + [ks[|ks| - 1]];
      assert SetOf(ks) == SetOf(init) + {ks[|ks| - 1]};
      var prev := AppendAllNew(s, init);
      assert prev[..|s|] == s;
      assert AppendAllNew(s, ks)[..|prev|] == prev;
      assert AppendAllNew(s, ks)[..|s|] == prev[..|prev|][..|s|];
    }
  }

  /** A duplicate-free sequence has as many elements as its set. */
  lemma {:induction false} NoDupCard<T>(s: seq<T>)
    requires NoDup(s)
    ensures |SetOf(s)| == |s|
    decreases |s|
  {
    if s != [] {
      NoDupTail(s);
      NoDupCard(s[1..]);
      SetOfCons(s);
    }
  }

  /** Appending with AppendAllNew to a duplicate-free sequence grows it by exactly the number
      of keys it did not hold before. */
  lemma AppendAllNewGrowth<T>(s: seq<T>, ks: seq<T>)
    requires NoDup(s)
    ensures |AppendAllNew(s, ks)| == |s| + |SetOf(ks) - SetOf(s)|
  {
    AppendAllNewSet(s, ks);
    var r := AppendAllNew(s, ks);
    NoDupCard(s);
    NoDupCard(r);
    assert SetOf(r) == SetOf(s) + (SetOf(ks) - SetOf(s));
    assert SetOf(s) * (SetOf(ks) - SetOf(s)) == {};
  }

  /** The comprehension `[x for x in a if x not in b]`. */
  function Minus<T(==)>(a: seq<T>, b: seq<T>): (r: seq<T>)
    ensures SetOf(r) == SetOf(a) - SetOf(b)
    ensures NoDup(a) ==> NoDup(r)
    decreases |a|
  {
    if a == [] then []
    else
      var rest := Minus(a[1..], b);
      SetOfCons(a);
      SetOfConcat([a[0]], rest);
      if NoDup(a) then NoDupTail(a); (if a[0] in b then rest else assert a[0] !in SetOf(rest); NoDupCons(a[0], rest); [a[0]] + rest)
      else if a[0] in b then rest
      else [a[0]] + rest
  }

  /** Keeps the elements of `s` outside the set `xs`, in order. */
  function FilterOut<T>(s: seq<T>, xs: set<T>): (r: seq<T>)
    ensures SetOf(r) == SetOf(s) - xs
    ensures |r| <= |s|
    decreases |s|
  {
    if s == [] then []
    else
      SetOfCons(s);
      SetOfConcat([s[0]], FilterOut(s[1..], xs));
      if s[0] in xs then FilterOut(s[1..], xs)
      else [s[0]] + FilterOut(s[1..], xs)
  }

  lemma {:induction false} FilterOutNoDup<T>(s: seq<T>, xs: set<T>)
    requires NoDup(s)
    ensures NoDup(FilterOut(s, xs))
    decreases |s|
  {
    if s != [] {
      NoDupTail(s);
      FilterOutNoDup(s[1..], xs);
      if s[0] !in xs {
        assert s[0] !in SetOf(FilterOut(s[1..], xs));
        NoDupCons(s[0], FilterOut(s[1..], xs));
      }
    }
  }

  /** Filtering out nothing keeps the sequence. */
  lemma {:induction false} FilterOutNone<T>(s: seq<T>)
    ensures FilterOut(s, {}) == s
    decreases |s|
  {
    if s != [] {
      FilterOutNone(s[1..]);
    }
  }

  /** Filtering twice is filtering out the union. */
  lemma {:induction false} FilterOutTwice<T>(s: seq<T>, xs: set<T>, ys: set<T>)
    ensures FilterOut(FilterOut(s, xs), ys) == FilterOut(s, xs + ys)
    decreases |s|
  {
    if s != [] {
      FilterOutTwice(s[1..], xs, ys);
      if s[0] !in xs {
        assert FilterOut(s, xs) == [s[0]] + FilterOut(s[1..], xs);
        assert ([s[0]] + FilterOut(s[1..], xs))[1..] == FilterOut(s[1..], xs);
      }
    }
  }

  /** Python `s.remove(x)` when x is present: removes the first occurrence. */
  function RemoveFirst<T(==)>(s: seq<T>, x: T): (r: seq<T>)
    ensures forall y :: y in r ==> y in s
    ensures x in s ==> |r| == |s| - 1
    ensures x !in s ==> r == s
    decreases |s|
  {
    if s == [] then []
    else if s[0] == x then s[1..]
    else
      [s[0]] + RemoveFirst(s[1..], x)
  }

  /** `s.remove(x)` of a present x removes its first occurrence and keeps the order of the
      other elements. */
  lemma {:induction false} RemoveFirstOrder<T>(s: seq<T>, x: T)
    requires x in s
    ensures RemoveFirst(s, x) == s[..IndexOf(s, x)] + s[IndexOf(s, x) + 1..]
    decreases |s|
  {
    if s[0] != x {
      var t := s[1..];
      assert s == [s[0]] + t;
      RemoveFirstOrder(t, x);
      SpliceCons(s[0], t, IndexOf(t, x));
    }
  }

  /** Cutting position k out of a tail is cutting position k + 1 out of the whole. */
  lemma SpliceCons<T>(h: T, t: seq<T>, k: nat)
    requires k < |t|
    ensures [h] + t[..k] + t[k + 1..] == ([h] + t)[..k + 1] + ([h] + t)[k + 2..]
  {
    var s := [h] + t;
    assert s[..k + 1] == [h] + t[..k];
    assert s[k + 2..] == t[k + 1..];
  }

  /** In a duplicate-free sequence, removing the first occurrence removes every occurrence. */
  lemma {:induction false} RemoveFirstIsFilter<T>(s: seq<T>, x: T, xs: set<T>)
    requires NoDup(s)
    ensures RemoveFirst(FilterOut(s, xs), x) == FilterOut(s, xs + {x})
    decreases |s|
  {
    if s != [] {
      var t := s[1..];
      NoDupTail(s);
      RemoveFirstIsFilter(t, x, xs);
      if s[0] !in xs && s[0] == x {
        assert FilterOut(t, xs + {x}) == FilterOut(t, xs) by {
          FilterOutSame(t, xs, x);
        }
      }
    }
  }

  /** Filtering out an element that does not occur changes nothing. */
  lemma {:induction false} FilterOutSame<T>(s: seq<T>, xs: set<T>, x: T)
    requires x !in s
    ensures FilterOut(s, xs + {x}) == FilterOut(s, xs)
    decreases |s|
  {
    if s != [] {
      assert s[0] != x;
      assert x !in s[1..];
      FilterOutSame(s[1..], xs, x);
    }
  }

  /** Python `s.index(x)` wrapped in `try/except` returning -1. */
  function IndexOf<T(==)>(s: seq<T>, x: T): (r: int)
    ensures -1 <= r < |s|
    ensures r == -1 <==> x !in s
    ensures 0 <= r ==> s[r] == x && x !in s[..r]
    decreases |s|
  {
    if s == [] then -1
    else if s[0] == x then 0
    else
      var k := IndexOf(s[1..], x);
      if k == -1 then -1
      else
        assert s[..k + 1] == [s[0]] + s[1..][..k];
        k + 1
  }

  /** The sequence without position `j` (what deleting one aircraft does to a per-aircraft array). */
  function Delete<T>(s: seq<T>, j: nat): (r: seq<T>)
    requires j < |s|
    ensures |r| == |s| - 1
    ensures forall k :: 0 <= k < j ==> r[k] == s[k]
    ensures forall k :: j <= k < |r| ==> r[k] == s[k + 1]
  {
    s[..j] + s[j + 1..]
  }

  /** The elements of `s` at the positions where `keep` is true, in order. */
  function Select<T>(s: seq<T>, keep: seq<bool>): (r: seq<T>)
    requires |s| == |keep|
    ensures |r| == CountTrue(keep)
    decreases |s|
  {
    if s == [] then []
    else (if keep[0] then [s[0]] else []) + Select(s[1..], keep[1..])
  }

  /** The number of true entries. */
  function CountTrue(keep: seq<bool>): (c: nat)
    ensures c <= |keep|
    decreases |keep|
  {
    if keep == [] then 0 else (if keep[0] then 1 else 0) + CountTrue(keep[1..])
  }
}
