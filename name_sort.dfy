/** The decorate-sort-undecorate idiom both programs use: pair every id with its
    display name, sort the pairs with Python's `list.sort(key=lambda tup: tup[0],
    reverse=True)`, keep the ids. Python's sort is stable also under
    `reverse=True`, so the model is a stable insertion sort into non-increasing
    name order. */
module NameSort {

  /** Python's `<=` on `str`: lexicographic by code point. */
  predicate StrLe(a: string, b: string)
    decreases |a|
  {
    a == [] || (b != [] && (a[0] < b[0] || (a[0] == b[0] && StrLe(a[1..], b[1..]))))
  }

  lemma {:induction false} StrLeRefl(a: string)
    ensures StrLe(a, a)
    decreases |a|
  {
    if a != [] {
      StrLeRefl(a[1..]);
    }
  }

  lemma {:induction false} StrLeTotal(a: string, b: string)
    ensures StrLe(a, b) || StrLe(b, a)
    decreases |a|
  {
    if a != [] && b != [] && a[0] == b[0] {
      StrLeTotal(a[1..], b[1..]);
    }
  }

  lemma {:induction false} StrLeTrans(a: string, b: string, c: string)
    requires StrLe(a, b) && StrLe(b, c)
    ensures StrLe(a, c)
    decreases |a|
  {
    if a != [] && a[0] == b[0] && b[0] == c[0] {
      StrLeTrans(a[1..], b[1..], c[1..]);
    }
  }

  lemma {:induction false} StrLeAntisymmetric(a: string, b: string)
    requires StrLe(a, b) && StrLe(b, a)
    ensures a == b
    decreases |a|
  {
    if a != [] {
      StrLeAntisymmetric(a[1..], b[1..]);
      assert a == [a[0]] + a[1..] && b == [b[0]] + b[1..];
    }
  }

  /** Names never increase from left to right. */
  ghost predicate NonIncreasing<T>(s: seq<(string, T)>) {
    forall i, j :: 0 <= i < j < |s| ==> StrLe(s[j].0, s[i].0)
  }

  /** The pairs of `s` that carry the name `n`, in their order in `s`. */
  function WithName<T>(s: seq<(string, T)>, n: string): seq<(string, T)> {
    if s == [] then []
    else (if s[0].0 == n then [s[0]] else []) + WithName(s[1..], n)
  }

  /** Inserts `x` in front of the first pair whose name is not greater than
      its own, so `x` precedes every pair of equal name already there. */
  function InsertDesc<T>(x: (string, T), s: seq<(string, T)>): (r: seq<(string, T)>)
    ensures multiset(r) == multiset(s) + multiset{x}
  {
    if s == [] || StrLe(s[0].0, x.0) then [x] + s
    else
      assert s == [s[0]] + s[1..];
      [s[0]] + InsertDesc(x, s[1..])
  }

  /** The stable sort into non-increasing name order. */
  function SortDesc<T>(s: seq<(string, T)>): (r: seq<(string, T)>)
    ensures multiset(r) == multiset(s)
  {
    if s == [] then []
    else
      assert s == [s[0]] + s[1..];
      InsertDesc(s[0], SortDesc(s[1..]))
  }

  lemma {:induction false} InsertDescNonIncreasing<T>(x: (string, T), s: seq<(string, T)>)
    requires NonIncreasing(s)
    ensures NonIncreasing(InsertDesc(x, s))
  {
    if s == [] || StrLe(s[0].0, x.0) {
      var r := [x] + s;
      forall j | 0 < j < |r| ensures StrLe(r[j].0, x.0) {
        if j > 1 {
          StrLeTrans(r[j].0, s[0].0, x.0);
        }
      }
    } else {
      InsertDescNonIncreasing(x, s[1..]);
      var t := InsertDesc(x, s[1..]);
      var r := [s[0]] + t;
      StrLeTotal(s[0].0, x.0);
      forall j | 0 <= j < |t| ensures StrLe(t[j].0, s[0].0) {
        assert t[j] in multiset(s[1..]) + multiset{x};
        if t[j] != x {
          assert t[j] in s[1..];
        }
      }
    }
  }

  lemma {:induction false} SortDescNonIncreasing<T>(s: seq<(string, T)>)
    ensures NonIncreasing(SortDesc(s))
  {
    if s != [] {
      SortDescNonIncreasing(s[1..]);
      InsertDescNonIncreasing(s[0], SortDesc(s[1..]));
    }
  }

  lemma {:induction false} InsertDescWithName<T>(x: (string, T), s: seq<(string, T)>, n: string)
    ensures WithName(InsertDesc(x, s), n)
         == (if x.0 == n then [x] else []) + WithName(s, n)
  {
    var r := InsertDesc(x, s);
    if s == [] || StrLe(s[0].0, x.0) {
      assert r == [x] + s;
      assert r[0] == x && r[1..] == s;
    } else {
      var t := InsertDesc(x, s[1..]);
      assert r == [s[0]] + t;
      assert r[0] == s[0] && r[1..] == t;
      InsertDescWithName(x, s[1..], n);
      StrLeRefl(x.0);
      assert s[0].0 != x.0;
      var head := if s[0].0 == n then [s[0]] else [];
      assert WithName(r, n) == head + WithName(t, n);
      assert WithName(s, n) == head + WithName(s[1..], n);
      if x.0 == n {
        assert head == [];
      } else {
        assert WithName(t, n) == WithName(s[1..], n);
      }
    }
  }

  /** Stability: for every name, the pairs carrying it keep their relative order. */
  lemma {:induction false} SortDescStable<T>(s: seq<(string, T)>, n: string)
    ensures WithName(SortDesc(s), n) == WithName(s, n)
  {
    if s != [] {
      SortDescStable(s[1..], n);
      InsertDescWithName(s[0], SortDesc(s[1..]), n);
    }
  }

  /** Python's `[elem[1] for elem in names]`. */
  function Undecorate<T>(s: seq<(string, T)>): (r: seq<T>)
    ensures |r| == |s| && forall i :: 0 <= i < |s| ==> r[i] == s[i].1
  {
    if s == [] then [] else [s[0].1] + Undecorate(s[1..])
  }

  /** Every pair carries the name `names` gives its id. */
  ghost predicate Decorated<T>(s: seq<(string, T)>, names: map<T, string>) {
    forall i :: 0 <= i < |s| ==> s[i].1 in names && s[i].0 == names[s[i].1]
  }

  /** The ids of `ids` whose name is `n`, in their order in `ids`. */
  function IdsNamed<T>(ids: seq<T>, names: map<T, string>, n: string): seq<T> {
    if ids == [] then []
    else (if ids[0] in names && names[ids[0]] == n then [ids[0]] else []) + IdsNamed(ids[1..], names, n)
  }

  lemma {:induction false} UndecorateInsertDesc<T>(x: (string, T), s: seq<(string, T)>)
    ensures multiset(Undecorate(InsertDesc(x, s))) == multiset(Undecorate(s)) + multiset{x.1}
  {
    if s == [] || StrLe(s[0].0, x.0) {
      assert Undecorate([x] + s) == [x.1] + Undecorate(s);
    } else {
      UndecorateInsertDesc(x, s[1..]);
      assert Undecorate(InsertDesc(x, s)) == [s[0].1] + Undecorate(InsertDesc(x, s[1..]));
      assert Undecorate(s) == [s[0].1] + Undecorate(s[1..]);
    }
  }

  lemma {:induction false} UndecorateSortDesc<T>(s: seq<(string, T)>)
    ensures multiset(Undecorate(SortDesc(s))) == multiset(Undecorate(s))
  {
    if s != [] {
      UndecorateSortDesc(s[1..]);
      UndecorateInsertDesc(s[0], SortDesc(s[1..]));
      assert Undecorate(s) == [s[0].1] + Undecorate(s[1..]);
    }
  }

  lemma {:induction false} UndecorateAppend<T>(s: seq<(string, T)>, t: seq<(string, T)>)
    ensures Undecorate(s + t) == Undecorate(s) + Undecorate(t)
  {
    var a, b := Undecorate(s + t), Undecorate(s) + Undecorate(t);
    assert |a| == |b|;
    forall i | 0 <= i < |a| ensures a[i] == b[i] {
      if i < |s| {
        assert (s + t)[i] == s[i];
      } else {
        assert (s + t)[i] == t[i - |s|];
      }
    }
  }

  lemma {:induction false} UndecorateWithName<T>(s: seq<(string, T)>, names: map<T, string>, n: string)
    requires Decorated(s, names)
    ensures IdsNamed(Undecorate(s), names, n) == Undecorate(WithName(s, n))
  {
    if s != [] {
      UndecorateWithName(s[1..], names, n);
      var u := Undecorate(s);
      assert u[1..] == Undecorate(s[1..]);
      UndecorateAppend(if s[0].0 == n then [s[0]] else [], WithName(s[1..], n));
    }
  }

  /** What the decorate-sort-undecorate passes promise together: the sorted ids
      are a permutation of the decorated ones, their names never increase, and
      ids of equal name keep their relative order. */
  lemma SortByNameCorrect<T>(d: seq<(string, T)>, names: map<T, string>)
    requires Decorated(d, names)
    ensures var out := Undecorate(SortDesc(d));
      && multiset(out) == multiset(Undecorate(d))
      && (forall i :: 0 <= i < |out| ==> out[i] in names)
      && (forall i, j :: 0 <= i < j < |out| ==> StrLe(names[out[j]], names[out[i]]))
      && (forall n :: IdsNamed(out, names, n) == IdsNamed(Undecorate(d), names, n))
  {
    var sorted := SortDesc(d);
    UndecorateSortDesc(d);
    SortDescNonIncreasing(d);
    assert Decorated(sorted, names) by {
      forall i | 0 <= i < |sorted| ensures sorted[i].1 in names && sorted[i].0 == names[sorted[i].1] {
        assert sorted[i] in multiset(d);
      }
    }
    forall n ensures IdsNamed(Undecorate(sorted), names, n) == IdsNamed(Undecorate(d), names, n) {
      UndecorateWithName(sorted, names, n);
      UndecorateWithName(d, names, n);
      SortDescStable(d, n);
    }
  }
}
