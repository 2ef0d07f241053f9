/** Optional values. */
module Wrappers {
  datatype Option<+T> = None | Some(value: T)
}

/** An insertion-ordered dictionary: the order `keys` lists is the order iteration sees. */
module OrderedDict {
  datatype Dict<K(==), V> = Dict(keys: seq<K>, at: map<K, V>) {

    ghost predicate Valid() {
      && (forall i, j :: 0 <= i < j < |keys| ==> keys[i] != keys[j])
      && at.Keys == set k | k in keys
    }

    /** Assignment: a new key goes last, an old one keeps its place. */
    function Set(key: K, value: V): (d: Dict<K, V>)
      requires Valid()
      ensures d.Valid() && d.at == at[key := value]
    {
      if key in at then Dict(keys, at[key := value])
      else
        var d := Dict(keys + [key], at[key := value]);
        assert d.at.Keys == set k | k in d.keys;
        d
    }
  }

  function Empty<K, V>(): (d: Dict<K, V>)
    ensures d.Valid()
  {
    Dict([], map[])
  }
}

/** Strings in code-point order, and the sorted listing of a finite set of them. */
module Sorting {

  predicate Le(a: string, b: string) {
    a == [] || (b != [] && (a[0] < b[0] || (a[0] == b[0] && Le(a[1..], b[1..]))))
  }

  /** `a` is the start of `b`, or smaller where they first differ. */
  lemma {:induction false} LeMeans(a: string, b: string)
    ensures Le(a, b) <==> a <= b || exists i :: 0 <= i < |a| && i < |b| && a[..i] == b[..i] && a[i] < b[i]
  {
    if a != [] && b != [] {
      if a[0] == b[0] {
        LeMeans(a[1..], b[1..]);
        assert a == [a[0]] + a[1..] && b == [b[0]] + b[1..];
        assert a <= b <==> a[1..] <= b[1..];
        if i :| 0 <= i < |a[1..]| && i < |b[1..]| && a[1..][..i] == b[1..][..i] && a[1..][i] < b[1..][i] {
          assert a[..i + 1] == [a[0]] + a[1..][..i] && b[..i + 1] == [b[0]] + b[1..][..i];
          assert a[i + 1] < b[i + 1];
        }
        if i :| 0 <= i < |a| && i < |b| && a[..i] == b[..i] && a[i] < b[i] {
          assert a[1..][..i - 1] == a[..i][1..] && b[1..][..i - 1] == b[..i][1..];
          assert a[1..][i - 1] < b[1..][i - 1];
        }
      } else if a[0] < b[0] {
        assert a[..0] == b[..0];
      } else {
        assert forall i | 0 < i <= |a| && i <= |b| :: a[..i][0] == a[0] && b[..i][0] == b[0];
      }
    }
  }

  lemma LeTotal(a: string, b: string)
    ensures Le(a, b) || Le(b, a)
  {
    if a != [] && b != [] && a[0] == b[0] {
      LeTotal(a[1..], b[1..]);
    }
  }

  lemma LeAntisymmetric(a: string, b: string)
    requires Le(a, b) && Le(b, a)
    ensures a == b
  {
    if a != [] && b != [] {
      LeAntisymmetric(a[1..], b[1..]);
      assert a == [a[0]] + a[1..] && b == [b[0]] + b[1..];
    }
  }

  lemma LeTransitive(a: string, b: string, c: string)
    requires Le(a, b) && Le(b, c)
    ensures Le(a, c)
  {
    if a != [] && a[0] == b[0] == c[0] {
      LeTransitive(a[1..], b[1..], c[1..]);
    }
  }

  predicate IsLeast(m: string, s: set<string>) {
    m in s && forall y | y in s :: Le(m, y)
  }

  lemma LeastExists(s: set<string>) returns (m: string)
    requires s != {}
    ensures IsLeast(m, s)
  {
    var x :| x in s;
    LeTotal(x, x);
    if s == {x} {
      m := x;
    } else {
      var rest := s - {x};
      var y := LeastExists(rest);
      LeTotal(x, y);
      m := if Le(x, y) then x else y;
      forall z | z in s ensures Le(m, z) {
        if z in rest && m == x {
          LeTransitive(x, y, z);
        }
      }
    }
  }

  lemma LeastUnique(s: set<string>)
    ensures forall m, n | IsLeast(m, s) && IsLeast(n, s) :: m == n
  {
    forall m, n | IsLeast(m, s) && IsLeast(n, s) ensures m == n {
      LeAntisymmetric(m, n);
    }
  }

  /** `order` lists every element of `s` once. */
  ghost predicate Lists(order: seq<string>, s: set<string>) {
    && (forall i, j :: 0 <= i < j < |order| ==> order[i] != order[j])
    && forall x :: x in order <==> x in s
  }

  ghost predicate Ascending(order: seq<string>) {
    forall i, j :: 0 <= i < j < |order| ==> Le(order[i], order[j])
  }

  lemma ListsCons(m: string, rest: seq<string>, s: set<string>)
    requires IsLeast(m, s) && Lists(rest, s - {m}) && Ascending(rest)
    ensures Lists([m] + rest, s) && Ascending([m] + rest)
  {
    var order := [m] + rest;
    forall i, j | 0 <= i < j < |order| ensures order[i] != order[j] && Le(order[i], order[j]) {
      assert order[j] == rest[j - 1] && rest[j - 1] in s - {m};
      if i > 0 {
        assert order[i] == rest[i - 1];
      }
    }
  }

  /** Python's `sorted` on a set of strings. */
  function Sorted(s: set<string>): (order: seq<string>)
    ensures Lists(order, s) && Ascending(order)
  {
    if s == {} then []
    else
      assert exists m :: IsLeast(m, s) by { var m := LeastExists(s); }
      LeastUnique(s);
      var m :| m in s && IsLeast(m, s);
      ListsCons(m, Sorted(s - {m}), s);
      [m] + Sorted(s - {m})
  }
}
