// Counting and mapping over sequences, and why the order of the elements does not matter.
module Folds {

  function Count<T>(p: T -> bool, s: seq<T>): nat {
    if s == [] then 0 else Count(p, s[..|s| - 1]) + if p(s[|s| - 1]) then 1 else 0
  }

  function FlatMap<T, U>(f: T -> seq<U>, s: seq<T>): seq<U> {
    if s == [] then [] else FlatMap(f, s[..|s| - 1]) + f(s[|s| - 1])
  }

  lemma PrefixStep<T>(s: seq<T>, i: nat)
    requires i < |s|
    ensures s[..i + 1] != [] && s[..i + 1][..|s[..i + 1]| - 1] == s[..i] && s[..i + 1][|s[..i + 1]| - 1] == s[i]
  {
  }

  lemma {:induction false} CountAppend<T>(p: T -> bool, s: seq<T>, t: seq<T>)
    ensures Count(p, s + t) == Count(p, s) + Count(p, t)
  {
    if t == [] {
      assert s + t == s;
    } else {
      assert (s + t)[..|s + t| - 1] == s + t[..|t| - 1];
      CountAppend(p, s, t[..|t| - 1]);
    }
  }

  lemma {:induction false} FlatMapAppend<T, U>(f: T -> seq<U>, s: seq<T>, t: seq<T>)
    ensures FlatMap(f, s + t) == FlatMap(f, s) + FlatMap(f, t)
  {
    if t == [] {
      assert s + t == s;
    } else {
      assert (s + t)[..|s + t| - 1] == s + t[..|t| - 1];
      FlatMapAppend(f, s, t[..|t| - 1]);
    }
  }

  lemma {:induction false} InFlatMap<T, U>(f: T -> seq<U>, s: seq<T>, y: U)
    ensures y in FlatMap(f, s) <==> exists x :: x in s && y in f(x)
  {
    if s != [] {
      InFlatMap(f, s[..|s| - 1], y);
      assert s == s[..|s| - 1] + [s[|s| - 1]];
    }
  }

  lemma {:induction false} CountAgrees<T>(p: T -> bool, q: T -> bool, s: seq<T>)
    requires forall x :: x in s ==> p(x) == q(x)
    ensures Count(p, s) == Count(q, s)
  {
    if s != [] {
      CountAgrees(p, q, s[..|s| - 1]);
    }
  }

  lemma {:induction false} CountBound<T>(p: T -> bool, s: seq<T>)
    ensures Count(p, s) <= |s|
    ensures Count(p, s) == 0 <==> forall x :: x in s ==> !p(x)
  {
    if s != [] {
      CountBound(p, s[..|s| - 1]);
      assert s == s[..|s| - 1] + [s[|s| - 1]];
    }
  }

  /** Two distinct positions that satisfy `p` make the count at least two. */
  lemma CountTwo<T>(p: T -> bool, s: seq<T>, i: nat, j: nat)
    requires i < j < |s| && p(s[i]) && p(s[j])
    ensures Count(p, s) >= 2
  {
    assert s == s[..i + 1] + s[i + 1..];
    CountAppend(p, s[..i + 1], s[i + 1..]);
    CountBound(p, s[..i + 1]);
    CountBound(p, s[i + 1..]);
    assert s[..i + 1][i] == s[i] && s[i + 1..][j - i - 1] == s[j];
  }

  /** With at most one hit, the hit is the same everywhere. */
  lemma CountOne<T>(p: T -> bool, s: seq<T>, i: nat, x: T)
    requires Count(p, s) <= 1 && i < |s| && p(s[i])
    ensures Count(p, s) == 1
    ensures forall j :: 0 <= j < |s| && p(s[j]) ==> j == i
    ensures x in s && p(x) ==> x == s[i]
  {
    CountBound(p, s);
    assert s[i] in s;
    forall j | 0 <= j < |s| && p(s[j]) ensures j == i {
      if i < j {
        CountTwo(p, s, i, j);
      } else if j < i {
        CountTwo(p, s, j, i);
      }
    }
  }

  /** The position of the last element of `s` in a rearrangement `t` of `s`. */
  lemma PermutedLast<T>(s: seq<T>, t: seq<T>) returns (j: nat)
    requires s != [] && multiset(s) == multiset(t)
    ensures j < |t| && t[j] == s[|s| - 1]
    ensures multiset(s[..|s| - 1]) == multiset(t[..j] + t[j + 1..])
    ensures t == t[..j] + [t[j]] + t[j + 1..]
  {
    var x := s[|s| - 1];
    assert x in multiset(s) && x in multiset(t);
    j :| 0 <= j < |t| && t[j] == x;
    assert s == s[..|s| - 1] + [x];
    assert t == t[..j] + [x] + t[j + 1..];
    var rest := multiset(t[..j] + t[j + 1..]);
    assert multiset(t) == rest + multiset{x};
    assert multiset(s) == multiset(s[..|s| - 1]) + multiset{x};
    assert multiset(s) - multiset{x} == multiset(s[..|s| - 1]) && multiset(t) - multiset{x} == rest;
  }

  lemma {:induction false} CountPermuted<T>(p: T -> bool, s: seq<T>, t: seq<T>)
    requires multiset(s) == multiset(t)
    ensures Count(p, s) == Count(p, t)
  {
    if s == [] {
      assert |t| == |multiset(t)| == |multiset(s)|;
    } else {
      var j := PermutedLast(s, t);
      CountPermuted(p, s[..|s| - 1], t[..j] + t[j + 1..]);
      CountAppend(p, t[..j] + [t[j]], t[j + 1..]);
      CountAppend(p, t[..j], [t[j]]);
      CountAppend(p, t[..j], t[j + 1..]);
      assert Count(p, [t[j]]) == if p(t[j]) then 1 else 0 by { assert [t[j]][..0] == []; }
    }
  }

  lemma {:induction false} FlatMapPermuted<T, U>(f: T -> seq<U>, g: T -> seq<U>, s: seq<T>, t: seq<T>)
    requires multiset(s) == multiset(t)
    requires forall x :: x in s ==> f(x) == g(x)
    ensures multiset(FlatMap(f, s)) == multiset(FlatMap(g, t))
  {
    if s == [] {
      assert |t| == |multiset(t)| == |multiset(s)|;
    } else {
      var j := PermutedLast(s, t);
      FlatMapPermuted(f, g, s[..|s| - 1], t[..j] + t[j + 1..]);
      FlatMapAppend(g, t[..j] + [t[j]], t[j + 1..]);
      FlatMapAppend(g, t[..j], [t[j]]);
      FlatMapAppend(g, t[..j], t[j + 1..]);
      assert FlatMap(g, [t[j]]) == g(t[j]) by { assert [t[j]][..0] == []; }
    }
  }

  // ---------- The values of a map ----------

  ghost function AnyOf<K>(s: set<K>): (k: K)
    requires s != {}
    ensures k in s
  {
    var k :| k in s;
    k
  }

  /** The values a map holds at the keys in `s`, each as often as it is held. */
  ghost function ValuesAt<K, V>(m: map<K, V>, s: set<K>): multiset<V>
    requires s <= m.Keys
  {
    if s == {} then multiset{} else ValuesAt(m, s - {AnyOf(s)}) + multiset{m[AnyOf(s)]}
  }

  lemma {:induction false} ValuesWithout<K, V>(m: map<K, V>, s: set<K>, k: K)
    requires s <= m.Keys && k in s
    ensures ValuesAt(m, s) == ValuesAt(m, s - {k}) + multiset{m[k]}
  {
    var j := AnyOf(s);
    if j != k {
      ValuesWithout(m, s - {j}, k);
      ValuesWithout(m, s - {k}, j);
      assert s - {j} - {k} == s - {k} - {j};
    }
  }

  lemma {:induction false} ValuesAgree<K, V>(m: map<K, V>, m': map<K, V>, s: set<K>)
    requires s <= m.Keys && s <= m'.Keys && forall k :: k in s ==> m[k] == m'[k]
    ensures ValuesAt(m, s) == ValuesAt(m', s)
  {
    if s != {} {
      ValuesAgree(m, m', s - {AnyOf(s)});
    }
  }
}
