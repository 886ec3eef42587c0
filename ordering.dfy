/** The key order in which `std::map` enumerates its entries: a total order,
    the ascending enumeration of a finite key set in that order, and the
    lexicographic order `std::string` uses. */
module Ordering {

  /** `le` is a total order (reflexive, antisymmetric, transitive, total). */
  ghost predicate TotalOrder<K(!new)>(le: (K, K) -> bool) {
    && (forall a :: le(a, a))
    && (forall a, b :: le(a, b) && le(b, a) ==> a == b)
    && (forall a, b, c :: le(a, b) && le(b, c) ==> le(a, c))
    && (forall a, b :: le(a, b) || le(b, a))
  }

  /** `m` is the least element of `s`. */
  predicate IsLeast<K>(m: K, s: set<K>, le: (K, K) -> bool) {
    m in s && forall x :: x in s ==> le(m, x)
  }

  /** Every element of `r` precedes every later one and differs from it. */
  ghost predicate StrictlyAscending<K(!new)>(r: seq<K>, le: (K, K) -> bool) {
    forall i, j :: 0 <= i < j < |r| ==> le(r[i], r[j]) && r[i] != r[j]
  }

  lemma LeastExists<K(!new)>(s: set<K>, le: (K, K) -> bool)
    requires s != {} && TotalOrder(le)
    ensures exists m :: IsLeast(m, s, le)
    decreases |s|
  {
    var x :| x in s;
    if s == {x} {
      assert IsLeast(x, s, le);
    } else {
      LeastExists(s - {x}, le);
      var m :| IsLeast(m, s - {x}, le);
      if le(m, x) {
        assert IsLeast(m, s, le);
      } else {
        assert IsLeast(x, s, le);
      }
    }
  }

  /** A total order has at most one least element per set. */
  lemma LeastUnique<K(!new)>(s: set<K>, le: (K, K) -> bool)
    requires TotalOrder(le)
    ensures forall a, b :: IsLeast(a, s, le) && IsLeast(b, s, le) ==> a == b
  {
  }

  /** The least element followed by the rest in ascending order is the whole
      set in ascending order. */
  lemma AscendingCons<K(!new)>(m: K, s: set<K>, tail: seq<K>, le: (K, K) -> bool)
    requires IsLeast(m, s, le)
    requires |tail| == |s - {m}| && (forall x :: x in tail <==> x in s - {m})
    requires StrictlyAscending(tail, le)
    ensures |[m] + tail| == |s| && (forall x :: x in [m] + tail <==> x in s)
    ensures StrictlyAscending([m] + tail, le)
  {
    var r := [m] + tail;
    forall i, j | 0 <= i < j < |r|
      ensures le(r[i], r[j]) && r[i] != r[j]
    {
      if i == 0 {
        assert r[j] == tail[j - 1] && r[j] in tail;
      } else {
        assert r[i] == tail[i - 1] && r[j] == tail[j - 1];
      }
    }
  }

  /** The keys of `s` in ascending order, as an iteration over a `std::map`
      with key set `s` visits them. */
  function Ascending<K(==,!new)>(s: set<K>, le: (K, K) -> bool): (r: seq<K>)
    requires TotalOrder(le)
    ensures |r| == |s|
    ensures forall x :: x in r <==> x in s
    ensures StrictlyAscending(r, le)
    decreases |s|
  {
    if s == {} then []
    else
      LeastExists(s, le);
      LeastUnique(s, le);
      var m :| IsLeast(m, s, le);
      var tail := Ascending(s - {m}, le);
      AscendingCons(m, s, tail, le);
      [m] + tail
  }

  /** The order of `std::map<char, …>` keys. */
  predicate CharLe(a: char, b: char) {
    a <= b
  }

  lemma CharLeTotal()
    ensures TotalOrder(CharLe)
  {
  }

  /** The order of `std::map<std::string, …>` keys: character by character,
      a proper prefix before its extensions. */
  predicate LexLe(a: string, b: string)
    decreases |a|
  {
    a == [] || (b != [] && (a[0] < b[0] || (a[0] == b[0] && LexLe(a[1..], b[1..]))))
  }

  lemma {:induction false} LexLeReflexive(a: string)
    ensures LexLe(a, a)
    decreases |a|
  {
    if a != [] { LexLeReflexive(a[1..]); }
  }

  lemma {:induction false} LexLeAntisymmetric(a: string, b: string)
    requires LexLe(a, b) && LexLe(b, a)
    ensures a == b
    decreases |a|
  {
    if a != [] {
      LexLeAntisymmetric(a[1..], b[1..]);
      assert a == [a[0]] + a[1..] && b == [b[0]] + b[1..];
    }
  }

  lemma {:induction false} LexLeTransitive(a: string, b: string, c: string)
    requires LexLe(a, b) && LexLe(b, c)
    ensures LexLe(a, c)
    decreases |a|
  {
    if a != [] && b != [] && c != [] && a[0] == b[0] == c[0] {
      LexLeTransitive(a[1..], b[1..], c[1..]);
    }
  }

  lemma {:induction false} LexLeTotalPair(a: string, b: string)
    ensures LexLe(a, b) || LexLe(b, a)
    decreases |a|
  {
    if a != [] && b != [] && a[0] == b[0] {
      LexLeTotalPair(a[1..], b[1..]);
    }
  }

  lemma LexLeTotal()
    ensures TotalOrder(LexLe)
  {
    forall a ensures LexLe(a, a) { LexLeReflexive(a); }
    forall a, b | LexLe(a, b) && LexLe(b, a) ensures a == b { LexLeAntisymmetric(a, b); }
    forall a, b, c | LexLe(a, b) && LexLe(b, c) ensures LexLe(a, c) { LexLeTransitive(a, b, c); }
    forall a, b ensures LexLe(a, b) || LexLe(b, a) { LexLeTotalPair(a, b); }
  }
}
