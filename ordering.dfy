/** The iteration order of the C++ ordered containers the servers use:
    `std::map<std::string, int>` walks its names in ascending
    `std::string` order, and `std::map<std::pair<std::string, std::string>, Game>`
    walks its keys in ascending `std::pair` order. */
module Ordering {
  import opened Bytes

  /** `less` is irreflexive, transitive and total: a strict total order. */
  ghost predicate StrictTotalOrder<K(!new)>(less: (K, K) -> bool) {
    && (forall a :: !less(a, a))
    && (forall a, b, c :: less(a, b) && less(b, c) ==> less(a, c))
    && (forall a, b :: a != b ==> less(a, b) || less(b, a))
  }

  predicate Sorted<K>(less: (K, K) -> bool, s: seq<K>) {
    forall i, j | 0 <= i < j < |s| :: less(s[i], s[j])
  }

  /** `k` is the least element of `s`. */
  predicate IsLeast<K>(less: (K, K) -> bool, k: K, s: set<K>) {
    k in s && forall j | j in s && j != k :: less(k, j)
  }

  lemma {:induction false} LeastExists<K(!new)>(less: (K, K) -> bool, s: set<K>)
    requires StrictTotalOrder(less)
    requires s != {}
    ensures exists k :: IsLeast(less, k, s)
    decreases |s|
  {
    var x :| x in s;
    if s != {x} {
      var rest := s - {x};
      LeastExists(less, rest);
      var m :| IsLeast(less, m, rest);
      if less(x, m) {
        forall j | j in s && j != x ensures less(x, j) {
          if j != m {
            assert less(m, j);
          }
        }
        assert IsLeast(less, x, s);
      } else {
        assert IsLeast(less, m, s);
      }
    } else {
      assert IsLeast(less, x, s);
    }
  }

  lemma LeastUnique<K(!new)>(less: (K, K) -> bool, s: set<K>)
    requires StrictTotalOrder(less)
    ensures forall k, k' | IsLeast(less, k, s) && IsLeast(less, k', s) :: k == k'
  {
    forall k, k' | IsLeast(less, k, s) && IsLeast(less, k', s)
      ensures k == k'
    {
      assert less(k, k') ==> !less(k', k);
    }
  }

  /** The elements of `s` in ascending order, as an ordered container's
      iterator visits them. */
  function Ascending<K(!new)>(s: set<K>, less: (K, K) -> bool): (r: seq<K>)
    requires StrictTotalOrder(less)
    ensures forall k :: k in r <==> k in s
    ensures Sorted(less, r)
    ensures |r| == |s|
    decreases |s|
  {
    if s == {} then []
    else
      LeastExists(less, s);
      LeastUnique(less, s);
      var k :| IsLeast(less, k, s);
      [k] + Ascending(s - {k}, less)
  }

  /** `std::string`'s `operator<`: lexicographic on octets compared as
      unsigned characters, a proper prefix sorting first. */
  predicate LexLess(a: Bytes, b: Bytes)
    decreases |a|
  {
    |b| > 0 && (|a| == 0 || a[0] < b[0] || (a[0] == b[0] && LexLess(a[1..], b[1..])))
  }

  lemma {:induction false} LexLessIrreflexive(a: Bytes)
    ensures !LexLess(a, a)
    decreases |a|
  {
    if |a| > 0 {
      LexLessIrreflexive(a[1..]);
    }
  }

  lemma {:induction false} LexLessTransitive(a: Bytes, b: Bytes, c: Bytes)
    requires LexLess(a, b) && LexLess(b, c)
    ensures LexLess(a, c)
    decreases |a|
  {
    if |a| > 0 && a[0] == b[0] && b[0] == c[0] {
      LexLessTransitive(a[1..], b[1..], c[1..]);
    }
  }

  lemma {:induction false} LexLessTotal(a: Bytes, b: Bytes)
    requires a != b
    ensures LexLess(a, b) || LexLess(b, a)
    decreases |a|
  {
    if |a| > 0 && |b| > 0 && a[0] == b[0] {
      assert a == [a[0]] + a[1..] && b == [b[0]] + b[1..];
      LexLessTotal(a[1..], b[1..]);
    }
  }

  lemma LexLessAsymmetric(a: Bytes, b: Bytes)
    requires LexLess(a, b)
    ensures !LexLess(b, a)
  {
    if LexLess(b, a) {
      LexLessTransitive(a, b, a);
      LexLessIrreflexive(a);
    }
  }

  /** The name order is a strict total order, so a map of names has one
      iteration order. */
  lemma LexLessIsStrictTotal()
    ensures StrictTotalOrder(LexLess)
  {
    forall a | true ensures !LexLess(a, a) { LexLessIrreflexive(a); }
    forall a, b, c | LexLess(a, b) && LexLess(b, c) ensures LexLess(a, c) {
      LexLessTransitive(a, b, c);
    }
    forall a, b | a != b ensures LexLess(a, b) || LexLess(b, a) { LexLessTotal(a, b); }
  }

  /** A game key: the two player names, smaller first. */
  type NamePair = (Bytes, Bytes)

  /** `std::pair`'s `operator<`: compare the first components, and the second
      ones when neither first component is smaller. */
  predicate PairLess(p: NamePair, q: NamePair) {
    LexLess(p.0, q.0) || (!LexLess(q.0, p.0) && LexLess(p.1, q.1))
  }

  lemma PairLessIsStrictTotal()
    ensures StrictTotalOrder(PairLess)
  {
    LexLessIsStrictTotal();
    forall p, q, r | PairLess(p, q) && PairLess(q, r) ensures PairLess(p, r) {
      if LexLess(p.0, q.0) || LexLess(q.0, r.0) {
        assert p.0 == q.0 || LexLess(p.0, q.0);
        assert q.0 == r.0 || LexLess(q.0, r.0);
        assert LexLess(p.0, r.0);
      }
    }
    forall p: NamePair, q: NamePair | p != q ensures PairLess(p, q) || PairLess(q, p) {
      if p.0 == q.0 {
        assert p.1 != q.1;
      }
    }
  }

  lemma PairLessIrreflexive(p: NamePair)
    ensures !PairLess(p, p)
  {
    LexLessIrreflexive(p.0);
    LexLessIrreflexive(p.1);
  }

  lemma PairLessAsymmetric(p: NamePair, q: NamePair)
    requires PairLess(p, q)
    ensures !PairLess(q, p)
  {
    if LexLess(p.0, q.0) {
      LexLessAsymmetric(p.0, q.0);
    } else {
      LexLessAsymmetric(p.1, q.1);
    }
  }

  /** Registered names in the order `for (auto client : clients)` visits them. */
  function SortedNames(names: set<Bytes>): (r: seq<Bytes>)
    ensures forall n :: n in r <==> n in names
    ensures Sorted(LexLess, r)
    ensures |r| == |names|
  {
    LexLessIsStrictTotal();
    Ascending(names, LexLess)
  }

  /** Game keys in the order `for (auto& game : activeGames)` visits them. */
  function SortedPairs(keys: set<NamePair>): (r: seq<NamePair>)
    ensures forall k :: k in r <==> k in keys
    ensures Sorted(PairLess, r)
    ensures |r| == |keys|
  {
    PairLessIsStrictTotal();
    Ascending(keys, PairLess)
  }
}
