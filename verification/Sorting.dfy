/**
 * A stand-in for `std::sort`.  The clients rely only on the contract: the result is a
 * rearrangement of the input, in nondecreasing key order.
 */
module Sorting {

  /** A pair of integers in lexicographic order. */
  datatype SortKey = Key(major: int, minor: int)

  predicate KeyAtMost(x: SortKey, y: SortKey) {
    x.major < y.major || (x.major == y.major && x.minor <= y.minor)
  }

  ghost predicate SortedByKey<T>(s: seq<T>, key: T -> SortKey) {
    forall i, j :: 0 <= i < j < |s| ==> KeyAtMost(key(s[i]), key(s[j]))
  }

  function Insert<T>(x: T, s: seq<T>, key: T -> SortKey): (r: seq<T>)
    ensures multiset(r) == multiset(s) + multiset{x}
  {
    if s == [] || KeyAtMost(key(x), key(s[0])) then [x] + s
    else
      assert s == [s[0]] + s[1..];
      [s[0]] + Insert(x, s[1..], key)
  }

  lemma {:induction false} InsertKeepsOrder<T>(x: T, s: seq<T>, key: T -> SortKey)
    requires SortedByKey(s, key)
    ensures SortedByKey(Insert(x, s, key), key)
  {
    if s == [] {
    } else if KeyAtMost(key(x), key(s[0])) {
      forall i | 0 <= i < |s| ensures KeyAtMost(key(x), key(s[i])) {
        assert i > 0 ==> KeyAtMost(key(s[0]), key(s[i]));
      }
      ConsSorted(x, s, key);
    } else {
      hide KeyAtMost;
      var t := Insert(x, s[1..], key);
      InsertKeepsOrder(x, s[1..], key);
      AtMostTotal(key(x), key(s[0]));
      forall i | 0 <= i < |t| ensures KeyAtMost(key(s[0]), key(t[i])) {
        assert t[i] in multiset(t);
        if t[i] != x {
          assert t[i] in s[1..];
          var k :| 0 <= k < |s[1..]| && s[1..][k] == t[i];
          assert s[k + 1] == t[i];
        }
      }
      ConsSorted(s[0], t, key);
    }
  }

  lemma AtMostTotal(x: SortKey, y: SortKey)
    ensures KeyAtMost(x, y) || KeyAtMost(y, x)
  {
  }

  lemma ConsSorted<T>(x: T, s: seq<T>, key: T -> SortKey)
    requires SortedByKey(s, key) && forall i :: 0 <= i < |s| ==> KeyAtMost(key(x), key(s[i]))
    ensures SortedByKey([x] + s, key)
  {
    hide KeyAtMost;
    var r := [x] + s;
    forall i, j | 0 <= i < j < |r| ensures KeyAtMost(key(r[i]), key(r[j])) {
      assert r[j] == s[j - 1];
      if i > 0 { assert r[i] == s[i - 1]; }
    }
  }

  function Sort<T>(s: seq<T>, key: T -> SortKey): (r: seq<T>)
    ensures multiset(r) == multiset(s)
  {
    if s == [] then [] else
      assert s == [s[0]] + s[1..];
      Insert(s[0], Sort(s[1..], key), key)
  }

  lemma {:induction false} SortSorts<T>(s: seq<T>, key: T -> SortKey)
    ensures SortedByKey(Sort(s, key), key)
  {
    if s != [] {
      SortSorts(s[1..], key);
      InsertKeepsOrder(s[0], Sort(s[1..], key), key);
    }
  }

  /** One element taken out of a sequence. */
  lemma Without<T>(s: seq<T>, k: nat)
    requires k < |s|
    ensures multiset(s[..k] + s[k + 1..]) == multiset(s) - multiset{s[k]}
  {
    assert s == s[..k] + [s[k]] + s[k + 1..];
  }

  lemma SameWithout<T>(a: seq<T>, b: seq<T>, k: nat)
    requires multiset(a) == multiset(b) && a != [] && k < |b| && b[k] == a[0]
    ensures multiset(a[..0] + a[1..]) == multiset(b[..k] + b[k + 1..])
  {
    Without(a, 0);
    Without(b, k);
  }
}
