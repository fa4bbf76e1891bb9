/** Facts about finite sets and maps that several components use. */
module Collections {

  datatype Option<+T> = None | Some(value: T)

  ghost function Pick<T>(s: set<T>): (x: T)
    requires s != {}
    ensures x in s
  {
    var x :| x in s; x
  }

  ghost function KeyFor<K, V>(m: map<K, V>, v: V): (k: K)
    requires v in m.Values
    ensures k in m && m[k] == v
  {
    var k :| k in m && m[k] == v; k
  }

  function RemoveAt<T>(s: seq<T>, i: nat): (r: seq<T>)
    requires i < |s|
    ensures |r| == |s| - 1 && forall j :: 0 <= j < |r| ==> r[j] == s[if j < i then j else j + 1]
  {
    s[..i] + s[i + 1..]
  }

  function InsertAt<T>(s: seq<T>, k: nat, x: T): (r: seq<T>)
    requires k <= |s|
    ensures |r| == |s| + 1 && r[k] == x
    ensures forall j :: 0 <= j < |r| && j != k ==> r[j] == s[if j < k then j else j - 1]
  {
    s[..k] + [x] + s[k..]
  }

  lemma {:induction false} SubsetSize<T>(a: set<T>, b: set<T>)
    requires a <= b
    ensures |a| <= |b|
  {
    if a != {} {
      var x := Pick(a);
      SubsetSize(a - {x}, b - {x});
    }
  }

  lemma ProperSubsetSize<T>(a: set<T>, b: set<T>, x: T)
    requires a <= b && x in b && x !in a
    ensures |a| < |b|
  {
    SubsetSize(a, b - {x});
  }

  lemma OneMoreSize<T>(s: set<T>, x: T)
    requires x !in s
    ensures |s + {x}| == |s| + 1
  {
  }

  /** One key more, while a loop goes over the keys that are left. */
  lemma KeyAdded<K, V>(m: map<K, V>, all: set<K>, rest: set<K>, k: K, v: V)
    requires m.Keys == all - rest && k in rest && rest <= all
    ensures m[k := v].Keys == all - (rest - {k})
  {
  }

  lemma SameSet<T>(a: set<T>, b: set<T>)
    requires forall x :: x in a <==> x in b
    ensures a == b
  {
  }

  lemma SameMap<K, V>(m: map<K, V>, n: map<K, V>)
    requires m.Keys == n.Keys && forall k :: k in m ==> m[k] == n[k]
    ensures m == n
  {
  }

  /** Some element of a set, for loops over a set in any order. */
  method PickOne<T(==)>(s: set<T>) returns (x: T)
    requires s != {}
    ensures x in s
  {
    x :| x in s;
  }
}
