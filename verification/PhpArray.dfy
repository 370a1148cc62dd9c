/** The ordered arrays of PHP, as far as the step list uses them: integer keys in insertion order. */
module PhpArray {

  datatype Entry<V> = Entry(key: int, value: V)

  ghost predicate DistinctKeys<V>(es: seq<Entry<V>>) {
    forall i, j :: 0 <= i < j < |es| ==> es[i].key != es[j].key
  }

  /** `isset($a[$k])` */
  predicate HasKey<V>(es: seq<Entry<V>>, k: int) {
    exists i :: 0 <= i < |es| && es[i].key == k
  }

  /** `$a[$k]` */
  function Get<V>(es: seq<Entry<V>>, k: int): V
    requires HasKey(es, k)
  {
    if es[0].key == k then es[0].value else Get(es[1..], k)
  }

  /** `unset($a[$k])` */
  function Unset<V>(es: seq<Entry<V>>, k: int): seq<Entry<V>> {
    if es == [] then [] else (if es[0].key == k then [] else [es[0]]) + Unset(es[1..], k)
  }

  function Replace<V>(es: seq<Entry<V>>, k: int, v: V): (r: seq<Entry<V>>)
    ensures |r| == |es|
    ensures forall i :: 0 <= i < |es| ==> r[i] == if es[i].key == k then Entry(k, v) else es[i]
  {
    seq(|es|, i requires 0 <= i < |es| => if es[i].key == k then Entry(k, v) else es[i])
  }

  /** `$a[$k] = $v`: in place when the key is there, else at the end. */
  function Assign<V>(es: seq<Entry<V>>, k: int, v: V): seq<Entry<V>> {
    if HasKey(es, k) then Replace(es, k, v) else es + [Entry(k, v)]
  }

  /** The key that array_push takes: one above the largest, and never negative. */
  function NextKey<V>(es: seq<Entry<V>>): (k: nat)
    ensures forall i :: 0 <= i < |es| ==> es[i].key < k
    ensures k > 0 ==> exists i :: 0 <= i < |es| && es[i].key == k - 1
  {
    if es == [] then 0 else
      var k := NextKey(es[1..]);
      if es[0].key >= k then es[0].key + 1 else k
  }

  /** `array_values`, and `array_merge` of one list: keys 0, 1, 2, ... */
  function Dense<V>(vs: seq<V>): (es: seq<Entry<V>>)
    ensures |es| == |vs| && forall i :: 0 <= i < |vs| ==> es[i] == Entry(i, vs[i])
  {
    seq(|vs|, i requires 0 <= i < |vs| => Entry(i, vs[i]))
  }

  function Values<V>(es: seq<Entry<V>>): (vs: seq<V>)
    ensures |vs| == |es| && forall i :: 0 <= i < |es| ==> vs[i] == es[i].value
  {
    seq(|es|, i requires 0 <= i < |es| => es[i].value)
  }

  // ---- Laws ----

  lemma {:induction false} UnsetAppend<V>(a: seq<Entry<V>>, b: seq<Entry<V>>, k: int)
    ensures Unset(a + b, k) == Unset(a, k) + Unset(b, k)
  {
    if a == [] {
      assert a + b == b;
    } else {
      assert (a + b)[1..] == a[1..] + b;
      UnsetAppend(a[1..], b, k);
    }
  }

  lemma {:induction false} UnsetAbsent<V>(es: seq<Entry<V>>, k: int)
    requires !HasKey(es, k)
    ensures Unset(es, k) == es
  {
    if es != [] {
      assert es[0].key != k && !HasKey(es[1..], k);
      UnsetAbsent(es[1..], k);
    }
  }

  lemma {:induction false} GetAt<V>(es: seq<Entry<V>>, i: nat)
    requires DistinctKeys(es) && i < |es|
    ensures HasKey(es, es[i].key) && Get(es, es[i].key) == es[i].value
  {
    if i > 0 {
      assert es[1..][i - 1] == es[i];
      GetAt(es[1..], i - 1);
    }
  }

  /** Unset keeps the other entries, in order. */
  lemma {:induction false} UnsetKeys<V>(es: seq<Entry<V>>, k: int)
    ensures forall e {:trigger e in Unset(es, k)} :: e in Unset(es, k) ==> e in es && e.key != k
    ensures forall e {:trigger e in es} :: e in es && e.key != k ==> e in Unset(es, k)
  {
    if es != [] {
      UnsetKeys(es[1..], k);
      forall e | e in es && e.key != k
        ensures e in Unset(es, k)
      {
        assert e == es[0] || e in es[1..];
      }
    }
  }

  lemma {:induction false} UnsetDistinct<V>(es: seq<Entry<V>>, k: int)
    requires DistinctKeys(es)
    ensures DistinctKeys(Unset(es, k))
  {
    if es != [] {
      var rest := Unset(es[1..], k);
      UnsetDistinct(es[1..], k);
      UnsetKeys(es[1..], k);
      forall i | 0 <= i < |rest|
        ensures rest[i].key != es[0].key
      {
        var e := rest[i];
        assert e in rest && e in es[1..];
      }
    }
  }

  lemma {:induction false} AssignKeys<V>(es: seq<Entry<V>>, k: int, v: V)
    requires DistinctKeys(es)
    ensures DistinctKeys(Assign(es, k, v))
  {
  }

  lemma {:induction false} AssignTwice<V>(es: seq<Entry<V>>, k: int, v: V, w: V)
    ensures Assign(Assign(es, k, v), k, w) == Assign(es, k, w)
  {
    if HasKey(es, k) {
      var i :| 0 <= i < |es| && es[i].key == k;
      assert Replace(es, k, v)[i].key == k;
    } else {
      assert (es + [Entry(k, v)])[|es|].key == k;
    }
  }

  lemma {:induction false} ReplaceUnset<V>(es: seq<Entry<V>>, k: int, v: V, j: int)
    requires j != k
    ensures Unset(Replace(es, k, v), j) == Replace(Unset(es, j), k, v)
  {
    if es != [] {
      ReplaceUnset(es[1..], k, v, j);
      var head := if es[0].key == j then [] else [es[0]];
      assert Replace(es, k, v)[1..] == Replace(es[1..], k, v);
      assert Replace(head + Unset(es[1..], j), k, v) == Replace(head, k, v) + Replace(Unset(es[1..], j), k, v);
    }
  }

  lemma {:induction false} UnsetHasKey<V>(es: seq<Entry<V>>, k: int, j: int)
    requires j != k
    ensures HasKey(Unset(es, j), k) <==> HasKey(es, k)
  {
    UnsetKeys(es, j);
    HasKeyIn(es, k);
    HasKeyIn(Unset(es, j), k);
  }

  lemma {:induction false} HasKeyIn<V>(es: seq<Entry<V>>, k: int)
    ensures HasKey(es, k) <==> exists e :: e in es && e.key == k
  {
  }

  lemma {:induction false} AssignUnset<V>(es: seq<Entry<V>>, k: int, v: V, j: int)
    requires j != k
    ensures Unset(Assign(es, k, v), j) == Assign(Unset(es, j), k, v)
  {
    ReplaceUnset(es, k, v, j);
    UnsetHasKey(es, k, j);
    if !HasKey(es, k) {
      UnsetAppend(es, [Entry(k, v)], j);
      assert Unset([Entry(k, v)], j) == [Entry(k, v)];
    }
  }
}
