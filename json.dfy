/** The JSON value tree that the member portal receives from its API and
    edits in its profile form. An object is an ORDERED list of entries, in
    the order JavaScript enumerates its own properties; reading a property
    is `Lookup` and assigning one is `Put`. */
module Json {
  import opened Wrappers

  /** A JSON value. Numbers are restricted to integers. */
  datatype Value =
    | Null
    | Bool(b: bool)
    | Int(i: int)
    | Str(s: string)
    | Arr(items: seq<Value>)
    | Obj(entries: Entries)

  /** The own properties of an object, in enumeration order. */
  type Entries = seq<(string, Value)>

  /** A decimal digit `0`-`9`. */
  predicate IsDigit(c: char)
  {
    '0' <= c <= '9'
  }

  /** JavaScript truthiness: `!v` is true exactly when this is false. */
  predicate Truthy(v: Value)
  {
    match v
    case Null => false
    case Bool(b) => b
    case Int(i) => i != 0
    case Str(s) => s != ""
    case _ => true
  }

  /** Every object in the tree has distinct property names, as a parsed or
      JavaScript-built value does. */
  predicate WellFormed(v: Value)
  {
    match v
    case Arr(items) => forall i :: 0 <= i < |items| ==> WellFormed(items[i])
    case Obj(es) => DistinctKeys(es) && forall i :: 0 <= i < |es| ==> WellFormed(es[i].1)
    case _ => true
  }

  /** The set of property names of an entry list. */
  function KeySet<V>(es: seq<(string, V)>): (ks: set<string>)
    ensures forall e :: e in es ==> e.0 in ks
  {
    if es == [] then {} else {es[0].0} + KeySet(es[1..])
  }

  /** No property name occurs twice: what every JavaScript object satisfies. */
  predicate DistinctKeys<V>(es: seq<(string, V)>)
  {
    forall i, j :: 0 <= i < j < |es| ==> es[i].0 != es[j].0
  }

  /** The position of a name that occurs in an entry list. */
  function KeyIndex<V>(es: seq<(string, V)>, k: string): (i: nat)
    requires k in KeySet(es)
    ensures i < |es| && es[i].0 == k
  {
    if es[0].0 == k then 0 else 1 + KeyIndex(es[1..], k)
  }

  /** `obj[k]`: the value of the first entry named `k`, or `undefined`. */
  function Lookup<V>(es: seq<(string, V)>, k: string): (r: Option<V>)
    ensures r.None? <==> k !in KeySet(es)
    ensures r.Some? ==> (k, r.value) in es
  {
    if es == [] then None
    else if es[0].0 == k then Some(es[0].1)
    else Lookup(es[1..], k)
  }

  /** `obj[k] = v`: an existing property keeps its position and takes the new
      value, a new one is appended at the end. */
  function Put<V>(es: seq<(string, V)>, k: string, v: V): (r: seq<(string, V)>)
    ensures Lookup(r, k) == Some(v)
    ensures forall k' :: k' != k ==> Lookup(r, k') == Lookup(es, k')
    ensures KeySet(r) == KeySet(es) + {k}
  {
    if es == [] then [(k, v)]
    else if es[0].0 == k then
      assert ([(k, v)] + es[1..])[1..] == es[1..];
      [(k, v)] + es[1..]
    else
      var tail := Put(es[1..], k, v);
      assert ([es[0]] + tail)[1..] == tail;
      [es[0]] + tail
  }

  /** Assignment adds one entry for a new name and none for an existing
      one, keeps the names distinct, and every entry it leaves is an old
      one or the new one. */
  lemma {:induction false} PutShape<V>(es: seq<(string, V)>, k: string, v: V)
    ensures |Put(es, k, v)| == if k in KeySet(es) then |es| else |es| + 1
    ensures DistinctKeys(es) ==> DistinctKeys(Put(es, k, v))
    ensures forall e :: e in Put(es, k, v) ==> e in es || e == (k, v)
  {
    if es != [] && es[0].0 != k {
      PutShape(es[1..], k, v);
      var tail := Put(es[1..], k, v);
      assert Put(es, k, v) == [es[0]] + tail;
      if DistinctKeys(es) {
        if es[0].0 in KeySet(es[1..]) {
          var i := KeyIndex(es[1..], es[0].0);
          assert false;
        }
        assert es[0].0 !in KeySet(tail);
        forall i, j | 0 <= i < j < |[es[0]] + tail| ensures ([es[0]] + tail)[i].0 != ([es[0]] + tail)[j].0 {
          if i == 0 {
            assert tail[j - 1] in tail;
          }
        }
      }
    }
  }

  /** Assigning the same property twice leaves only the second value. */
  lemma {:induction false} PutPut<V>(es: seq<(string, V)>, k: string, a: V, b: V)
    ensures Put(Put(es, k, a), k, b) == Put(es, k, b)
  {
    if es != [] && es[0].0 != k {
      PutPut(es[1..], k, a, b);
    }
  }

  /** An entry list has at most one name per entry, and exactly one when no
      name repeats. */
  lemma {:induction false} KeySetSize<V>(es: seq<(string, V)>)
    ensures |KeySet(es)| <= |es|
    ensures DistinctKeys(es) ==> |KeySet(es)| == |es|
  {
    if es != [] {
      KeySetSize(es[1..]);
      if DistinctKeys(es) && es[0].0 in KeySet(es[1..]) {
        var i := KeyIndex(es[1..], es[0].0);
        assert false;
      }
    }
  }
}
