/**
 * PHP arrays as the store uses them: ordered dictionaries from string keys
 * to values, where a value is null, a scalar, or another such array.
 * Assigning `$a[$k] = $v` overwrites an existing key in place and appends a
 * new key at the end (`Put`); `unset($a[$k])` removes the key (`Remove`).
 */
module PhpArray {

  datatype Option<T> = None | Some(value: T)

  /**
   * A stored value. `Scalar` stands for every non-null value that is not an
   * array (string, int, bool, object ...): the store never looks inside one.
   */
  datatype Value = Null | Scalar(data: string) | Arr(entries: seq<Entry>)

  datatype Entry = Entry(key: string, val: Value)

  /** A size that shrinks on every sub-array and on every shorter key. */
  function Size(v: Value): nat
    decreases v, 1
  {
    match v
    case Arr(es) => 1 + EntriesSize(es)
    case _ => 0
  }

  function EntriesSize(es: seq<Entry>): nat
    decreases es, 0
  {
    if es == [] then 0 else 1 + |es[0].key| + Size(es[0].val) + EntriesSize(es[1..])
  }

  /** Every entry weighs less than the array it sits in. */
  lemma {:induction false} EntryWeighsLess(es: seq<Entry>, i: nat)
    requires i < |es|
    ensures 1 + |es[i].key| + Size(es[i].val) <= EntriesSize(es)
  {
    if i > 0 {
      EntryWeighsLess(es[1..], i - 1);
    }
  }

  function KeySet(es: seq<Entry>): set<string>
  {
    if es == [] then {} else {es[0].key} + KeySet(es[1..])
  }

  /** A PHP array never holds the same key twice. */
  predicate Keyed(es: seq<Entry>)
  {
    es == [] || (es[0].key !in KeySet(es[1..]) && Keyed(es[1..]))
  }

  /** `array_key_exists($k, $a) ? $a[$k] : (absent)`. */
  function Find(es: seq<Entry>, k: string): (r: Option<Value>)
    ensures r.Some? <==> k in KeySet(es)
    ensures r.Some? ==> exists i :: 0 <= i < |es| && es[i] == Entry(k, r.value)
  {
    if es == [] then None
    else if es[0].key == k then Some(es[0].val)
    else
      var r := Find(es[1..], k);
      assert r.Some? ==> exists i :: 0 <= i < |es| - 1 && es[1..][i] == Entry(k, r.value);
      r
  }

  /** `$a[$k] = $v`: overwrite in place, or append a new key. */
  function Put(es: seq<Entry>, k: string, v: Value): (r: seq<Entry>)
    ensures forall k' :: Find(r, k') == if k' == k then Some(v) else Find(es, k')
    ensures KeySet(r) == KeySet(es) + {k}
    ensures k !in KeySet(es) ==> r == es + [Entry(k, v)]
    ensures forall e :: e in r ==> e in es || e == Entry(k, v)
    ensures Keyed(es) ==> Keyed(r)
  {
    if es == [] then [Entry(k, v)]
    else if es[0].key == k then
      Unfold(Entry(k, v), es[1..]);
      [Entry(k, v)] + es[1..]
    else
      Unfold(es[0], Put(es[1..], k, v));
      [es[0]] + Put(es[1..], k, v)
  }

  /** One step of `KeySet`, `Keyed`, `Find` and membership on an array with a first entry. */
  lemma Unfold(x: Entry, t: seq<Entry>)
    ensures KeySet([x] + t) == {x.key} + KeySet(t)
    ensures Keyed([x] + t) <==> x.key !in KeySet(t) && Keyed(t)
    ensures forall k :: Find([x] + t, k) == if x.key == k then Some(x.val) else Find(t, k)
    ensures forall e :: e in [x] + t <==> e == x || e in t
  {
    assert ([x] + t)[1..] == t;
  }

  /** `unset($a[$k])`. */
  function Remove(es: seq<Entry>, k: string): (r: seq<Entry>)
    ensures Find(r, k) == None
    ensures forall k' :: k' != k ==> Find(r, k') == Find(es, k')
    ensures KeySet(r) == KeySet(es) - {k}
    ensures forall e :: e in r ==> e in es
    ensures Keyed(es) ==> Keyed(r)
  {
    if es == [] then []
    else if es[0].key == k then Remove(es[1..], k)
    else
      var r := [es[0]] + Remove(es[1..], k);
      assert r[1..] == Remove(es[1..], k);
      r
  }

  /**
   * The value reached from `v` by following `path` one key at a time,
   * descending only into arrays: the reference meaning of a store path.
   */
  function At(v: Value, path: seq<string>): Option<Value>
    decreases |path|
  {
    if path == [] then Some(v)
    else match v
      case Arr(es) =>
        (match Find(es, path[0])
         case Some(child) => At(child, path[1..])
         case None => None)
      case _ => None
  }

  /** `p` is a (not necessarily proper) prefix of `q`. */
  predicate IsPrefix(p: seq<string>, q: seq<string>)
  {
    |p| <= |q| && q[..|p|] == p
  }

  /** Two paths that lead to unrelated places: neither extends the other. */
  predicate Disjoint(p: seq<string>, q: seq<string>)
  {
    !IsPrefix(p, q) && !IsPrefix(q, p)
  }
}
