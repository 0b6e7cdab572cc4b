/**
 * The two tree transformations behind `Atomik::set`: `_mergeRecursive`
 * (Atomik.php:729-740) and `_dimensionizeArray` (Atomik.php:749-786).
 */
module StoreTree {
  import opened Text
  import opened PhpArray

  // ---------------------------------------------------------------------
  // _mergeRecursive
  // ---------------------------------------------------------------------

  /**
   * `_mergeRecursive(a, b)`: a copy of `a` in which every entry of `b`, in
   * `b`'s order, is written over; where both sides hold an array under the
   * same key the two are merged recursively instead. The result holds the
   * keys of both sides, each once.
   */
  function MergeRecursive(a: seq<Entry>, b: seq<Entry>): (r: seq<Entry>)
    ensures KeySet(r) == KeySet(a) + KeySet(b)
    ensures Keyed(a) ==> Keyed(r)
    decreases EntriesSize(b), 2
  {
    MergeFrom(a, a, b)
  }

  /** The `foreach` over `b`: `orig` is `$array1`, `acc` is the copy `$array`. */
  function MergeFrom(orig: seq<Entry>, acc: seq<Entry>, b: seq<Entry>): (r: seq<Entry>)
    ensures KeySet(r) == KeySet(acc) + KeySet(b)
    ensures Keyed(acc) ==> Keyed(r)
    decreases EntriesSize(b), 1
  {
    if b == [] then acc
    else MergeFrom(orig, Put(acc, b[0].key, Merged(orig, b[0])), b[1..])
  }

  /** The value written for one entry of `$array2` (the body of the loop). */
  function Merged(orig: seq<Entry>, e: Entry): Value
    decreases Size(e.val), 0
  {
    match e.val
    case Arr(bs) =>
      (match Find(orig, e.key)
       case Some(Arr(xs)) => Arr(MergeRecursive(xs, bs))
       case _ => e.val)
    case _ => e.val
  }

  lemma {:induction false} MergeFromFind(orig: seq<Entry>, acc: seq<Entry>, b: seq<Entry>, k: string)
    requires Keyed(b)
    ensures Find(MergeFrom(orig, acc, b), k) ==
            match Find(b, k)
            case Some(v) => Some(Merged(orig, Entry(k, v)))
            case None => Find(acc, k)
    decreases |b|
  {
    if b != [] {
      MergeFromFind(orig, Put(acc, b[0].key, Merged(orig, b[0])), b[1..], k);
    }
  }

  /**
   * The three promises of `_mergeRecursive`: keys `b` does not mention keep
   * their value from `a`; where both hold arrays the result holds their
   * recursive merge; otherwise `b`'s value replaces `a`'s.
   */
  lemma MergeRecursiveFind(a: seq<Entry>, b: seq<Entry>, k: string)
    requires Keyed(b)
    ensures k !in KeySet(b) ==> Find(MergeRecursive(a, b), k) == Find(a, k)
    ensures forall xs, bs ::
              Find(a, k) == Some(Arr(xs)) && Find(b, k) == Some(Arr(bs)) ==>
              Find(MergeRecursive(a, b), k) == Some(Arr(MergeRecursive(xs, bs)))
    ensures forall v ::
              Find(b, k) == Some(v) && !(v.Arr? && Find(a, k).Some? && Find(a, k).value.Arr?) ==>
              Find(MergeRecursive(a, b), k) == Some(v)
  {
    MergeFromFind(a, a, b, k);
  }

  /** Merging into an empty array appends the second array's entries as they are. */
  lemma {:induction false} MergeFromEmpty(acc: seq<Entry>, b: seq<Entry>)
    requires Keyed(b) && KeySet(acc) !! KeySet(b)
    ensures MergeFrom([], acc, b) == acc + b
    decreases |b|
  {
    if b != [] {
      assert Merged([], b[0]) == b[0].val;
      assert Put(acc, b[0].key, Merged([], b[0])) == acc + [b[0]];
      MergeFromEmpty(acc + [b[0]], b[1..]);
      ShiftFirst(acc, b);
    }
  }

  // ---------------------------------------------------------------------
  // The shape _dimensionizeArray produces
  // ---------------------------------------------------------------------

  /** At every depth: no key contains `/` and no key appears twice. */
  predicate Dimensional(v: Value)
    decreases v
  {
    match v
    case Arr(es) =>
      Keyed(es) && forall i :: 0 <= i < |es| ==> '/' !in es[i].key && Dimensional(es[i].val)
    case _ => true
  }

  lemma PutDimensional(acc: seq<Entry>, k: string, v: Value)
    requires Dimensional(Arr(acc)) && '/' !in k && Dimensional(v)
    ensures Dimensional(Arr(Put(acc, k, v)))
  {
    var r := Put(acc, k, v);
    forall i | 0 <= i < |r| ensures '/' !in r[i].key && Dimensional(r[i].val) {
      assert r[i] in r;
      if r[i] != Entry(k, v) {
        var j :| 0 <= j < |acc| && acc[j] == r[i];
      }
    }
  }

  lemma DimensionalFind(es: seq<Entry>, k: string)
    requires Dimensional(Arr(es)) && Find(es, k).Some?
    ensures Dimensional(Find(es, k).value)
  {
    var j :| 0 <= j < |es| && es[j] == Entry(k, Find(es, k).value);
  }

  lemma DimensionalTail(es: seq<Entry>)
    requires es != [] && Dimensional(Arr(es))
    ensures Dimensional(Arr(es[1..])) && '/' !in es[0].key && Dimensional(es[0].val)
  {
    assert 0 < |es|;
    forall i | 0 <= i < |es| - 1 ensures '/' !in es[1..][i].key && Dimensional(es[1..][i].val) {
      assert es[1..][i] == es[i + 1];
    }
  }

  lemma {:induction false} MergeFromDimensional(orig: seq<Entry>, acc: seq<Entry>, b: seq<Entry>)
    requires Dimensional(Arr(orig)) && Dimensional(Arr(acc)) && Dimensional(Arr(b))
    ensures Dimensional(Arr(MergeFrom(orig, acc, b)))
    decreases EntriesSize(b)
  {
    if b != [] {
      var e := b[0];
      DimensionalTail(b);
      var m := Merged(orig, e);
      if e.val.Arr? && Find(orig, e.key).Some? && Find(orig, e.key).value.Arr? {
        var xs := Find(orig, e.key).value.entries;
        DimensionalFind(orig, e.key);
        assert EntriesSize(b) == 1 + |e.key| + Size(e.val) + EntriesSize(b[1..]);
        assert Size(e.val) == 1 + EntriesSize(e.val.entries);
        MergeFromDimensional(xs, xs, e.val.entries);
        assert m == Arr(MergeRecursive(xs, e.val.entries));
        assert MergeRecursive(xs, e.val.entries) == MergeFrom(xs, xs, e.val.entries);
      } else {
        assert m == e.val;
      }
      PutDimensional(acc, e.key, m);
      MergeFromDimensional(orig, Put(acc, e.key, Merged(orig, e)), b[1..]);
    }
  }

  /** Merging two dimensional arrays gives a dimensional array. */
  lemma MergeDimensional(a: seq<Entry>, b: seq<Entry>)
    requires Dimensional(Arr(a)) && Dimensional(Arr(b))
    ensures Dimensional(Arr(MergeRecursive(a, b)))
  {
    MergeFromDimensional(a, a, b);
  }

  // ---------------------------------------------------------------------
  // _dimensionizeArray
  // ---------------------------------------------------------------------

  /** The key after its first `/`: `implode('/', $parts)` once `array_shift` took the head. */
  function AfterFirstSlash(k: string): (rest: string)
    requires '/' in k
    ensures |rest| < |k|
    ensures rest == Join(Split(k, '/')[1..], '/')
  {
    var i := IndexOf(k, '/');
    assert k == k[..i] + ['/'] + k[i + 1..];
    k[i + 1..]
  }

  /** The first `/`-separated part of every key of `es`. */
  function Heads(es: seq<Entry>): set<string>
  {
    if es == [] then {} else {Split(es[0].key, '/')[0]} + Heads(es[1..])
  }

  /**
   * The array `_dimensionizeArray(es)` returns: its keys are the first
   * parts of the input's keys.
   */
  function Dimensionized(es: seq<Entry>): (r: seq<Entry>)
    ensures KeySet(r) == Heads(es)
    decreases EntriesSize(es), 2
  {
    DimFrom([], es)
  }

  /** The `foreach` over the input: `acc` is `$dimArray`. */
  function DimFrom(acc: seq<Entry>, es: seq<Entry>): (r: seq<Entry>)
    ensures KeySet(r) == KeySet(acc) + Heads(es)
    decreases EntriesSize(es), 1
  {
    if es == [] then acc else DimFrom(DimStep(acc, es[0]), es[1..])
  }

  /**
   * One turn of the loop of `_dimensionizeArray`: it files the entry under
   * the first part of its key and touches no other key.
   */
  function DimStep(acc: seq<Entry>, e: Entry): (r: seq<Entry>)
    ensures KeySet(r) == KeySet(acc) + {Split(e.key, '/')[0]}
    ensures forall k :: k != Split(e.key, '/')[0] ==> Find(r, k) == Find(acc, k)
    decreases 1 + |e.key| + Size(e.val), 0
  {
    if '/' in e.key then
      // a path key: nest its value under the first part
      var first := Split(e.key, '/')[0];
      var rest := AfterFirstSlash(e.key);
      SingletonSize(rest, e.val);
      NestUnder(acc, first, Dimensionized([Entry(rest, e.val)]))
    else
      match e.val
      case Arr(inner) =>
        var sub := Dimensionized(inner);
        (match Find(acc, e.key)
         case Some(Arr(prev)) => Put(acc, e.key, Arr(MergeRecursive(prev, sub)))
         // a slash-free key occurs once in a PHP array, so only an earlier
         // path key can have filled this slot, and that always writes an array
         case _ => Put(acc, e.key, Arr(sub)))
      case _ => Put(acc, e.key, e.val)
  }

  /** Files the dimensionized rest of a path key under its first part. */
  function NestUnder(acc: seq<Entry>, first: string, sub: seq<Entry>): (r: seq<Entry>)
    ensures KeySet(r) == KeySet(acc) + {first}
    ensures forall k :: k != first ==> Find(r, k) == Find(acc, k)
    ensures Find(r, first).Some? && Find(r, first).value.Arr?
  {
    match Find(acc, first)
    case Some(Arr(prev)) => Put(acc, first, Arr(MergeRecursive(prev, sub)))
    // a leaf already there is dropped for an empty array, then merged into
    case Some(Scalar(_)) => Put(acc, first, Arr(MergeRecursive([], sub)))
    // absent, or null (`isset` is false)
    case _ => Put(acc, first, Arr(sub))
  }

  /**
   * A leaf already filed under the first part of a path key is dropped: that
   * part then holds just the dimensionized rest of the key.
   */
  lemma DimStepReplacesLeaf(acc: seq<Entry>, e: Entry, x: string)
    requires '/' in e.key && Find(acc, Split(e.key, '/')[0]) == Some(Scalar(x))
    ensures Find(DimStep(acc, e), Split(e.key, '/')[0]) ==
            Some(Arr(Dimensionized([Entry(AfterFirstSlash(e.key), e.val)])))
  {
    var first := Split(e.key, '/')[0];
    var sub := Dimensionized([Entry(AfterFirstSlash(e.key), e.val)]);
    assert DimStep(acc, e) == Put(acc, first, Arr(MergeRecursive([], sub)));
    DimensionizedIsDimensional([Entry(AfterFirstSlash(e.key), e.val)]);
    MergeFromEmpty([], sub);
    assert [] + sub == sub;
  }

  /**
   * A path key whose first part already holds an array is merged into that
   * array: the rest of the key, as a one-path tree, goes in through
   * `_mergeRecursive`. Every key of the array other than the rest's first
   * part keeps its value; that part gets the merge of the old and new values.
   */
  lemma DimStepMergesPath(acc: seq<Entry>, e: Entry, prev: seq<Entry>)
    requires '/' in e.key && Find(acc, Split(e.key, '/')[0]) == Some(Arr(prev))
    ensures var nested := Nest(Split(AfterFirstSlash(e.key), '/'), DimValue(e.val));
            Find(DimStep(acc, e), Split(e.key, '/')[0]) == Some(Arr(MergeRecursive(prev, nested)))
    ensures var nested := Nest(Split(AfterFirstSlash(e.key), '/'), DimValue(e.val));
            var r := MergeRecursive(prev, nested);
            (forall k :: k != nested[0].key ==> Find(r, k) == Find(prev, k)) &&
            Find(r, nested[0].key) == Some(Merged(prev, nested[0]))
  {
    var first := Split(e.key, '/')[0];
    var rest := AfterFirstSlash(e.key);
    var nested := Nest(Split(rest, '/'), DimValue(e.val));
    DimensionizedPath(rest, e.val);
    assert DimStep(acc, e) == NestUnder(acc, first, nested);
    assert NestUnder(acc, first, nested) == Put(acc, first, Arr(MergeRecursive(prev, nested)));
    MergeIntoOne(prev, nested);
  }

  /** Merging a one-entry array into `prev` touches only that entry's key. */
  lemma MergeIntoOne(prev: seq<Entry>, one: seq<Entry>)
    requires |one| == 1
    ensures var r := MergeRecursive(prev, one);
            (forall k :: k != one[0].key ==> Find(r, k) == Find(prev, k)) &&
            Find(r, one[0].key) == Some(Merged(prev, one[0]))
  {
    assert one[1..] == [];
    assert Keyed(one);
    forall k
      ensures Find(MergeRecursive(prev, one), k) ==
              if k == one[0].key then Some(Merged(prev, one[0])) else Find(prev, k)
    {
      MergeFromFind(prev, prev, one, k);
    }
  }

  /** A path key whose first part is absent or null files the one-path tree there. */
  lemma DimStepNewPath(acc: seq<Entry>, e: Entry)
    requires '/' in e.key
    requires Find(acc, Split(e.key, '/')[0]) == None || Find(acc, Split(e.key, '/')[0]) == Some(Null)
    ensures Find(DimStep(acc, e), Split(e.key, '/')[0]) ==
            Some(Arr(Nest(Split(AfterFirstSlash(e.key), '/'), DimValue(e.val))))
  {
    DimensionizedPath(AfterFirstSlash(e.key), e.val);
  }

  /**
   * A slash-free key holding an array, whose slot already holds an array,
   * is merged into it: keys the dimensionized value does not mention keep
   * their values, and each key it does mention gets the merge of both.
   */
  lemma DimStepMergesArray(acc: seq<Entry>, e: Entry, prev: seq<Entry>)
    requires '/' !in e.key && e.val.Arr? && Find(acc, e.key) == Some(Arr(prev))
    ensures var sub := Dimensionized(e.val.entries);
            var r := MergeRecursive(prev, sub);
            Find(DimStep(acc, e), e.key) == Some(Arr(r)) &&
            (forall k :: k !in Heads(e.val.entries) ==> Find(r, k) == Find(prev, k)) &&
            (forall k :: k in Heads(e.val.entries) ==> Find(r, k) == Some(Merged(prev, Entry(k, Find(sub, k).value))))
  {
    var sub := Dimensionized(e.val.entries);
    DimensionizedIsDimensional(e.val.entries);
    assert Keyed(sub);
    forall k
      ensures Find(MergeRecursive(prev, sub), k) ==
              match Find(sub, k)
              case Some(v) => Some(Merged(prev, Entry(k, v)))
              case None => Find(prev, k)
    {
      MergeFromFind(prev, prev, sub, k);
    }
  }

  /**
   * A slash-free key with a leaf value is written as it is, replacing what
   * was there; with an array value and no array under the key yet, the
   * dimensionized array is stored.
   */
  lemma DimStepPlain(acc: seq<Entry>, e: Entry)
    requires '/' !in e.key
    ensures !e.val.Arr? ==> Find(DimStep(acc, e), e.key) == Some(e.val)
    ensures e.val.Arr? && (Find(acc, e.key).None? || !Find(acc, e.key).value.Arr?) ==>
              Find(DimStep(acc, e), e.key) == Some(Arr(Dimensionized(e.val.entries)))
  {
    assert Split(e.key, '/')[0] == e.key;
  }

  /**
   * Two path keys under one first part end up side by side in one array:
   * `{p/q1: v1, p/q2: v2}` becomes `{p: {q1: v1, q2: v2}}`.
   */
  lemma DimensionizedSharedPrefix(p: string, q1: string, q2: string, v1: Value, v2: Value)
    requires '/' !in p && '/' !in q1 && '/' !in q2 && q1 != q2 && !v1.Arr? && !v2.Arr?
    ensures Dimensionized([Entry(p + "/" + q1, v1), Entry(p + "/" + q2, v2)]) ==
            [Entry(p, Arr([Entry(q1, v1), Entry(q2, v2)]))]
  {
    var e1 := Entry(p + "/" + q1, v1);
    var e2 := Entry(p + "/" + q2, v2);
    PathKeyParts(p, q1);
    DimStepNewPath([], e1);
    LeafNest(q1, v1);
    var acc := DimStep([], e1);
    assert acc == [Entry(p, Arr([Entry(q1, v1)]))];
    SecondPathStep(p, q1, q2, v1, v2);
    TwoSteps(e1, e2);
  }

  /** The second key of `DimensionizedSharedPrefix` joins the array the first one made. */
  lemma SecondPathStep(p: string, q1: string, q2: string, v1: Value, v2: Value)
    requires '/' !in p && '/' !in q2 && q1 != q2 && !v2.Arr?
    ensures DimStep([Entry(p, Arr([Entry(q1, v1)]))], Entry(p + "/" + q2, v2)) ==
            [Entry(p, Arr([Entry(q1, v1), Entry(q2, v2)]))]
  {
    var acc := [Entry(p, Arr([Entry(q1, v1)]))];
    var e := Entry(p + "/" + q2, v2);
    PathKeyParts(p, q2);
    DimensionizedPath(q2, v2);
    LeafNest(q2, v2);
    var sub := Dimensionized([Entry(q2, v2)]);
    assert sub == [Entry(q2, v2)];
    assert Find(acc, p) == Some(Arr([Entry(q1, v1)]));
    assert DimStep(acc, e) == NestUnder(acc, p, sub);
    MergeOneLeaf([Entry(q1, v1)], q2, v2);
    assert KeySet([Entry(q1, v1)]) == {q1} by {
      assert [Entry(q1, v1)][1..] == [];
    }
    var both := [Entry(q1, v1)] + [Entry(q2, v2)];
    assert Put([Entry(q1, v1)], q2, v2) == both;
    assert NestUnder(acc, p, sub) == Put(acc, p, Arr(both));
    assert Put(acc, p, Arr(both)) == [Entry(p, Arr(both))] + acc[1..];
    assert acc[1..] == [];
    assert both == [Entry(q1, v1), Entry(q2, v2)];
  }

  /** The key `p/q` with `p` free of slashes has first part `p` and rest `q`. */
  lemma PathKeyParts(p: string, q: string)
    requires '/' !in p
    ensures '/' in p + "/" + q && Split(p + "/" + q, '/')[0] == p && AfterFirstSlash(p + "/" + q) == q
  {
    FirstSeparator(p, '/', q);
    assert p + "/" + q == p + ['/'] + q;
  }

  /** A slash-free key with a leaf value is its own one-path tree. */
  lemma LeafNest(q: string, v: Value)
    requires '/' !in q && !v.Arr?
    ensures Nest(Split(q, '/'), DimValue(v)) == [Entry(q, v)]
  {
  }

  lemma TwoSteps(e1: Entry, e2: Entry)
    ensures Dimensionized([e1, e2]) == DimStep(DimStep([], e1), e2)
  {
    var a := DimStep([], e1);
    var b := DimStep(a, e2);
    assert [e1, e2][1..] == [e2];
    assert DimFrom([], [e1, e2]) == DimFrom(a, [e2]);
    assert [e2][1..] == [];
    assert DimFrom(a, [e2]) == DimFrom(b, []);
  }

  /** Merging in one leaf entry is a plain assignment of it. */
  lemma MergeOneLeaf(xs: seq<Entry>, k: string, v: Value)
    requires !v.Arr?
    ensures MergeRecursive(xs, [Entry(k, v)]) == Put(xs, k, v)
  {
    assert [Entry(k, v)][1..] == [];
    assert MergeFrom(xs, xs, [Entry(k, v)]) == MergeFrom(xs, Put(xs, k, v), []);
  }

  /**
   * `_dimensionizeArray` as the source runs it: a loop that builds
   * `$dimArray` entry by entry.
   */
  method Dimensionize(es: seq<Entry>) returns (r: seq<Entry>)
    ensures r == Dimensionized(es)
    decreases EntriesSize(es), 1
  {
    r := [];
    var i := 0;
    while i < |es|
      invariant 0 <= i <= |es|
      invariant DimFrom(r, es[i..]) == Dimensionized(es)
    {
      EntryWeighsLess(es, i);
      assert es[i..][1..] == es[i + 1..];
      r := DimensionizeEntry(r, es[i]);
      i := i + 1;
    }
  }

  /**
   * One turn of that loop, calling `_dimensionizeArray` again on the tail
   * of a path key or on a sub-array.
   */
  method DimensionizeEntry(acc: seq<Entry>, e: Entry) returns (next: seq<Entry>)
    ensures next == DimStep(acc, e)
    decreases 1 + |e.key| + Size(e.val), 0
  {
    if '/' in e.key {
      var first := Split(e.key, '/')[0];
      var rest := AfterFirstSlash(e.key);
      SingletonSize(rest, e.val);
      var sub := Dimensionize([Entry(rest, e.val)]);
      var prev := Find(acc, first);
      if prev.Some? && prev.value.Arr? {
        next := Put(acc, first, Arr(MergeRecursive(prev.value.entries, sub)));
      } else if prev.Some? && prev.value.Scalar? {
        next := Put(acc, first, Arr(MergeRecursive([], sub)));
      } else {
        next := Put(acc, first, Arr(sub));
      }
      assert next == NestUnder(acc, first, sub);
    } else if e.val.Arr? {
      var sub := Dimensionize(e.val.entries);
      var prev := Find(acc, e.key);
      if prev.Some? && prev.value.Arr? {
        next := Put(acc, e.key, Arr(MergeRecursive(prev.value.entries, sub)));
      } else {
        next := Put(acc, e.key, Arr(sub));
      }
    } else {
      next := Put(acc, e.key, e.val);
    }
  }

  lemma SingletonSize(k: string, v: Value)
    ensures EntriesSize([Entry(k, v)]) == 1 + |k| + Size(v)
  {
    assert [Entry(k, v)][1..] == [];
  }

  lemma DimensionizedSingleton(e: Entry)
    ensures Dimensionized([e]) == DimStep([], e)
  {
    assert [e][1..] == [];
    assert DimFrom([], [e]) == DimFrom(DimStep([], e), []);
  }

  /** `{s1: {s2: ... {sn: w}}}`: the one-path tree a path key turns into. */
  function Nest(segs: seq<string>, w: Value): (r: seq<Entry>)
    requires |segs| >= 1
    ensures Keyed(r) && |r| == 1 && r[0].key == segs[0]
    decreases |segs|
  {
    [Entry(segs[0], if |segs| == 1 then w else Arr(Nest(segs[1..], w)))]
  }

  /** A value as `_dimensionizeArray` leaves it: arrays dimensionized, leaves kept. */
  function DimValue(v: Value): Value
  {
    match v
    case Arr(inner) => Arr(Dimensionized(inner))
    case _ => v
  }

  /**
   * A key `p1/p2/.../pn` places its (dimensionized) value under
   * `[p1][p2]...[pn]`.
   */
  lemma {:induction false} DimensionizedPath(k: string, v: Value)
    ensures Dimensionized([Entry(k, v)]) == Nest(Split(k, '/'), DimValue(v))
    decreases |k|
  {
    var e := Entry(k, v);
    DimensionizedSingleton(e);
    if '/' in k {
      var parts := Split(k, '/');
      var rest := AfterFirstSlash(k);
      DimensionizedPath(rest, v);
      assert forall p :: p in parts[1..] ==> p in parts;
      SplitJoin(parts[1..], '/');
      assert Split(rest, '/') == parts[1..];
    }
  }

  lemma {:induction false} DimFromDimensional(acc: seq<Entry>, es: seq<Entry>)
    requires Dimensional(Arr(acc))
    ensures Dimensional(Arr(DimFrom(acc, es)))
    decreases EntriesSize(es), 2
  {
    if es != [] {
      DimStepDimensional(acc, es[0]);
      DimFromDimensional(DimStep(acc, es[0]), es[1..]);
    }
  }

  lemma {:induction false} DimStepDimensional(acc: seq<Entry>, e: Entry)
    requires Dimensional(Arr(acc))
    ensures Dimensional(Arr(DimStep(acc, e)))
    decreases 1 + |e.key| + Size(e.val), 1
  {
    if '/' in e.key {
      DimStepPathDimensional(acc, e);
    } else {
      DimStepPlainDimensional(acc, e);
    }
  }

  lemma {:induction false} DimStepPathDimensional(acc: seq<Entry>, e: Entry)
    requires Dimensional(Arr(acc)) && '/' in e.key
    ensures Dimensional(Arr(DimStep(acc, e)))
    decreases 1 + |e.key| + Size(e.val), 0
  {
    var parts := Split(e.key, '/');
    assert parts[0] in parts;
    var rest := AfterFirstSlash(e.key);
    SingletonSize(rest, e.val);
    DimFromDimensional([], [Entry(rest, e.val)]);
    NestDimensional(acc, parts[0], Dimensionized([Entry(rest, e.val)]));
  }

  lemma NestDimensional(acc: seq<Entry>, first: string, sub: seq<Entry>)
    requires Dimensional(Arr(acc)) && '/' !in first && Dimensional(Arr(sub))
    ensures Dimensional(Arr(NestUnder(acc, first, sub)))
  {
    match Find(acc, first)
    case Some(Arr(prev)) =>
      DimensionalFind(acc, first);
      MergeDimensional(prev, sub);
      PutDimensional(acc, first, Arr(MergeRecursive(prev, sub)));
    case Some(Scalar(_)) =>
      MergeDimensional([], sub);
      PutDimensional(acc, first, Arr(MergeRecursive([], sub)));
    case _ =>
      PutDimensional(acc, first, Arr(sub));
  }

  lemma {:induction false} DimStepPlainDimensional(acc: seq<Entry>, e: Entry)
    requires Dimensional(Arr(acc)) && '/' !in e.key
    ensures Dimensional(Arr(DimStep(acc, e)))
    decreases 1 + |e.key| + Size(e.val), 0
  {
    match e.val {
      case Arr(inner) =>
        var sub := Dimensionized(inner);
        DimFromDimensional([], inner);
        match Find(acc, e.key) {
          case Some(Arr(prev)) =>
            DimensionalFind(acc, e.key);
            MergeDimensional(prev, sub);
            PutDimensional(acc, e.key, Arr(MergeRecursive(prev, sub)));
          case _ =>
            PutDimensional(acc, e.key, Arr(sub));
        }
      case _ =>
        PutDimensional(acc, e.key, e.val);
    }
  }

  /** The output has no key containing `/` at any depth, and no repeated key. */
  lemma DimensionizedIsDimensional(es: seq<Entry>)
    ensures Dimensional(Arr(Dimensionized(es)))
  {
    DimFromDimensional([], es);
  }

  lemma {:induction false} KeySetAppend(a: seq<Entry>, e: Entry)
    ensures KeySet(a + [e]) == KeySet(a) + {e.key}
    ensures Keyed(a) && e.key !in KeySet(a) ==> Keyed(a + [e])
  {
    if a != [] {
      assert (a + [e])[1..] == a[1..] + [e];
      KeySetAppend(a[1..], e);
    }
  }

  lemma {:induction false} DimFromFixed(acc: seq<Entry>, es: seq<Entry>)
    requires Keyed(acc) && Dimensional(Arr(es)) && KeySet(acc) !! KeySet(es)
    ensures DimFrom(acc, es) == acc + es
    decreases EntriesSize(es), 2
  {
    if es != [] {
      DimFromFixedStep(acc, es);
      DimFromFixed(acc + [es[0]], es[1..]);
      ShiftFirst(acc, es);
    }
  }

  lemma ShiftFirst(acc: seq<Entry>, es: seq<Entry>)
    requires es != []
    ensures acc + [es[0]] + es[1..] == acc + es
  {
    assert es == [es[0]] + es[1..];
  }

  /** One step of `DimFromFixed`: the first entry is copied unchanged. */
  lemma {:induction false} DimFromFixedStep(acc: seq<Entry>, es: seq<Entry>)
    requires Keyed(acc) && es != [] && Dimensional(Arr(es)) && KeySet(acc) !! KeySet(es)
    ensures Keyed(acc + [es[0]]) && Dimensional(Arr(es[1..])) && KeySet(acc + [es[0]]) !! KeySet(es[1..])
    ensures EntriesSize(es[1..]) < EntriesSize(es)
    ensures DimFrom(acc, es) == DimFrom(acc + [es[0]], es[1..])
    decreases EntriesSize(es), 1
  {
    var e := es[0];
    DimensionalTail(es);
    assert KeySet(es) == {e.key} + KeySet(es[1..]);
    DimStepFixed(acc, e);
    KeySetAppend(acc, e);
  }

  lemma {:induction false} DimStepFixed(acc: seq<Entry>, e: Entry)
    requires '/' !in e.key && Dimensional(e.val) && e.key !in KeySet(acc)
    ensures DimStep(acc, e) == acc + [e]
    decreases 1 + |e.key| + Size(e.val), 0
  {
    match e.val
    case Arr(inner) =>
      DimFromFixed([], inner);
      assert Dimensionized(inner) == inner;
    case _ =>
  }

  /** On a tree that is already dimensional, `_dimensionizeArray` is the identity. */
  lemma DimensionizedFixed(es: seq<Entry>)
    requires Dimensional(Arr(es))
    ensures Dimensionized(es) == es
  {
    DimFromFixed([], es);
  }

  /** Dimensionizing twice gives the same tree as dimensionizing once. */
  lemma DimensionizedIdempotent(es: seq<Entry>)
    ensures Dimensionized(Dimensionized(es)) == Dimensionized(es)
  {
    DimensionizedIsDimensional(es);
    DimensionizedFixed(Dimensionized(es));
  }
}
