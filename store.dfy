/**
 * The global key-path store of `Atomik`: `set`, `get`, `has`, `delete` and
 * `registerSelector` (Atomik.php:669-953). Keys are paths: `a/b/c` names
 * `$store['a']['b']['c']`.
 */
module KeyPathStore {
  import opened Text
  import opened PhpArray
  import opened StoreTree

  // ---------------------------------------------------------------------
  // Paths
  // ---------------------------------------------------------------------

  /** The tree `Nest(segs, w)` holds `w` at the end of its one path. */
  lemma {:induction false} NestAt(segs: seq<string>, w: Value)
    requires |segs| >= 1
    ensures At(Arr(Nest(segs, w)), segs) == Some(w)
    decreases |segs|
  {
    if |segs| > 1 {
      NestAt(segs[1..], w);
    }
  }

  lemma NestKeys(segs: seq<string>, w: Value)
    requires |segs| >= 1
    ensures KeySet(Nest(segs, w)) == {segs[0]}
  {
  }

  /** A path extends another when it has the same head and its tail extends the other's. */
  lemma PrefixCons(p: seq<string>, q: seq<string>)
    requires |p| >= 1 && |q| >= 1 && p[0] == q[0]
    ensures IsPrefix(p[1..], q[1..]) ==> IsPrefix(p, q)
  {
  }

  /** Two disjoint paths with the same head have disjoint tails. */
  lemma DisjointTail(p: seq<string>, q: seq<string>)
    requires |p| >= 1 && |q| >= 1 && p[0] == q[0] && Disjoint(p, q)
    ensures |p| >= 2 && |q| >= 2 && Disjoint(p[1..], q[1..])
  {
  }

  /** `Nest(segs, w)` holds nothing on a path disjoint from `segs`. */
  lemma {:induction false} NestDisjoint(segs: seq<string>, w: Value, q: seq<string>)
    requires |segs| >= 1 && Disjoint(segs, q)
    ensures At(Arr(Nest(segs, w)), q) == None
    decreases |segs|
  {
    assert IsPrefix([], segs);
    if q[0] == segs[0] {
      DisjointTail(segs, q);
      NestDisjoint(segs[1..], w, q[1..]);
    }
  }

  /** Following `p + r` is following `p`, then `r` from where `p` ended. */
  lemma {:induction false} AtAppend(v: Value, p: seq<string>, r: seq<string>)
    ensures At(v, p + r) == match At(v, p)
                            case Some(x) => At(x, r)
                            case None => None
    decreases |p|
  {
    if p != [] {
      assert (p + r)[0] == p[0];
      assert (p + r)[1..] == p[1..] + r;
      if v.Arr? && Find(v.entries, p[0]).Some? {
        AtAppend(Find(v.entries, p[0]).value, p[1..], r);
      }
    } else {
      assert p + r == r;
    }
  }

  // ---------------------------------------------------------------------
  // set
  // ---------------------------------------------------------------------

  /** What `set` merges into the array: the input, dimensionized unless told not to. */
  function Incoming(entries: seq<Entry>, dimensionize: bool): seq<Entry>
  {
    if dimensionize then Dimensionized(entries) else entries
  }

  /**
   * `set(array, null, dimensionize, $array)`: merge many entries at once.
   * The array gains the first parts of the new keys (the keys themselves
   * when not dimensionizing) and loses none.
   */
  function SetManyIn(es: seq<Entry>, entries: seq<Entry>, dimensionize: bool): (r: seq<Entry>)
    ensures dimensionize ==> KeySet(r) == KeySet(es) + Heads(entries)
    ensures !dimensionize ==> KeySet(r) == KeySet(es) + KeySet(entries)
    ensures Keyed(es) ==> Keyed(r)
  {
    MergeRecursive(es, Incoming(entries, dimensionize))
  }

  /**
   * `set(key, value, dimensionize, $array)`: a null value leaves the array
   * as it is; any other adds the key's first part (or the key itself when
   * not dimensionizing) and keeps every other key.
   */
  function SetIn(es: seq<Entry>, key: string, value: Value, dimensionize: bool): (r: seq<Entry>)
    ensures value == Null ==> r == es
    ensures value != Null ==> KeySet(r) == KeySet(es) + {if dimensionize then Split(key, '/')[0] else key}
  {
    assert [Entry(key, value)][1..] == [];
    assert Heads([Entry(key, value)]) == {Split(key, '/')[0]} && KeySet([Entry(key, value)]) == {key};
    if value == Null then es else SetManyIn(es, [Entry(key, value)], dimensionize)
  }

  /**
   * Merging the one-path tree of `segs` makes the path reachable; a leaf
   * arrives unchanged, an array is merged with what was there.
   */
  lemma {:induction false} MergeNestAt(tree: seq<Entry>, segs: seq<string>, w: Value)
    requires |segs| >= 1
    ensures At(Arr(MergeRecursive(tree, Nest(segs, w))), segs).Some?
    ensures !w.Arr? ==> At(Arr(MergeRecursive(tree, Nest(segs, w))), segs) == Some(w)
    decreases |segs|
  {
    var b := Nest(segs, w);
    MergeRecursiveFind(tree, b, segs[0]);
    NestKeys(segs, w);
    assert b[1..] == [];
    assert Find(b, segs[0]) == Some(b[0].val);
    if |segs| > 1 {
      match Find(tree, segs[0])
      case Some(Arr(xs)) =>
        MergeNestAt(xs, segs[1..], w);
      case _ =>
        NestAt(segs[1..], w);
    }
  }

  /** Merging the one-path tree of `segs` changes nothing on a disjoint path. */
  lemma {:induction false} MergeNestDisjoint(tree: seq<Entry>, segs: seq<string>, w: Value, q: seq<string>)
    requires |segs| >= 1 && Disjoint(segs, q)
    ensures At(Arr(MergeRecursive(tree, Nest(segs, w))), q) == At(Arr(tree), q)
    decreases |segs|
  {
    assert IsPrefix([], segs);
    var b := Nest(segs, w);
    NestKeys(segs, w);
    MergeRecursiveFind(tree, b, q[0]);
    if q[0] == segs[0] {
      DisjointTail(segs, q);
      assert b[1..] == [];
      assert Find(b, segs[0]) == Some(Arr(Nest(segs[1..], w)));
      match Find(tree, segs[0])
      case Some(Arr(xs)) =>
        MergeNestDisjoint(xs, segs[1..], w, q[1..]);
      case _ =>
        NestDisjoint(segs[1..], w, q[1..]);
    }
  }

  lemma SplitSingle(k: string)
    requires '/' !in k
    ensures Split(k, '/') == [k]
  {
  }

  /** The tree `set(key, value)` merges in is the one-path tree of the key's parts. */
  lemma IncomingOne(key: string, value: Value)
    ensures Incoming([Entry(key, value)], true) == Nest(Split(key, '/'), DimValue(value))
  {
    DimensionizedPath(key, value);
  }

  /** After `set(key, value)` the path of `key` leads to the value (a leaf arrives as is). */
  lemma SetReaches(es: seq<Entry>, key: string, value: Value)
    requires value != Null
    ensures At(Arr(SetIn(es, key, value, true)), Split(key, '/')).Some?
    ensures value.Scalar? ==> At(Arr(SetIn(es, key, value, true)), Split(key, '/')) == Some(value)
  {
    IncomingOne(key, value);
    MergeNestAt(es, Split(key, '/'), DimValue(value));
  }

  /** `set(key, value)` leaves every path disjoint from `key`'s untouched. */
  lemma SetKeepsDisjoint(es: seq<Entry>, key: string, value: Value, q: seq<string>)
    requires Disjoint(Split(key, '/'), q)
    ensures At(Arr(SetIn(es, key, value, true)), q) == At(Arr(es), q)
  {
    if value != Null {
      IncomingOne(key, value);
      MergeNestDisjoint(es, Split(key, '/'), DimValue(value), q);
    }
  }

  /** A store that is dimensional stays so under `set`. */
  lemma SetKeepsDimensional(es: seq<Entry>, entries: seq<Entry>)
    requires Dimensional(Arr(es))
    ensures Dimensional(Arr(SetManyIn(es, entries, true)))
  {
    DimensionizedIsDimensional(entries);
    MergeDimensional(es, Dimensionized(entries));
  }

  // ---------------------------------------------------------------------
  // Selectors (namespaces)
  // ---------------------------------------------------------------------

  predicate IsLower(c: char)
  {
    'a' <= c <= 'z'
  }

  /** Length of the leading run of `[a-z]`. */
  function LowerRun(s: string): (n: nat)
    ensures n <= |s|
    ensures forall i :: 0 <= i < n ==> IsLower(s[i])
    ensures n == |s| || !IsLower(s[n])
  {
    if s != [] && IsLower(s[0]) then 1 + LowerRun(s[1..]) else 0
  }

  /** The text up to the first line break: what `.*` matches. */
  function UpToNewline(s: string): (r: string)
    ensures '\n' !in r
    ensures |r| <= |s| && r == s[..|r|]
    ensures |r| == |s| || s[|r|] == '\n'
  {
    if s == [] || s[0] == '\n' then [] else [s[0]] + UpToNewline(s[1..])
  }

  /**
   * `preg_match('/^([a-z]+):(.*)/', key)`: the namespace and the rest of
   * the first line after the colon, when the key starts with one.
   */
  function Selector(key: string): (r: Option<(string, string)>)
    ensures r.Some? ==> |r.value.0| + 1 + |r.value.1| <= |key|
    ensures r.Some? ==> |r.value.0| >= 1 && (forall i :: 0 <= i < |r.value.0| ==> IsLower(r.value.0[i]))
    ensures r.Some? ==> key[..|r.value.0| + 1] == r.value.0 + [':']
    ensures r.Some? ==> '\n' !in r.value.1 && r.value.1 == key[|r.value.0| + 1..][..|r.value.1|]
    ensures r.Some? ==> |key| == |r.value.0| + 1 + |r.value.1| || key[|r.value.0| + 1 + |r.value.1|] == '\n'
    ensures r.None? ==> forall n :: 1 <= n < |key| && key[n] == ':' ==> exists i :: 0 <= i < n && !IsLower(key[i])
  {
    var n := LowerRun(key);
    if 1 <= n < |key| && key[n] == ':' then
      var rest := UpToNewline(key[n + 1..]);
      assert |key| == n + 1 + |rest| || key[n + 1 + |rest|] == key[n + 1..][|rest|];
      Some((key[..n], rest))
    else
      assert forall m :: 1 <= m < |key| && key[m] == ':' ==> n < m && !IsLower(key[n]);
      None
  }

  /** A namespace, a colon and one line of text are read back as such. */
  lemma SelectorOf(ns: string, rest: string)
    requires |ns| >= 1 && (forall i :: 0 <= i < |ns| ==> IsLower(ns[i])) && '\n' !in rest
    ensures Selector(ns + [':'] + rest) == Some((ns, rest))
  {
    var key := ns + [':'] + rest;
    LowerRunOf(ns, [':'] + rest);
    assert key[..|ns|] == ns && key[|ns|] == ':' && key[|ns| + 1..] == rest;
    UpToNewlineOf(rest);
  }

  lemma {:induction false} LowerRunOf(ns: string, t: string)
    requires forall i :: 0 <= i < |ns| ==> IsLower(ns[i])
    requires t != [] && !IsLower(t[0])
    ensures LowerRun(ns + t) == |ns|
    decreases |ns|
  {
    if ns != [] {
      assert (ns + t)[1..] == ns[1..] + t;
      LowerRunOf(ns[1..], t);
    } else {
      assert ns + t == t;
    }
  }

  lemma {:induction false} UpToNewlineOf(s: string)
    requires '\n' !in s
    ensures UpToNewline(s) == s
    decreases |s|
  {
  }

  // ---------------------------------------------------------------------
  // get
  // ---------------------------------------------------------------------

  /** What `get` yields: handed to a selector callback, or a value of the array. */
  datatype Lookup = Delegated(namespace: string, subKey: string) | Found(value: Value)

  /**
   * The recursive descent of `get` along a list of keys: each step needs
   * `isset`, that is, a present and non-null entry of an array.
   */
  function GetWalk(v: Value, segs: seq<string>, default: Value): (r: Value)
    requires |segs| >= 1
    ensures At(v, segs).Some? && At(v, segs).value != Null ==> r == At(v, segs).value
    ensures At(v, segs).None? || At(v, segs).value == Null ==> r == default
    decreases |segs|
  {
    match v
    case Arr(es) =>
      (match Find(es, segs[0])
       case Some(x) =>
         if x == Null then default
         else if |segs| == 1 then
           assert segs[1..] == [];
           assert At(v, segs) == At(x, []) == Some(x);
           x
         else GetWalk(x, segs[1..], default)
       case None => default)
    case _ => default
  }

  /**
   * `get(key, default, $array)` for a string key: a registered selector
   * takes over; a key without `/` is looked up with `array_key_exists`
   * (a stored null comes back); a path is walked with `GetWalk`.
   */
  function GetIn(es: seq<Entry>, namespaces: set<string>, key: string, default: Value): (r: Lookup)
    ensures r.Delegated? <==> Selector(key).Some? && Selector(key).value.0 in namespaces
  {
    var sel := Selector(key);
    if sel.Some? && sel.value.0 in namespaces then Delegated(sel.value.0, sel.value.1)
    else if '/' !in key then
      Found(match Find(es, key) case Some(x) => x case None => default)
    else
      Found(GetWalk(Arr(es), Split(key, '/'), default))
  }

  /** The reading of a path key by `get`, against the reference lookup `At`. */
  lemma GetMeaning(es: seq<Entry>, namespaces: set<string>, key: string, default: Value)
    requires Selector(key).None? || Selector(key).value.0 !in namespaces
    ensures '/' !in key ==>
              GetIn(es, namespaces, key, default) ==
              Found(match At(Arr(es), [key]) case Some(x) => x case None => default)
    ensures '/' in key ==>
              GetIn(es, namespaces, key, default) ==
              Found(match At(Arr(es), Split(key, '/'))
                    case Some(x) => if x == Null then default else x
                    case None => default)
  {
  }

  /** `set` then `get` of the same key gives the value back. */
  lemma SetThenGet(es: seq<Entry>, namespaces: set<string>, key: string, value: Value, default: Value)
    requires value.Scalar?
    requires Selector(key).None? || Selector(key).value.0 !in namespaces
    ensures GetIn(SetIn(es, key, value, true), namespaces, key, default) == Found(value)
  {
    SetReaches(es, key, value);
    GetMeaning(SetIn(es, key, value, true), namespaces, key, default);
    if '/' !in key {
      SplitSingle(key);
    }
  }

  // ---------------------------------------------------------------------
  // has
  // ---------------------------------------------------------------------

  /** The recursive descent of `has`: present at each step, arrays in between. */
  function HasWalk(es: seq<Entry>, segs: seq<string>): (r: bool)
    requires |segs| >= 1
    ensures r <==> At(Arr(es), segs).Some?
    decreases |segs|
  {
    match Find(es, segs[0])
    case Some(x) => |segs| == 1 || (x.Arr? && HasWalk(x.entries, segs[1..]))
    case None => false
  }

  /**
   * `!strpos($key, '/')`: true when the key has no `/`, and also when its
   * first `/` is at offset 0 (PHP reads that 0 as false).
   */
  predicate LiteralAsWritten(key: string): (r: bool)
    ensures r <==> '/' !in key || IndexOf(key, '/') == 0
  {
    '/' !in key || key[0] == '/'
  }

  /** `has(key, $array)` as written. */
  function HasInAsWritten(es: seq<Entry>, key: string): (r: bool)
    ensures LiteralAsWritten(key) ==> (r <==> key in KeySet(es))
    ensures !LiteralAsWritten(key) ==> (r <==> At(Arr(es), Split(key, '/')).Some?)
  {
    if LiteralAsWritten(key) then Find(es, key).Some? else HasWalk(es, Split(key, '/'))
  }

  /** After `set('/a', 1)` on an empty store, `has('/a')` as written says no. */
  lemma HasAsWrittenMissesLeadingSlash()
    ensures !HasInAsWritten(SetIn([], "/a", Scalar("1"), true), "/a")
  {
  }

  /** `has(key, $array)` with the test `get` uses: a path whenever the key holds a `/`. */
  function HasIn(es: seq<Entry>, key: string): (r: bool)
    ensures r <==> At(Arr(es), Split(key, '/')).Some?
  {
    if '/' !in key then
      SplitSingle(key);
      Find(es, key).Some?
    else HasWalk(es, Split(key, '/'))
  }

  /** After `set(key, value)` with a non-null value, `has(key)` holds, for every key. */
  lemma SetThenHas(es: seq<Entry>, key: string, value: Value)
    requires value != Null
    ensures HasIn(SetIn(es, key, value, true), key)
  {
    SetReaches(es, key, value);
  }

  // ---------------------------------------------------------------------
  // delete
  // ---------------------------------------------------------------------

  /**
   * The recursive descent of `delete`: `None` when it throws because an
   * entry on the way is not an array; an absent entry ends it quietly.
   */
  function DeleteWalk(es: seq<Entry>, segs: seq<string>): (r: Option<seq<Entry>>)
    requires |segs| >= 1
    ensures r.Some? ==> KeySet(r.value) <= KeySet(es)
    decreases |segs|
  {
    match Find(es, segs[0])
    case None => Some(es)
    case Some(x) =>
      if |segs| == 1 then Some(Remove(es, segs[0]))
      else match x
        case Arr(inner) =>
          (match DeleteWalk(inner, segs[1..])
           case Some(t) => Some(Put(es, segs[0], Arr(t)))
           case None => None)
        case _ => None
  }

  /**
   * `delete(key, $array)` as written: a literal key (as `!strpos` sees it)
   * that is present is unset; otherwise the key is split on `/` and walked.
   * It throws exactly when there is no such literal key and the walk is
   * blocked; it never adds a key.
   */
  function DeleteInAsWritten(es: seq<Entry>, key: string): (r: Option<seq<Entry>>)
    ensures r.None? <==> !(LiteralAsWritten(key) && key in KeySet(es)) && Blocked(Arr(es), Split(key, '/'))
    ensures r.Some? ==> KeySet(r.value) <= KeySet(es)
  {
    if LiteralAsWritten(key) && Find(es, key).Some? then Some(Remove(es, key))
    else
      DeleteFailsWhenBlocked(es, Split(key, '/'));
      DeleteWalk(es, Split(key, '/'))
  }

  /** `delete(key, $array)` with the test `get` uses for a literal key. */
  function DeleteIn(es: seq<Entry>, key: string): (r: Option<seq<Entry>>)
    ensures r.None? <==> !('/' !in key && key in KeySet(es)) && Blocked(Arr(es), Split(key, '/'))
    ensures r.Some? ==> KeySet(r.value) <= KeySet(es)
  {
    if '/' !in key && Find(es, key).Some? then Some(Remove(es, key))
    else
      DeleteFailsWhenBlocked(es, Split(key, '/'));
      DeleteWalk(es, Split(key, '/'))
  }

  /** The two readings differ only on keys that start with `/`. */
  lemma LeadingSlashOnly(es: seq<Entry>, key: string)
    requires key == [] || key[0] != '/'
    ensures HasInAsWritten(es, key) == HasIn(es, key)
    ensures DeleteInAsWritten(es, key) == DeleteIn(es, key)
  {
  }

  /**
   * With both a literal `/a` and a nested `[""]["a"]` stored, `delete('/a')`
   * as written unsets the literal one and `get('/a')` still finds a value.
   */
  lemma DeleteAsWrittenMissesPath()
    ensures var es := [Entry("/a", Scalar("1")), Entry("", Arr([Entry("a", Scalar("2"))]))];
            DeleteInAsWritten(es, "/a").Some? &&
            GetIn(DeleteInAsWritten(es, "/a").value, {}, "/a", Null) == Found(Scalar("2"))
  {
  }

  /** Some entry on the way to `segs` (not the last) exists but is not an array. */
  predicate Blocked(v: Value, segs: seq<string>)
  {
    exists j :: 1 <= j < |segs| && At(v, segs[..j]).Some? && !At(v, segs[..j]).value.Arr?
  }

  lemma AtPrefixStep(es: seq<Entry>, segs: seq<string>, j: nat)
    requires 1 <= j <= |segs|
    ensures At(Arr(es), segs[..j]) == match Find(es, segs[0])
                                      case Some(x) => At(x, segs[1..][..j - 1])
                                      case None => None
  {
    assert segs[..j][0] == segs[0];
    assert segs[..j][1..] == segs[1..][..j - 1];
  }

  /** `delete` throws exactly when the path runs into a leaf before its end. */
  lemma {:induction false} DeleteFailsWhenBlocked(es: seq<Entry>, segs: seq<string>)
    requires |segs| >= 1
    ensures DeleteWalk(es, segs).None? <==> Blocked(Arr(es), segs)
    decreases |segs|
  {
    match Find(es, segs[0])
    case None =>
      forall j | 1 <= j < |segs| ensures At(Arr(es), segs[..j]).None? {
        AtPrefixStep(es, segs, j);
      }
    case Some(x) =>
      if |segs| > 1 {
        if x.Arr? {
          DeleteFailsWhenBlocked(x.entries, segs[1..]);
          if Blocked(Arr(es), segs) {
            var j :| 1 <= j < |segs| && At(Arr(es), segs[..j]).Some? && !At(Arr(es), segs[..j]).value.Arr?;
            AtPrefixStep(es, segs, j);
            assert j != 1;
            assert At(x, segs[1..][..j - 1]) == At(Arr(es), segs[..j]);
          }
          if Blocked(x, segs[1..]) {
            var j :| 1 <= j < |segs| - 1 && At(x, segs[1..][..j]).Some? && !At(x, segs[1..][..j]).value.Arr?;
            AtPrefixStep(es, segs, j + 1);
            assert At(Arr(es), segs[..j + 1]) == At(x, segs[1..][..j]);
          }
        } else {
          AtPrefixStep(es, segs, 1);
          assert segs[1..][..0] == [];
        }
      }
  }

  /** After a `delete` that did not throw, nothing is found at the path. */
  lemma {:induction false} DeleteRemovesPath(es: seq<Entry>, segs: seq<string>)
    requires |segs| >= 1 && DeleteWalk(es, segs).Some?
    ensures At(Arr(DeleteWalk(es, segs).value), segs).None?
    decreases |segs|
  {
    match Find(es, segs[0])
    case None =>
    case Some(x) =>
      if |segs| > 1 {
        DeleteRemovesPath(x.entries, segs[1..]);
      }
  }

  /** ... nor below it. */
  lemma DeleteRemovesBelow(es: seq<Entry>, segs: seq<string>, more: seq<string>)
    requires |segs| >= 1 && DeleteWalk(es, segs).Some?
    ensures At(Arr(DeleteWalk(es, segs).value), segs + more).None?
  {
    DeleteRemovesPath(es, segs);
    AtAppend(Arr(DeleteWalk(es, segs).value), segs, more);
  }

  /** A `delete` changes nothing on a path disjoint from its own. */
  lemma {:induction false} DeleteKeepsDisjoint(es: seq<Entry>, segs: seq<string>, q: seq<string>)
    requires |segs| >= 1 && DeleteWalk(es, segs).Some? && Disjoint(segs, q)
    ensures At(Arr(DeleteWalk(es, segs).value), q) == At(Arr(es), q)
    decreases |segs|
  {
    assert IsPrefix([], segs);
    if q[0] == segs[0] {
      DisjointTail(segs, q);
      match Find(es, segs[0])
      case None =>
      case Some(x) =>
        DeleteKeepsDisjoint(x.entries, segs[1..], q[1..]);
    }
  }

  /** Deleting a path that leads nowhere (and is not blocked) changes nothing. */
  lemma {:induction false} DeleteAbsent(es: seq<Entry>, segs: seq<string>)
    requires |segs| >= 1 && DeleteWalk(es, segs).Some? && At(Arr(es), segs).None?
    ensures DeleteWalk(es, segs) == Some(es)
    decreases |segs|
  {
    match Find(es, segs[0])
    case None =>
    case Some(x) =>
      DeleteAbsent(x.entries, segs[1..]);
      PutSame(es, segs[0]);
  }

  /** Writing back the value a key already holds changes nothing. */
  lemma {:induction false} PutSame(es: seq<Entry>, k: string)
    requires Find(es, k).Some?
    ensures Put(es, k, Find(es, k).value) == es
  {
    if es[0].key != k {
      PutSame(es[1..], k);
    }
  }

  lemma RemoveDimensional(es: seq<Entry>, k: string)
    requires Dimensional(Arr(es))
    ensures Dimensional(Arr(Remove(es, k)))
  {
  }

  /** `delete` keeps a dimensional store dimensional. */
  lemma {:induction false} DeleteKeepsDimensional(es: seq<Entry>, segs: seq<string>)
    requires |segs| >= 1 && Dimensional(Arr(es)) && DeleteWalk(es, segs).Some?
    ensures Dimensional(Arr(DeleteWalk(es, segs).value))
    decreases |segs|
  {
    match Find(es, segs[0])
    case None =>
    case Some(x) =>
      if |segs| == 1 {
        RemoveDimensional(es, segs[0]);
      } else {
        var j :| 0 <= j < |es| && es[j] == Entry(segs[0], x);
        DimensionalFind(es, segs[0]);
        DeleteKeepsDimensional(x.entries, segs[1..]);
        PutDimensional(es, segs[0], Arr(DeleteWalk(x.entries, segs[1..]).value));
      }
  }

  /** After a `delete` that did not throw, `has` of the same key is false, for every key. */
  lemma DeleteThenHas(es: seq<Entry>, key: string)
    requires DeleteIn(es, key).Some?
    ensures !HasIn(DeleteIn(es, key).value, key)
  {
    if '/' !in key && Find(es, key).Some? {
      SplitSingle(key);
    } else {
      DeleteRemovesPath(es, Split(key, '/'));
    }
  }

  /** A dimensional array holds no key with a `/` in it. */
  lemma NoSlashKeyStored(es: seq<Entry>, key: string)
    requires Dimensional(Arr(es)) && '/' in key
    ensures key !in KeySet(es)
  {
    forall i | 0 <= i < |es| ensures es[i].key != key {
    }
  }

  /**
   * On a dimensional array, `delete` as written and corrected agree, while
   * `has` as written is false for every key that starts with `/`.
   */
  lemma AsWrittenOnDimensional(es: seq<Entry>, key: string)
    requires Dimensional(Arr(es))
    ensures DeleteInAsWritten(es, key) == DeleteIn(es, key)
    ensures key != [] && key[0] == '/' ==> !HasInAsWritten(es, key)
  {
    if '/' in key {
      NoSlashKeyStored(es, key);
    }
  }

  // ---------------------------------------------------------------------
  // The global store
  // ---------------------------------------------------------------------

  /**
   * `Atomik::$_store` and `Atomik::$_namespaces` (Atomik.php:144, 174), and
   * the static methods that act on them when no `$array` is passed.
   */
  class Store {
    var tree: seq<Entry>
    var namespaces: set<string>

    /** No key holds a `/` and no array repeats a key, at any depth. */
    predicate Valid()
      reads this
    {
      Dimensional(Arr(tree))
    }

    constructor ()
      ensures tree == [] && namespaces == {} && Valid()
    {
      tree := [];
      namespaces := {};
    }

    /** `set(key, value, dimensionize)`. */
    method Set(key: string, value: Value, dimensionize: bool)
      modifies this
      ensures tree == SetIn(old(tree), key, value, dimensionize)
      ensures namespaces == old(namespaces)
      ensures old(Valid()) && dimensionize ==> Valid()
    {
      if value != Null {
        if dimensionize && Valid() {
          SetKeepsDimensional(tree, [Entry(key, value)]);
        }
        tree := MergeRecursive(tree, Incoming([Entry(key, value)], dimensionize));
      }
    }

    /** `set(array, null, dimensionize)`: many keys at once. */
    method SetMany(entries: seq<Entry>, dimensionize: bool)
      modifies this
      ensures tree == SetManyIn(old(tree), entries, dimensionize)
      ensures namespaces == old(namespaces)
      ensures old(Valid()) && dimensionize ==> Valid()
    {
      if dimensionize && Valid() {
        SetKeepsDimensional(tree, entries);
      }
      tree := MergeRecursive(tree, Incoming(entries, dimensionize));
    }

    /**
     * `delete(key)` as written: `thrown` when the walk meets a leaf before
     * the path ends. On a valid store it is the corrected delete.
     */
    method Delete(key: string) returns (thrown: bool)
      modifies this
      ensures thrown <==> DeleteInAsWritten(old(tree), key).None?
      ensures tree == if thrown then old(tree) else DeleteInAsWritten(old(tree), key).value
      ensures old(Valid()) ==> tree == if thrown then old(tree) else DeleteIn(old(tree), key).value
      ensures namespaces == old(namespaces)
      ensures old(Valid()) ==> Valid()
    {
      var r := DeleteInAsWritten(tree, key);
      if Valid() {
        AsWrittenOnDimensional(tree, key);
      }
      if r.Some? {
        if Valid() {
          if LiteralAsWritten(key) && Find(tree, key).Some? {
            RemoveDimensional(tree, key);
          } else {
            DeleteKeepsDimensional(tree, Split(key, '/'));
          }
        }
        tree := r.value;
      }
      thrown := r.None?;
    }

    /** `registerSelector(namespace, callback)`: the callback itself is not modelled. */
    method RegisterSelector(namespace: string)
      modifies this
      ensures namespaces == old(namespaces) + {namespace}
      ensures tree == old(tree)
    {
      namespaces := namespaces + {namespace};
    }

    /** `get(key, default)`; no key at all returns the whole store. */
    function Get(key: Option<string>, default: Value): (r: Lookup)
      reads this
      ensures key.None? ==> r == Found(Arr(tree))
      ensures key.Some? ==> r == GetIn(tree, namespaces, key.value, default)
    {
      match key
      case None => Found(Arr(tree))
      case Some(k) => GetIn(tree, namespaces, k, default)
    }

    /**
     * `has(key)` as written: a key that `!strpos` calls literal is looked up
     * as one key, so on a valid store a key starting with `/` is never found.
     */
    function Has(key: string): (r: bool)
      reads this
      ensures LiteralAsWritten(key) ==> (r <==> key in KeySet(tree))
      ensures !LiteralAsWritten(key) ==> (r <==> At(Arr(tree), Split(key, '/')).Some?)
      ensures Valid() && key != [] && key[0] == '/' ==> !r
    {
      if Valid() then
        AsWrittenOnDimensional(tree, key);
        HasInAsWritten(tree, key)
      else HasInAsWritten(tree, key)
    }
  }
}
