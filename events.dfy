/**
 * The event registry of `Atomik` (Atomik.php:1103-1165): per event, an array
 * from integer priority to listener; `listenEvent` probes for a free
 * priority, `fireEvent` calls the listeners by ascending priority.
 */
module Events {
  import opened PhpArray

  /** A callback: a function name, or a class and one of its methods. */
  datatype Listener = Function(name: string) | Method(cls: string, member: string)

  /** The key `fireEvent` files a callback's result under: `implode('::', $callback)` for a pair. */
  function Name(l: Listener): string
  {
    match l
    case Function(n) => n
    case Method(c, f) => c + "::" + f
  }

  /**
   * One element of `$_events[$event]`: a listener filed under its integer
   * priority. The array keeps the order in which priorities were first
   * stored, as every PHP array does.
   */
  datatype Slot = Slot(priority: int, listener: Listener)

  /** The listeners of one event: absent events have none. */
  function ListenersOf(events: map<string, seq<Slot>>, event: string): seq<Slot>
  {
    if event in events then events[event] else []
  }

  /** The priorities in use. */
  function Taken(ls: seq<Slot>): set<int>
  {
    set s | s in ls :: s.priority
  }

  /** No priority is used twice: the listener array is keyed by priority. */
  predicate Unique(ls: seq<Slot>)
  {
    forall i, j :: 0 <= i < j < |ls| ==> ls[i].priority != ls[j].priority
  }

  /** `isset($_events[$event][$p]) ? $_events[$event][$p] : (absent)`. */
  function Lookup(ls: seq<Slot>, p: int): (r: Option<Listener>)
    ensures r.Some? <==> p in Taken(ls)
    ensures r.Some? ==> Slot(p, r.value) in ls
  {
    if ls == [] then None
    else if ls[0].priority == p then Some(ls[0].listener)
    else
      var r := Lookup(ls[1..], p);
      assert forall s :: s in ls[1..] ==> s in ls;
      assert Taken(ls) == {ls[0].priority} + Taken(ls[1..]);
      r
  }

  /** In a keyed listener array a stored listener is the one found under its priority. */
  lemma {:induction false} LookupUnique(ls: seq<Slot>, p: int, l: Listener)
    requires Unique(ls) && Slot(p, l) in ls
    ensures Lookup(ls, p) == Some(l)
  {
  }

  // ---------------------------------------------------------------------
  // listenEvent
  // ---------------------------------------------------------------------

  /** The taken priorities at or above `p` (at or below it when probing down). */
  function Ahead(keys: set<int>, p: int, down: bool): set<int>
  {
    if down then set k | k in keys && k <= p else set k | k in keys && k >= p
  }

  lemma AheadShrinks(keys: set<int>, p: int, down: bool)
    requires p in keys
    ensures |Ahead(keys, if down then p - 1 else p + 1, down)| < |Ahead(keys, p, down)|
  {
    var next := if down then p - 1 else p + 1;
    assert Ahead(keys, next, down) == Ahead(keys, p, down) - {p};
  }

  /**
   * The priority `listenEvent` settles on: the first free one at or above
   * `p`, or at or below it when the listener is `important`.
   */
  function FreeSlot(keys: set<int>, p: int, important: bool): (s: int)
    ensures s !in keys
    ensures !important ==> p <= s && forall q :: p <= q < s ==> q in keys
    ensures important ==> s <= p && forall q :: s < q <= p ==> q in keys
    decreases |Ahead(keys, p, important)|
  {
    if p !in keys then p
    else
      AheadShrinks(keys, p, important);
      FreeSlot(keys, if important then p - 1 else p + 1, important)
  }

  /** The listener array after one registration: the new priority is appended. */
  function Register(ls: seq<Slot>, p: int, important: bool, l: Listener): (r: seq<Slot>)
    ensures var s := FreeSlot(Taken(ls), p, important);
            s !in Taken(ls) && Taken(r) == Taken(ls) + {s} && Lookup(r, s) == Some(l)
    ensures forall q :: q in Taken(ls) ==> Lookup(r, q) == Lookup(ls, q)
    ensures |r| == |ls| + 1
    ensures Unique(ls) ==> Unique(r)
  {
    var s := FreeSlot(Taken(ls), p, important);
    var r := ls + [Slot(s, l)];
    assert forall x :: x in r <==> x in ls || x == Slot(s, l);
    LookupAppend(ls, Slot(s, l));
    r
  }

  lemma {:induction false} LookupAppend(ls: seq<Slot>, x: Slot)
    requires x.priority !in Taken(ls)
    ensures Lookup(ls + [x], x.priority) == Some(x.listener)
    ensures forall q :: q in Taken(ls) ==> Lookup(ls + [x], q) == Lookup(ls, q)
  {
    if ls == [] {
      assert [] + [x] == [x];
    } else {
      assert (ls + [x])[1..] == ls[1..] + [x];
      assert Taken(ls) == {ls[0].priority} + Taken(ls[1..]);
      LookupAppend(ls[1..], x);
    }
  }

  /**
   * Two registrations at the same priority land in registration order, or
   * in reverse order when both are `important`.
   */
  lemma SamePriorityOrder(keys: set<int>, p: int, important: bool)
    ensures var first := FreeSlot(keys, p, important);
            var second := FreeSlot(keys + {first}, p, important);
            if important then second < first else first < second
  {
  }

  // ---------------------------------------------------------------------
  // fireEvent
  // ---------------------------------------------------------------------

  /** `array_keys($_events[$event])`. */
  function Priorities(ls: seq<Slot>): (r: seq<int>)
    ensures |r| == |ls|
  {
    seq(|ls|, i requires 0 <= i < |ls| => ls[i].priority)
  }

  lemma PrioritiesTaken(ls: seq<Slot>)
    ensures forall x :: x in Priorities(ls) <==> x in Taken(ls)
  {
    forall x | x in Taken(ls)
      ensures x in Priorities(ls)
    {
      var s :| s in ls && s.priority == x;
      var i :| 0 <= i < |ls| && ls[i] == s;
      assert Priorities(ls)[i] == x;
    }
  }

  predicate Ascending(s: seq<int>)
  {
    forall i, j :: 0 <= i < j < |s| ==> s[i] <= s[j]
  }

  function Insert(x: int, s: seq<int>): (r: seq<int>)
    requires Ascending(s)
    ensures Ascending(r)
    ensures multiset(r) == multiset(s) + multiset{x}
  {
    if s == [] || x <= s[0] then
      AscendingCons(x, s);
      [x] + s
    else
      var t := Insert(x, s[1..]);
      assert s == [s[0]] + s[1..];
      BoundedBelow(s[0], x, s[1..], t);
      AscendingCons(s[0], t);
      [s[0]] + t
  }

  /** Putting a value no larger than the first in front keeps a list ascending. */
  lemma AscendingCons(x: int, s: seq<int>)
    requires Ascending(s) && forall y :: y in s ==> x <= y
    ensures Ascending([x] + s)
  {
    forall i, j | 0 <= i < j < |s| + 1
      ensures ([x] + s)[i] <= ([x] + s)[j]
    {
      assert ([x] + s)[j] == s[j - 1] && s[j - 1] in s;
      if i > 0 {
        assert ([x] + s)[i] == s[i - 1];
      }
    }
  }

  lemma BoundedBelow(m: int, x: int, s: seq<int>, t: seq<int>)
    requires m < x && Ascending([m] + s) && multiset(t) == multiset(s) + multiset{x}
    ensures forall y :: y in t ==> m <= y
  {
    forall y | y in t
      ensures m <= y
    {
      assert y in multiset(t);
      if y != x {
        assert y in multiset(s);
        var k :| 0 <= k < |s| && s[k] == y;
        assert ([m] + s)[k + 1] == y && ([m] + s)[0] == m;
      }
    }
  }

  /** PHP's `sort` on a list of integers: ascending, and the same integers. */
  function SortInts(s: seq<int>): (r: seq<int>)
    ensures Ascending(r)
    ensures multiset(r) == multiset(s)
  {
    if s == [] then []
    else
      assert s == [s[0]] + s[1..];
      Insert(s[0], SortInts(s[1..]))
  }

  /** The listeners stored under `keys`, in that order. */
  function Calls(ls: seq<Slot>, keys: seq<int>): (r: seq<Listener>)
    requires forall i :: 0 <= i < |keys| ==> keys[i] in Taken(ls)
    ensures |r| == |keys|
  {
    if keys == [] then [] else [Lookup(ls, keys[0]).value] + Calls(ls, keys[1..])
  }

  lemma {:induction false} CallsAppend(ls: seq<Slot>, a: seq<int>, b: seq<int>)
    requires forall i :: 0 <= i < |a| ==> a[i] in Taken(ls)
    requires forall i :: 0 <= i < |b| ==> b[i] in Taken(ls)
    ensures Calls(ls, a + b) == Calls(ls, a) + Calls(ls, b)
  {
    if a == [] {
      assert a + b == b;
    } else {
      assert (a + b)[1..] == a[1..] + b;
      CallsAppend(ls, a[1..], b);
    }
  }

  lemma CallsSnoc(ls: seq<Slot>, keys: seq<int>, i: nat)
    requires forall i :: 0 <= i < |keys| ==> keys[i] in Taken(ls)
    requires i < |keys|
    ensures Calls(ls, keys[..i + 1]) == Calls(ls, keys[..i]) + [Lookup(ls, keys[i]).value]
  {
    assert keys[..i + 1] == keys[..i] + [keys[i]];
    CallsAppend(ls, keys[..i], [keys[i]]);
  }

  lemma {:induction false} CallsAt(ls: seq<Slot>, keys: seq<int>, i: nat)
    requires forall i :: 0 <= i < |keys| ==> keys[i] in Taken(ls)
    requires i < |keys|
    ensures Calls(ls, keys)[i] == Lookup(ls, keys[i]).value
  {
    if i > 0 {
      CallsAt(ls, keys[1..], i - 1);
    }
  }

  /** The priorities `fireEvent` walks: `sort(array_keys(...))`. */
  function CallOrder(ls: seq<Slot>): (r: seq<int>)
    ensures Ascending(r)
    ensures forall x :: x in r <==> x in Taken(ls)
    ensures |r| == |ls|
  {
    var r := SortInts(Priorities(ls));
    PrioritiesTaken(ls);
    assert forall x :: x in r <==> x in multiset(r);
    assert |r| == |multiset(r)|;
    r
  }

  /** The listeners `fireEvent` calls, in the order it calls them: every listener once. */
  function Invoked(ls: seq<Slot>): (r: seq<Listener>)
    ensures |r| == |ls|
  {
    Calls(ls, CallOrder(ls))
  }

  /** A listener just registered is among those the next `fireEvent` calls. */
  lemma RegisteredIsCalled(ls: seq<Slot>, p: int, important: bool, l: Listener)
    ensures l in Invoked(Register(ls, p, important, l))
  {
    var r := Register(ls, p, important, l);
    var s := FreeSlot(Taken(ls), p, important);
    var keys := CallOrder(r);
    assert s in Taken(r);
    var k :| 0 <= k < |keys| && keys[k] == s;
    CallsAt(r, keys, k);
    assert Invoked(r)[k] == l;
  }

  /** In an ascending list a smaller value comes first. */
  lemma AscendingOrder(keys: seq<int>, p: int, q: int) returns (i: nat, j: nat)
    requires Ascending(keys) && p in keys && q in keys && p < q
    ensures i < j < |keys| && keys[i] == p && keys[j] == q
  {
    i :| 0 <= i < |keys| && keys[i] == p;
    j :| 0 <= j < |keys| && keys[j] == q;
  }

  /** A listener at a lower priority is called before one at a higher priority. */
  lemma InvokedInPriorityOrder(ls: seq<Slot>, p: int, a: Listener, q: int, b: Listener)
    requires Unique(ls) && Slot(p, a) in ls && Slot(q, b) in ls && p < q
    ensures exists i, j :: 0 <= i < j < |Invoked(ls)| && Invoked(ls)[i] == a && Invoked(ls)[j] == b
  {
    var keys := CallOrder(ls);
    assert p in Taken(ls) && q in Taken(ls);
    var i, j := AscendingOrder(keys, p, q);
    CallsAt(ls, keys, i);
    CallsAt(ls, keys, j);
    LookupUnique(ls, p, a);
    LookupUnique(ls, q, b);
    assert Invoked(ls)[i] == a && Invoked(ls)[j] == b;
  }

  /**
   * The results array: one entry per callback name, the last call's result
   * winning. Every name called gets a key, and no key appears twice.
   */
  function Collect(acc: seq<Entry>, ls: seq<Listener>, reply: Listener -> string): (r: seq<Entry>)
    ensures KeySet(r) == KeySet(acc) + Names(ls)
    ensures Keyed(acc) ==> Keyed(r)
    decreases |ls|
  {
    if ls == [] then acc
    else Collect(Put(acc, Name(ls[0]), Scalar(reply(ls[0]))), ls[1..], reply)
  }

  /** Calling one more listener files one more result. */
  lemma {:induction false} CollectSnoc(acc: seq<Entry>, ls: seq<Listener>, l: Listener, reply: Listener -> string)
    ensures Collect(acc, ls + [l], reply) == Put(Collect(acc, ls, reply), Name(l), Scalar(reply(l)))
    decreases |ls|
  {
    if ls == [] {
      assert [] + [l] == [l];
    } else {
      assert (ls + [l])[1..] == ls[1..] + [l];
      CollectSnoc(Put(acc, Name(ls[0]), Scalar(reply(ls[0]))), ls[1..], l, reply);
    }
  }

  /** The names of the listeners in `ls`. */
  function Names(ls: seq<Listener>): (r: set<string>)
    ensures forall l :: l in ls ==> Name(l) in r
  {
    if ls == [] then {} else {Name(ls[0])} + Names(ls[1..])
  }

  /** Callbacks sharing a name share one result: the one called last. */
  lemma {:induction false} CollectLast(acc: seq<Entry>, ls: seq<Listener>, reply: Listener -> string, i: nat)
    requires i < |ls|
    requires forall j :: i < j < |ls| ==> Name(ls[j]) != Name(ls[i])
    ensures Find(Collect(acc, ls, reply), Name(ls[i])) == Some(Scalar(reply(ls[i])))
    decreases |ls|
  {
    var next := Put(acc, Name(ls[0]), Scalar(reply(ls[0])));
    if i == 0 {
      CollectUntouched(next, ls[1..], reply, Name(ls[0]));
    } else {
      CollectLast(next, ls[1..], reply, i - 1);
    }
  }

  lemma {:induction false} CollectUntouched(acc: seq<Entry>, ls: seq<Listener>, reply: Listener -> string, n: string)
    requires forall j :: 0 <= j < |ls| ==> Name(ls[j]) != n
    ensures Find(Collect(acc, ls, reply), n) == Find(acc, n)
    decreases |ls|
  {
    if ls != [] {
      CollectUntouched(Put(acc, Name(ls[0]), Scalar(reply(ls[0]))), ls[1..], reply, n);
    }
  }

  /** `implode('', $results)`. */
  function Concat(es: seq<Entry>): string
  {
    if es == [] then ""
    else (match es[0].val case Scalar(t) => t case _ => "") + Concat(es[1..])
  }

  /** What `fireEvent` returns: the results array, or their concatenation. */
  datatype Fired = Results(entries: seq<Entry>) | Joined(text: string)

  function FireSpec(ls: seq<Slot>, reply: Listener -> string, asString: bool): Fired
  {
    var results := Collect([], Invoked(ls), reply);
    if asString then Joined(Concat(results)) else Results(results)
  }

  /** An event nobody listens to gives an empty array, or an empty string. */
  lemma FireNobody(reply: Listener -> string)
    ensures FireSpec([], reply, false) == Results([])
    ensures FireSpec([], reply, true) == Joined("")
  {
  }

  // ---------------------------------------------------------------------
  // attachClassListeners: method names to event names
  // ---------------------------------------------------------------------

  predicate IsUpper(c: char)
  {
    'A' <= c <= 'Z'
  }

  /** PCRE's `\w`: an ASCII letter, digit or underscore. */
  predicate IsWord(c: char)
  {
    IsUpper(c) || 'a' <= c <= 'z' || '0' <= c <= '9' || c == '_'
  }

  /** `preg_match('/^on[A-Z].*$/', $method)`. */
  predicate IsListenerMethod(member: string)
  {
    |member| >= 3 && member[0] == 'o' && member[1] == 'n' && IsUpper(member[2])
  }

  /** A listener method is named `on` followed by a name that starts with a capital. */
  lemma ListenerMethodShape(member: string)
    ensures IsListenerMethod(member) <==> exists name :: member == "on" + name && |name| >= 1 && IsUpper(name[0])
  {
    if IsListenerMethod(member) {
      assert member == "on" + member[2..];
    }
  }

  /** Whether `::` goes before position `i`: a capital right after a word character. */
  predicate Splits(s: string, i: nat)
    requires i < |s|
  {
    i > 0 && IsUpper(s[i]) && IsWord(s[i - 1])
  }

  /** How many positions from `i` on get a `::`. */
  function SplitCount(s: string, i: nat): (n: nat)
    requires i <= |s|
    ensures n <= |s| - i
    decreases |s| - i
  {
    if i == |s| then 0 else (if Splits(s, i) then 1 else 0) + SplitCount(s, i + 1)
  }

  /**
   * `preg_replace('/(?<=\w)([A-Z])/', '::\1', s)` from position `i` on:
   * every character is kept, and exactly two characters are added for each
   * capital that follows a word character.
   */
  function Separate(s: string, i: nat): (r: string)
    requires i <= |s|
    ensures |r| == (|s| - i) + 2 * SplitCount(s, i)
    ensures |s| - i <= |r| <= 3 * (|s| - i)
    decreases |s| - i
  {
    if i == |s| then ""
    else (if Splits(s, i) then "::" else "") + [s[i]] + Separate(s, i + 1)
  }

  /** `b` is what `a` ends with. */
  predicate IsSuffix(a: string, b: string)
  {
    |b| <= |a| && a[|a| - |b|..] == b
  }

  /** The replacement from a later position on is the tail of the replacement from an earlier one. */
  lemma {:induction false} SeparateSuffix(s: string, i: nat, k: nat)
    requires i <= k <= |s|
    ensures IsSuffix(Separate(s, i), Separate(s, k))
    decreases k - i
  {
    if i < k {
      SeparateSuffix(s, i + 1, k);
      var head := (if Splits(s, i) then "::" else "") + [s[i]];
      var a := Separate(s, i + 1);
      var b := Separate(s, k);
      assert Separate(s, i) == head + a;
      assert (head + a)[|head + a| - |b|..] == a[|a| - |b|..];
    }
  }

  /**
   * Where the replacement puts `::`: the text for position `k` starts with
   * `::` exactly when the character there is a capital after a word
   * character, and the character itself follows right after.
   */
  lemma SeparateHead(s: string, k: nat)
    requires k < |s| && s[k] != ':'
    ensures var r := Separate(s, k);
            ((|r| >= 2 && r[..2] == "::") <==> Splits(s, k)) &&
            r[if Splits(s, k) then 2 else 0] == s[k]
  {
    var r := Separate(s, k);
    if !Splits(s, k) {
      assert r == [s[k]] + Separate(s, k + 1);
      assert r[0] == s[k];
    } else {
      assert r == "::" + [s[k]] + Separate(s, k + 1);
    }
  }

  /** A stretch without capitals after word characters is copied as it is. */
  lemma {:induction false} SeparateRun(s: string, i: nat, j: nat)
    requires i <= j <= |s|
    requires forall k :: i <= k < j ==> !Splits(s, k)
    ensures Separate(s, i) == s[i..j] + Separate(s, j)
    decreases j - i
  {
    if i < j {
      assert !Splits(s, i);
      assert Separate(s, i) == [s[i]] + Separate(s, i + 1);
      SeparateRun(s, i + 1, j);
      assert s[i..j] == [s[i]] + s[i + 1..j];
      Regroup([s[i]], s[i + 1..j], Separate(s, j));
    }
  }

  /** The text before position `|a|` is replaced on its own, whatever follows it. */
  lemma {:induction false} SeparateAppend(a: string, b: string, i: nat)
    requires i <= |a|
    ensures Separate(a + b, i) == Separate(a, i) + Separate(a + b, |a|)
    decreases |a| - i
  {
    if i < |a| {
      var s := a + b;
      assert s[i] == a[i];
      assert i > 0 ==> s[i - 1] == a[i - 1];
      assert Splits(s, i) == Splits(a, i);
      SeparateAppend(a, b, i + 1);
      var h := (if Splits(a, i) then "::" else "") + [a[i]];
      assert Separate(s, i) == h + Separate(s, i + 1);
      assert Separate(a, i) == h + Separate(a, i + 1);
      Regroup(h, Separate(a, i + 1), Separate(s, |a|));
    }
  }

  /** A capitalised word: a capital, then no other capital, ending in a word character. */
  predicate CapWord(w: string)
  {
    |w| >= 1 && IsUpper(w[0]) && IsWord(w[|w| - 1]) && forall k :: 1 <= k < |w| ==> !IsUpper(w[k])
  }

  /** The words written one after the other. */
  function Glued(ws: seq<string>): string
  {
    if ws == [] then "" else Glued(ws[..|ws| - 1]) + ws[|ws| - 1]
  }

  /** The words with `::` between each two. */
  function ColonJoin(ws: seq<string>): string
    requires |ws| >= 1
  {
    if |ws| == 1 then ws[0] else ColonJoin(ws[..|ws| - 1]) + "::" + ws[|ws| - 1]
  }

  /** Capitalised words written together come out joined by `::`, however many there are. */
  lemma {:induction false} SeparateWords(ws: seq<string>)
    requires |ws| >= 1 && forall w :: w in ws ==> CapWord(w)
    ensures Separate(Glued(ws), 0) == ColonJoin(ws)
    decreases |ws|
  {
    var w := ws[|ws| - 1];
    assert w in ws;
    var init := ws[..|ws| - 1];
    assert Glued(ws) == Glued(init) + w;
    if |ws| == 1 {
      assert init == [];
      assert Glued(ws) == w;
      OneWord(w);
    } else {
      assert forall x :: x in init ==> x in ws;
      SeparateWords(init);
      var a := Glued(init);
      GluedEnds(init);
      SeparateAppend(a, w, 0);
      assert (a + w)[|a|..] == w;
      assert (a + w)[|a| - 1] == a[|a| - 1];
      SecondWord(a + w, |a|, w);
    }
  }

  /** A single capitalised word is copied as it is. */
  lemma OneWord(w: string)
    requires CapWord(w)
    ensures Separate(w, 0) == w
  {
    SeparateRun(w, 0, |w|);
    assert w[0..|w|] == w;
  }

  /** Capitalised words written together end in a word character. */
  lemma GluedEnds(ws: seq<string>)
    requires |ws| >= 1 && forall w :: w in ws ==> CapWord(w)
    ensures var c := Glued(ws); |c| >= 1 && IsWord(c[|c| - 1])
  {
    var w := ws[|ws| - 1];
    assert w in ws;
    assert Glued(ws) == Glued(ws[..|ws| - 1]) + w;
  }

  /**
   * The event a listener method answers: `onDispatchBefore` answers
   * `Dispatch::Before` (`EventNameExample`). It starts with the capital
   * after `on`, never with `::`.
   */
  function EventName(member: string): (r: string)
    requires IsListenerMethod(member)
    ensures |r| >= |member| - 2 && r[0] == member[2]
  {
    Separate(member[2..], 0)
  }

  /** `s` with every `:` removed. */
  function DropColons(s: string): string
  {
    if s == [] then "" else (if s[0] == ':' then "" else [s[0]]) + DropColons(s[1..])
  }

  lemma {:induction false} DropColonsAppend(a: string, b: string)
    ensures DropColons(a + b) == DropColons(a) + DropColons(b)
  {
    if a != [] {
      assert (a + b)[1..] == a[1..] + b;
      DropColonsAppend(a[1..], b);
    } else {
      assert a + b == b;
    }
  }

  /** Taking the separators out again gives back the text: only `::` was inserted. */
  lemma {:induction false} SeparateRoundTrip(s: string, i: nat)
    requires i <= |s| && ':' !in s
    ensures DropColons(Separate(s, i)) == s[i..]
    decreases |s| - i
  {
    if i < |s| {
      var sep := if Splits(s, i) then "::" else "";
      var tail := Separate(s, i + 1);
      assert Separate(s, i) == sep + [s[i]] + tail;
      SeparateRoundTrip(s, i + 1);
      assert s[i] in s;
      DropColonsStep(sep, s[i], tail);
      assert s[i..] == [s[i]] + s[i + 1..];
    }
  }

  /** Dropping the colons from one separated character. */
  lemma DropColonsStep(sep: string, ch: char, tail: string)
    requires sep == "" || sep == "::"
    requires ch != ':'
    ensures DropColons(sep + [ch] + tail) == [ch] + DropColons(tail)
  {
    DropColonsAppend(sep + [ch], tail);
    DropColonsAppend(sep, [ch]);
    assert DropColons([ch]) == [ch] by {
      assert [ch][1..] == [];
    }
    assert DropColons(sep) == "" by {
      if sep == "::" {
        assert sep[1..] == ":";
        assert sep[1..][1..] == [];
      }
    }
  }

  /** The event name of a method name is the name after `on`, with `::` put back in. */
  lemma EventNameRoundTrip(member: string)
    requires IsListenerMethod(member) && ':' !in member
    ensures DropColons(EventName(member)) == member[2..]
  {
    assert forall c :: c in member[2..] ==> c in member;
    SeparateRoundTrip(member[2..], 0);
  }

  /** Two capitalised words with no other capitals come out joined by `::`. */
  lemma SeparateTwoWords(a: string, b: string)
    requires |a| >= 1 && |b| >= 1 && IsWord(a[|a| - 1]) && IsUpper(b[0])
    requires forall k :: 1 <= k < |a| ==> !IsUpper(a[k])
    requires forall k :: 1 <= k < |b| ==> !IsUpper(b[k])
    ensures Separate(a + b, 0) == a + "::" + b
  {
    var s := a + b;
    SeparateAppend(a, b, 0);
    assert forall k :: 0 <= k < |a| ==> !Splits(a, k);
    SeparateRun(a, 0, |a|);
    assert Separate(a, 0) == a by {
      assert a[0..|a|] == a;
      assert Separate(a, |a|) == "";
    }
    assert Separate(s, |a|) == "::" + b by {
      assert s[|a|..] == b;
      assert s[|a| - 1] == a[|a| - 1];
      SecondWord(s, |a|, b);
    }
    Regroup(a, "::", b);
  }

  /** Concatenation regrouped, in a context small enough to prove it quickly. */
  lemma Regroup(a: string, b: string, c: string)
    ensures a + (b + c) == a + b + c
  {
  }

  /** The second word of `SeparateTwoWords`: `::` and then the word as it is. */
  lemma SecondWord(s: string, n: nat, b: string)
    requires 1 <= n <= |s| && |b| >= 1 && s[n..] == b && IsWord(s[n - 1]) && IsUpper(b[0])
    requires forall k :: 1 <= k < |b| ==> !IsUpper(b[k])
    ensures Separate(s, n) == "::" + b
  {
    assert s[n] == b[0];
    assert Separate(s, n) == "::" + [s[n]] + Separate(s, n + 1);
    forall k | n + 1 <= k < |s| ensures !Splits(s, k) {
      assert s[k] == b[k - n];
    }
    SeparateRun(s, n + 1, |s|);
    assert s[n + 1..] == b[1..];
    assert b == [b[0]] + b[1..];
  }

  lemma EventNameExample()
    ensures EventName("onDispatchBefore") == "Dispatch" + "::" + "Before"
  {
    assert "onDispatchBefore"[2..] == "Dispatch" + "Before";
    SeparateTwoWords("Dispatch", "Before");
  }

  /** The usual listener name: the three parts of an Atomik event name. */
  lemma EventNameThreeParts()
    ensures EventName("onAtomikDispatchBefore") == "Atomik" + "::" + "Dispatch" + "::" + "Before"
  {
    assert CapWord("Atomik") && CapWord("Dispatch") && CapWord("Before");
    var w := "Atomik" + "Dispatch" + "Before";
    assert "onAtomikDispatchBefore" == "on" + w;
    assert ("on" + w)[2..] == w;
    SeparateThreeWords("Atomik", "Dispatch", "Before");
  }

  /** Three capitalised words written together come out as `a::b::c`. */
  lemma SeparateThreeWords(a: string, b: string, c: string)
    requires CapWord(a) && CapWord(b) && CapWord(c)
    ensures Separate(a + b + c, 0) == a + "::" + b + "::" + c
  {
    ThreeWords(a, b, c);
    SeparateWords([a, b, c]);
  }

  /** Three words, written together and joined. */
  lemma ThreeWords(a: string, b: string, c: string)
    ensures Glued([a, b, c]) == a + b + c
    ensures ColonJoin([a, b, c]) == a + "::" + b + "::" + c
  {
    var ws := [a, b, c];
    assert ws[..2] == [a, b] && [a, b][..1] == [a] && [a][..0] == [];
    assert Glued([a]) == Glued([]) + a == a;
    assert Glued([a, b]) == Glued([a]) + b;
    assert Glued(ws) == Glued([a, b]) + c;
    assert ColonJoin([a, b]) == ColonJoin([a]) + "::" + b;
    assert ColonJoin(ws) == ColonJoin([a, b]) + "::" + c;
  }

  // ---------------------------------------------------------------------
  // The registry
  // ---------------------------------------------------------------------

  /** `Atomik::$_events` (Atomik.php:164) and the methods that use it. */
  class Registry {
    var events: map<string, seq<Slot>>

    /** Every event's listener array is keyed by priority. */
    predicate Valid()
      reads this
    {
      forall e :: e in events ==> Unique(events[e])
    }

    constructor ()
      ensures events == map[] && Valid()
    {
      events := map[];
    }

    /** `listenEvent(event, callback, priority, important)`. */
    method ListenEvent(event: string, callback: Listener, priority: int, important: bool)
      modifies this
      ensures events == old(events)[event := Register(ListenersOf(old(events), event), priority, important, callback)]
      ensures old(Valid()) ==> Valid()
    {
      var ls := ListenersOf(events, event);
      var p := priority;
      while Lookup(ls, p).Some?
        invariant events == old(events)
        invariant FreeSlot(Taken(ls), p, important) == FreeSlot(Taken(ls), priority, important)
        decreases |Ahead(Taken(ls), p, important)|
      {
        AheadShrinks(Taken(ls), p, important);
        p := p + (if important then -1 else 1);
      }
      assert FreeSlot(Taken(ls), p, important) == p;
      events := events[event := ls + [Slot(p, callback)]];
    }

    /**
     * `attachClassListeners(class)`: every `on[A-Z]...` method of the class
     * (in the order `get_class_methods` lists them) listens, at the default
     * priority 50, to the event its name spells.
     */
    method AttachClassListeners(cls: string, methods: seq<string>)
      modifies this
      ensures events == AttachSpec(old(events), cls, methods)
      ensures old(Valid()) ==> Valid()
    {
      var i := 0;
      while i < |methods|
        invariant 0 <= i <= |methods|
        invariant AttachSpec(old(events), cls, methods) == AttachSpec(events, cls, methods[i..])
        invariant old(Valid()) ==> Valid()
      {
        assert methods[i..][1..] == methods[i + 1..];
        if IsListenerMethod(methods[i]) {
          ListenEvent(EventName(methods[i]), Method(cls, methods[i]), 50, false);
        }
        i := i + 1;
      }
    }

    /**
     * `fireEvent(event, args, resultAsString)`. The callbacks' answers
     * are given by `reply`; `called` lists the callbacks in call order.
     */
    method FireEvent(event: string, reply: Listener -> string, asString: bool) returns (called: seq<Listener>, result: Fired)
      ensures called == Invoked(ListenersOf(events, event))
      ensures result == FireSpec(ListenersOf(events, event), reply, asString)
    {
      var ls := ListenersOf(events, event);
      var keys := SortInts(Priorities(ls));
      assert keys == CallOrder(ls);
      called, result := CallAll(ls, keys, reply, asString);
    }
  }

  /** The `foreach` over the sorted priorities of `fireEvent`. */
  method CallAll(ls: seq<Slot>, keys: seq<int>, reply: Listener -> string, asString: bool)
    returns (called: seq<Listener>, result: Fired)
    requires forall i :: 0 <= i < |keys| ==> keys[i] in Taken(ls)
    ensures called == Calls(ls, keys)
    ensures var results := Collect([], Calls(ls, keys), reply);
            result == if asString then Joined(Concat(results)) else Results(results)
  {
    called := [];
    var results: seq<Entry> := [];
    var i := 0;
    while i < |keys|
      invariant 0 <= i <= |keys|
      invariant called == Calls(ls, keys[..i])
      invariant results == Collect([], called, reply)
    {
      var l := Lookup(ls, keys[i]).value;
      CallsSnoc(ls, keys, i);
      CollectSnoc([], called, l, reply);
      called := called + [l];
      results := Put(results, Name(l), Scalar(reply(l)));
      i := i + 1;
    }
    assert keys[..i] == keys;
    if asString {
      result := Joined(Concat(results));
    } else {
      result := Results(results);
    }
  }

  /** The registry after attaching the listener methods of `cls`. */
  function AttachSpec(events: map<string, seq<Slot>>, cls: string, methods: seq<string>): map<string, seq<Slot>>
    decreases |methods|
  {
    if methods == [] then events
    else if IsListenerMethod(methods[0]) then
      var e := EventName(methods[0]);
      AttachSpec(events[e := Register(ListenersOf(events, e), 50, false, Method(cls, methods[0]))], cls, methods[1..])
    else AttachSpec(events, cls, methods[1..])
  }
}
