/**
 * The string primitives the framework leans on, stated for `seq<char>`:
 * `explode` / `implode` on one separator character, `trim` with a
 * one-character list, and the two-character `strpos` searches used by the
 * dispatcher's security gate.
 */
module Text {

  /** Position of the first `c` in `s` (PHP `strpos` with a one-character needle). */
  function IndexOf(s: string, c: char): (i: nat)
    requires c in s
    ensures i < |s| && s[i] == c
    ensures c !in s[..i]
  {
    if s[0] == c then 0 else 1 + IndexOf(s[1..], c)
  }

  /** The first `c` is at `n` when `s[n]` is a `c` and nothing before it is. */
  lemma IndexOfAt(s: string, c: char, n: nat)
    requires n < |s| && s[n] == c
    requires forall k :: 0 <= k < n ==> s[k] != c
    ensures IndexOf(s, c) == n
  {
    if n > 0 {
      IndexOfAt(s[1..], c, n - 1);
    }
  }

  /** PHP `implode(c, parts)`: the parts with one `c` between neighbours. */
  function Join(parts: seq<string>, c: char): string
  {
    if |parts| == 0 then ""
    else if |parts| == 1 then parts[0]
    else parts[0] + [c] + Join(parts[1..], c)
  }

  /**
   * PHP `explode(c, s)`: the maximal `c`-free pieces of `s`, in order.
   * `explode('/', '')` is `['']`, so there is always at least one piece.
   */
  function Split(s: string, c: char): (parts: seq<string>)
    ensures |parts| >= 1
    ensures forall p :: p in parts ==> c !in p
    ensures |parts| == 1 <==> c !in s
    ensures Join(parts, c) == s
    decreases |s|
  {
    if c !in s then [s]
    else
      var i := IndexOf(s, c);
      var rest := Split(s[i + 1..], c);
      assert s == s[..i] + [c] + s[i + 1..];
      [s[..i]] + rest
  }

  /** Splitting undoes joining pieces that do not contain the separator. */
  lemma {:induction false} SplitJoin(parts: seq<string>, c: char)
    requires |parts| >= 1
    requires forall p :: p in parts ==> c !in p
    ensures Split(Join(parts, c), c) == parts
    decreases |parts|
  {
    if |parts| > 1 {
      var tail := Join(parts[1..], c);
      assert Join(parts, c) == parts[0] + [c] + tail;
      assert parts[0] in parts;
      FirstSeparator(parts[0], c, tail);
      SplitJoin(parts[1..], c);
      assert parts == [parts[0]] + parts[1..];
    }
  }

  /** In `p + [c] + t` with no `c` in `p`, the first `c` is the one after `p`. */
  lemma FirstSeparator(p: string, c: char, t: string)
    requires c !in p
    ensures var s := p + [c] + t;
            c in s && IndexOf(s, c) == |p| && s[..|p|] == p && s[|p| + 1..] == t
  {
    var s := p + [c] + t;
    assert s[|p|] == c;
    forall k | 0 <= k < |p| ensures s[k] != c {
      assert s[k] == p[k];
    }
    IndexOfAt(s, c, |p|);
    assert s[..|p|] == p;
    assert s[|p| + 1..] == t;
  }

  /** PHP `ltrim(s, c)`: drops every leading `c`. */
  function TrimLeft(s: string, c: char): (r: string)
    ensures |r| <= |s| && r == s[|s| - |r|..]
    ensures forall i :: 0 <= i < |s| - |r| ==> s[i] == c
    ensures r == [] || r[0] != c
  {
    if s != [] && s[0] == c then TrimLeft(s[1..], c) else s
  }

  /** PHP `rtrim(s, c)`: drops every trailing `c`. */
  function TrimRight(s: string, c: char): (r: string)
    ensures |r| <= |s| && r == s[..|r|]
    ensures forall i :: |r| <= i < |s| ==> s[i] == c
    ensures r == [] || r[|r| - 1] != c
  {
    if s != [] && s[|s| - 1] == c then TrimRight(s[..|s| - 1], c) else s
  }

  /**
   * PHP `trim(s, c)`: what is left between a run of leading and a run of
   * trailing `c`s, and neither end of it is a `c`.
   */
  function Trim(s: string, c: char): (r: string)
    ensures r == [] || (r[0] != c && r[|r| - 1] != c)
    ensures exists i, j :: 0 <= i <= j <= |s| && r == s[i..j] &&
                           (forall k :: 0 <= k < i ==> s[k] == c) &&
                           (forall k :: j <= k < |s| ==> s[k] == c)
  {
    var l := TrimLeft(s, c);
    var r := TrimRight(l, c);
    CutBetween(s, c, |s| - |l|, l, r);
    r
  }

  /**
   * `r` cut from the front of `s`'s suffix `l` (from `i` on), with only
   * `c`s after it in `l`: it is a slice of `s` followed only by `c`s.
   */
  lemma CutBetween(s: string, c: char, i: nat, l: string, r: string)
    requires i <= |s| && l == s[i..] && |r| <= |l| && r == l[..|r|]
    requires forall k :: |r| <= k < |l| ==> l[k] == c
    ensures r == s[i..i + |r|]
    ensures forall k :: i + |r| <= k < |s| ==> s[k] == c
  {
    forall k | i + |r| <= k < |s|
      ensures s[k] == c
    {
      assert s[k] == l[k - i];
    }
  }

  /** `strpos(s, [a, b]) !== false`: the two characters occur next to each other. */
  predicate HasPair(s: string, a: char, b: char)
  {
    exists i :: 0 <= i < |s| - 1 && s[i] == a && s[i + 1] == b
  }
}
