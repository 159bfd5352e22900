/**
 * The query operators of LINQ that the repositories use, over sequences that
 * stand for the rows of a table in table order.
 */
module Linq {
  import opened Wrappers

  /** `Where`: the elements of `s` that satisfy `f`, in their order in `s`. */
  function Where<T(!new)>(s: seq<T>, f: T -> bool): (r: seq<T>)
    ensures |r| <= |s|
    ensures forall x :: x in r <==> x in s && f(x)
  {
    if s == [] then []
    else
      assert forall x :: x in s <==> x == s[0] || x in s[1..];
      (if f(s[0]) then [s[0]] else []) + Where(s[1..], f)
  }

  /** The position of the first element of `s` that satisfies `f`. */
  function FirstIndex<T>(s: seq<T>, f: T -> bool): (r: Option<nat>)
    ensures r.Some? ==> r.value < |s| && f(s[r.value])
    ensures r.Some? ==> forall j :: 0 <= j < r.value ==> !f(s[j])
    ensures r.None? <==> forall j :: 0 <= j < |s| ==> !f(s[j])
  {
    if s == [] then None
    else if f(s[0]) then Some(0)
    else
      match FirstIndex(s[1..], f)
      case None => None
      case Some(i) => Some(i + 1)
  }

  /** `FirstOrDefault(f)`: the first element satisfying `f`, or nothing. */
  function FirstOrDefault<T(!new)>(s: seq<T>, f: T -> bool): (r: Option<T>)
    ensures r.Some? ==> r.value in s && f(r.value)
    ensures r.None? <==> forall x :: x in s ==> !f(x)
  {
    match FirstIndex(s, f)
    case None => None
    case Some(i) => Some(s[i])
  }

  /** `FirstOrDefault()` with no predicate: the first element, or nothing. */
  function First<T>(s: seq<T>): (r: Option<T>)
    ensures r.None? <==> s == []
    ensures r.Some? ==> r.value == s[0]
  {
    if s == [] then None else Some(s[0])
  }

  /** `Any(f)`: whether some element satisfies `f`. */
  function Any<T(!new)>(s: seq<T>, f: T -> bool): (r: bool)
    ensures r <==> exists x :: x in s && f(x)
  {
    if s == [] then false
    else
      assert forall x :: x in s <==> x == s[0] || x in s[1..];
      f(s[0]) || Any(s[1..], f)
  }

  /**
   * `Take(n)`, translated to `TOP(n)`: the first `n` elements. The database
   * rejects a negative count, so callers decide that case before calling.
   */
  function Take<T>(s: seq<T>, n: nat): (r: seq<T>)
    ensures |r| == if n < |s| then n else |s|
    ensures r <= s
  {
    if n < |s| then s[..n] else s
  }

  /** `le` orders every pair of values and is transitive. */
  ghost predicate TotalPreorder<T(!new)>(le: (T, T) -> bool)
  {
    && (forall a, b :: le(a, b) || le(b, a))
    && (forall a, b, c :: le(a, b) && le(b, c) ==> le(a, c))
  }

  /** Every element of `s` comes `le`-before every later one. */
  ghost predicate SortedBy<T>(s: seq<T>, le: (T, T) -> bool)
  {
    forall i, j :: 0 <= i < j < |s| ==> le(s[i], s[j])
  }

  /** A sorted sequence stays sorted under a head that is `le`-before all of it. */
  lemma SortedCons<T>(h: T, t: seq<T>, le: (T, T) -> bool)
    requires SortedBy(t, le)
    requires forall k :: 0 <= k < |t| ==> le(h, t[k])
    ensures SortedBy([h] + t, le)
  {
    forall i, j | 0 <= i < j < |[h] + t| ensures le(([h] + t)[i], ([h] + t)[j]) {
      if i > 0 {
        assert ([h] + t)[i] == t[i - 1] && ([h] + t)[j] == t[j - 1];
      }
    }
  }

  /** Puts `x` in front of the first element it is `le`-before. */
  function Insert<T(!new)>(x: T, s: seq<T>, le: (T, T) -> bool): (r: seq<T>)
    requires TotalPreorder(le) && SortedBy(s, le)
    ensures SortedBy(r, le)
    ensures multiset(r) == multiset(s) + multiset{x}
  {
    if s == [] || le(x, s[0]) then
      SortedCons(x, s, le);
      [x] + s
    else
      var rest := Insert(x, s[1..], le);
      assert s == [s[0]] + s[1..];
      InsertHeadBefore(x, s, rest, le);
      [s[0]] + rest
  }

  /** Helper of `Insert`: the head of `s` comes before everything `rest` holds. */
  lemma InsertHeadBefore<T(!new)>(x: T, s: seq<T>, rest: seq<T>, le: (T, T) -> bool)
    requires TotalPreorder(le) && SortedBy(s, le) && s != [] && !le(x, s[0])
    requires SortedBy(rest, le) && multiset(rest) == multiset(s[1..]) + multiset{x}
    ensures SortedBy([s[0]] + rest, le)
  {
    forall k | 0 <= k < |rest| ensures le(s[0], rest[k]) {
      assert rest[k] in multiset(rest);
      if rest[k] != x {
        assert rest[k] in multiset(s[1..]);
        var j :| 0 <= j < |s[1..]| && s[1..][j] == rest[k];
        assert s[j + 1] == rest[k];
      }
    }
    SortedCons(s[0], rest, le);
  }

  /**
   * `OrderBy` with the ordering `le`, as an insertion sort. The database
   * promises no order among elements `le` ranks equal; keeping their order in
   * `s` is this model's choice, and the contract below does not state it.
   */
  function OrderBy<T(!new)>(s: seq<T>, le: (T, T) -> bool): (r: seq<T>)
    requires TotalPreorder(le)
    ensures SortedBy(r, le)
    ensures multiset(r) == multiset(s)
  {
    if s == [] then []
    else
      assert s == [s[0]] + s[1..];
      Insert(s[0], OrderBy(s[1..], le), le)
  }

  /**
   * Taking a prefix of a sorted sequence leaves out nothing that ranks before
   * what it keeps.
   */
  lemma TakeOfSorted<T>(s: seq<T>, le: (T, T) -> bool, n: nat)
    requires SortedBy(s, le)
    ensures forall x, y :: x in Take(s, n) && y in multiset(s) - multiset(Take(s, n)) ==> le(x, y)
  {
    var k := |Take(s, n)|;
    assert Take(s, n) == s[..k];
    assert s == s[..k] + s[k..];
    assert multiset(s) == multiset(s[..k]) + multiset(s[k..]);
    forall x, y | x in s[..k] && y in multiset(s) - multiset(s[..k]) ensures le(x, y) {
      assert y in multiset(s[k..]);
      assert y in s[k..];
      var i :| 0 <= i < k && s[i] == x;
      var j :| 0 <= j < |s[k..]| && s[k..][j] == y;
      assert s[k + j] == y;
    }
  }
}
