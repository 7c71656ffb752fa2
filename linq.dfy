/**
 * The LINQ operators the data-access code composes (`Where`, `FirstOrDefault`,
 * `Any`, `Count`, `Skip`, `Take`, `Select`), as functions over sequences.
 * A table scan visits rows in table order.
 */
module Linq {
  import opened Wrappers

  /** `Where(p)`: the elements satisfying `p`, in their original order. */
  function Where<T(!new)>(s: seq<T>, p: T -> bool): (r: seq<T>)
    ensures |r| <= |s|
    ensures forall x :: x in r <==> x in s && p(x)
    ensures forall i :: 0 <= i < |r| ==> p(r[i])
    ensures multiset(r) <= multiset(s)
  {
    if s == [] then []
    else
      var rest := Where(s[1..], p);
      assert s == [s[0]] + s[1..];
      assert multiset(s) == multiset{s[0]} + multiset(s[1..]);
      if p(s[0]) then
        var r := [s[0]] + rest;
        assert forall i :: 1 <= i < |r| ==> r[i] == rest[i - 1];
        assert multiset(r) == multiset{s[0]} + multiset(rest);
        r
      else rest
  }

  lemma {:induction false} WhereAppend<T(!new)>(a: seq<T>, b: seq<T>, p: T -> bool)
    ensures Where(a + b, p) == Where(a, p) + Where(b, p)
  {
    if a == [] {
      assert a + b == b;
    } else {
      assert (a + b)[1..] == a[1..] + b;
      WhereAppend(a[1..], b, p);
    }
  }

  /** Filtering twice is filtering once by the conjunction. */
  lemma {:induction false} WhereWhere<T(!new)>(s: seq<T>, p: T -> bool, q: T -> bool, both: T -> bool)
    requires forall x :: both(x) == (p(x) && q(x))
    ensures Where(Where(s, p), q) == Where(s, both)
  {
    if s != [] {
      WhereWhere(s[1..], p, q, both);
    }
  }

  /** Filters that agree on every element give the same result. */
  lemma {:induction false} WhereExt<T(!new)>(s: seq<T>, p: T -> bool, q: T -> bool)
    requires forall x :: p(x) == q(x)
    ensures Where(s, p) == Where(s, q)
  {
    if s != [] {
      WhereExt(s[1..], p, q);
    }
  }

  /** A filter every element passes changes nothing. */
  lemma {:induction false} WhereAll<T(!new)>(s: seq<T>, p: T -> bool)
    requires forall x :: x in s ==> p(x)
    ensures Where(s, p) == s
  {
    if s != [] {
      WhereAll(s[1..], p);
    }
  }

  /** The position of the first element satisfying `p`, when there is one. */
  function IndexWhere<T>(s: seq<T>, p: T -> bool): (r: Option<nat>)
    ensures r.Some? ==> r.value < |s| && p(s[r.value])
    ensures r.Some? ==> forall j :: 0 <= j < r.value ==> !p(s[j])
    ensures r.None? <==> forall j :: 0 <= j < |s| ==> !p(s[j])
  {
    if s == [] then None
    else if p(s[0]) then Some(0)
    else match IndexWhere(s[1..], p)
      case None => None
      case Some(k) => Some(k + 1)
  }

  /** `FirstOrDefault(p)` on a reference type: the first match, or `null`. */
  function FirstOrDefault<T(!new)>(s: seq<T>, p: T -> bool): (r: Option<T>)
    ensures r.Some? ==> r.value in s && p(r.value)
    ensures r.None? <==> forall x :: x in s ==> !p(x)
  {
    match IndexWhere(s, p)
    case None => None
    case Some(k) => Some(s[k])
  }

  /** `Any(p)`. */
  function Any<T(!new)>(s: seq<T>, p: T -> bool): (r: bool)
    ensures r <==> exists x :: x in s && p(x)
  {
    if s == [] then false else p(s[0]) || Any(s[1..], p)
  }

  /** `Count(p)`. */
  function Count<T(!new)>(s: seq<T>, p: T -> bool): (r: nat)
    ensures r == |Where(s, p)|
    ensures r <= |s|
    ensures r == 0 <==> forall x :: x in s ==> !p(x)
  {
    if s == [] then 0 else (if p(s[0]) then 1 else 0) + Count(s[1..], p)
  }

  /** `Select(f)`. */
  function Select<T, U>(s: seq<T>, f: T -> U): (r: seq<U>)
    ensures |r| == |s|
    ensures forall i :: 0 <= i < |s| ==> r[i] == f(s[i])
  {
    if s == [] then [] else [f(s[0])] + Select(s[1..], f)
  }

  /** A prefix one longer is the prefix followed by the next element. */
  lemma PrefixSnoc<T>(s: seq<T>, i: nat)
    requires i < |s|
    ensures s[..i + 1] == s[..i] + [s[i]]
  {
  }

  /** Mapping one more element maps it at the end. */
  lemma SelectAppend<T, U>(s: seq<T>, x: T, f: T -> U)
    ensures Select(s + [x], f) == Select(s, f) + [f(x)]
  {
    var a, b := Select(s + [x], f), Select(s, f) + [f(x)];
    assert |a| == |b|;
    forall i | 0 <= i < |a|
      ensures a[i] == b[i]
    {
      if i < |s| {
        assert (s + [x])[i] == s[i];
      }
    }
  }

  /** The same, behind a fixed first element. */
  lemma ConsSelectAppend<T, U>(h: U, s: seq<T>, x: T, f: T -> U)
    ensures [h] + Select(s + [x], f) == ([h] + Select(s, f)) + [f(x)]
  {
    SelectAppend(s, x, f);
    assert [h] + (Select(s, f) + [f(x)]) == ([h] + Select(s, f)) + [f(x)];
  }

  /** `Select` maps membership both ways. */
  lemma SelectMembers<T, U>(s: seq<T>, f: T -> U)
    ensures forall x :: x in s ==> f(x) in Select(s, f)
    ensures forall y :: y in Select(s, f) ==> exists x :: x in s && y == f(x)
  {
    var r := Select(s, f);
    forall x | x in s
      ensures f(x) in r
    {
      var i :| 0 <= i < |s| && s[i] == x;
      assert r[i] == f(x);
    }
    forall y | y in r
      ensures exists x :: x in s && y == f(x)
    {
      var i :| 0 <= i < |r| && r[i] == y;
      assert s[i] in s;
    }
  }

  /** The table with the row at index `i` removed (`DbSet.Remove` + `SaveChanges`). */
  function RemoveAt<T>(s: seq<T>, i: nat): (r: seq<T>)
    requires i < |s|
    ensures |r| == |s| - 1
    ensures forall j :: 0 <= j < i ==> r[j] == s[j]
    ensures forall j :: i <= j < |r| ==> r[j] == s[j + 1]
    ensures multiset(r) + multiset{s[i]} == multiset(s)
  {
    assert s == s[..i] + [s[i]] + s[i + 1..];
    s[..i] + s[i + 1..]
  }

  /** Removing past the first element keeps the first element in front. */
  lemma RemoveAtCons<T>(s: seq<T>, i: nat)
    requires 0 < i < |s|
    ensures RemoveAt(s, i) == [s[0]] + RemoveAt(s[1..], i - 1)
  {
    var r, rt := RemoveAt(s, i), RemoveAt(s[1..], i - 1);
    assert |r| == 1 + |rt|;
    forall j | 0 <= j < |r|
      ensures r[j] == ([s[0]] + rt)[j]
    {
      if 0 < j < i {
        assert rt[j - 1] == s[1..][j - 1];
      } else if j >= i {
        assert rt[j - 1] == s[1..][j];
      }
    }
  }

  /** SQLite `OFFSET n`: a negative offset skips nothing. */
  function Skip<T>(s: seq<T>, n: int): (r: seq<T>)
    ensures |r| == if n <= 0 then |s| else if n >= |s| then 0 else |s| - n
    ensures forall i :: 0 <= i < |r| ==> r[i] == s[i + (if n <= 0 then 0 else n)]
  {
    if n <= 0 then s else if n >= |s| then [] else s[n..]
  }

  /** SQLite `LIMIT n`: a negative limit puts no bound on the rows returned. */
  function Take<T>(s: seq<T>, n: int): (r: seq<T>)
    ensures n >= 0 ==> |r| == if n < |s| then n else |s|
    ensures n < 0 ==> r == s
    ensures forall i :: 0 <= i < |r| ==> r[i] == s[i]
  {
    if n < 0 || n >= |s| then s else s[..n]
  }
}
