/** The three kinds of table query the handlers issue, over a table held as a
    sequence of rows in table order: `.filter(p).all()`, `.filter(p).count()`
    and `.filter(p).first()`; plus the key a new row receives. */
module Query {
  import opened Common

  /** The rows of `s` that satisfy `p`, in table order. */
  function Where<T(!new)>(s: seq<T>, p: T -> bool): (r: seq<T>)
    ensures |r| <= |s|
    ensures forall x :: x in r <==> x in s && p(x)
  {
    if s == [] then [] else (if p(s[0]) then [s[0]] else []) + Where(s[1..], p)
  }

  /** The filter keeps every satisfying row as often as the table holds it,
      and no other row. */
  lemma {:induction false} WhereMultiset<T(!new)>(s: seq<T>, p: T -> bool)
    ensures forall x :: multiset(Where(s, p))[x] == if p(x) then multiset(s)[x] else 0
  {
    if s != [] {
      assert s == [s[0]] + s[1..];
      WhereMultiset(s[1..], p);
    }
  }

  /** The number of rows of `s` that satisfy `p`. */
  function Count<T(!new)>(s: seq<T>, p: T -> bool): nat
  {
    |Where(s, p)|
  }

  /** The index of the first row satisfying `p`, if any. */
  function First<T>(s: seq<T>, p: T -> bool): (r: Option<nat>)
    ensures r.Some? ==> r.value < |s| && p(s[r.value])
    ensures r.Some? ==> forall k :: 0 <= k < r.value ==> !p(s[k])
    ensures r.None? <==> forall k :: 0 <= k < |s| ==> !p(s[k])
  {
    if s == [] then None
    else if p(s[0]) then Some(0)
    else match First(s[1..], p)
      case None => None
      case Some(k) => Some(k + 1)
  }

  /** The primary key the store gives a new row: one more than the largest key
      in the table, or 1 for an empty table (SQLite's rowid rule). */
  function NextKey<T(!new)>(s: seq<T>, key: T -> int): (r: int)
    ensures r >= 1
    ensures forall x :: x in s ==> key(x) < r
  {
    if s == [] then 1
    else
      var rest := NextKey(s[1..], key);
      assert forall x :: x in s ==> x == s[0] || x in s[1..];
      if key(s[0]) + 1 > rest then key(s[0]) + 1 else rest
  }

  /** Appending a row adds it to the filter exactly when it satisfies `p`. */
  lemma {:induction false} WhereAppend<T(!new)>(s: seq<T>, x: T, p: T -> bool)
    ensures Where(s + [x], p) == Where(s, p) + (if p(x) then [x] else [])
  {
    if s == [] {
      assert s + [x] == [x];
    } else {
      var head := if p(s[0]) then [s[0]] else [];
      var tail := if p(x) then [x] else [];
      assert (s + [x])[0] == s[0];
      assert (s + [x])[1..] == s[1..] + [x];
      calc {
        Where(s + [x], p);
        head + Where(s[1..] + [x], p);
        { WhereAppend(s[1..], x, p); }
        head + (Where(s[1..], p) + tail);
        (head + Where(s[1..], p)) + tail;
        Where(s, p) + tail;
      }
    }
  }

  lemma CountAppend<T(!new)>(s: seq<T>, x: T, p: T -> bool)
    ensures Count(s + [x], p) == Count(s, p) + (if p(x) then 1 else 0)
  {
    WhereAppend(s, x, p);
  }

  /** Overwriting row `i` changes the count by what the old and the new row
      contribute, and by nothing else. */
  lemma {:induction false} CountUpdate<T(!new)>(s: seq<T>, i: nat, x: T, p: T -> bool)
    requires i < |s|
    ensures Count(s[i := x], p)
      == Count(s, p) - (if p(s[i]) then 1 else 0) + (if p(x) then 1 else 0)
  {
    if i == 0 {
      assert s[i := x][1..] == s[1..];
    } else {
      assert s[i := x][0] == s[0];
      assert s[i := x][1..] == s[1..][i - 1 := x];
      CountUpdate(s[1..], i - 1, x, p);
    }
  }

  /** A weaker filter never counts fewer rows. */
  lemma {:induction false} CountMonotone<T(!new)>(s: seq<T>, p: T -> bool, q: T -> bool)
    requires forall x :: p(x) ==> q(x)
    ensures Count(s, p) <= Count(s, q)
  {
    if s != [] {
      CountMonotone(s[1..], p, q);
    }
  }

  /** A filter no row satisfies counts nothing. */
  lemma {:induction false} CountNone<T(!new)>(s: seq<T>, p: T -> bool)
    requires forall k :: 0 <= k < |s| ==> !p(s[k])
    ensures Count(s, p) == 0
  {
    if s != [] {
      assert !p(s[0]);
      CountNone(s[1..], p);
    }
  }
}
