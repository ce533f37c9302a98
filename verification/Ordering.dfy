/**
 The row order the two SQLite queries ask for (`ORDER BY ... DESC`) and the
 `LIMIT`/`OFFSET` window SQLite applies to it. Rows are identified by their integer key;
 a score function gives the value ordered on, higher first, and equal scores fall back to
 ascending keys, the order SQLite's index scan returns ties in.
 */
module Ordering {

  /** `a` is listed before `b`. A strict total order on keys. */
  predicate Precedes(score: int -> int, a: int, b: int) {
    score(a) > score(b) || (score(a) == score(b) && a < b)
  }

  predicate IsFirst(keys: set<int>, score: int -> int, f: int) {
    f in keys && forall o :: o in keys && o != f ==> Precedes(score, f, o)
  }

  /** Adding a key to a set with a first key leaves either the old first key or the new
      key first. */
  lemma FirstOfInsert(keys: set<int>, score: int -> int, x: int, f: int)
    requires IsFirst(keys, score, f)
    ensures IsFirst(keys + {x}, score, f) || IsFirst(keys + {x}, score, x)
  {
    if x != f && !Precedes(score, f, x) {
      assert Precedes(score, x, f);
      forall o | o in keys + {x} && o != x
        ensures Precedes(score, x, o)
      {
        if o != f {
          PrecedesTransitive(score, x, f, o);
        }
      }
    }
  }

  lemma EmptyOrElement(keys: set<int>)
    ensures keys == {} || exists o :: o in keys
  {
    if forall o :: o !in keys {
      assert keys == {};
    }
  }

  /** Some key of a non-empty set. */
  lemma Element(keys: set<int>) returns (x: int)
    requires keys != {}
    ensures x in keys
  {
    EmptyOrElement(keys);
    x :| x in keys;
  }

  lemma {:induction false} FirstExists(keys: set<int>, score: int -> int)
    requires keys != {}
    ensures exists f :: IsFirst(keys, score, f)
    decreases |keys|
  {
    var x := Element(keys);
    var rest := keys - {x};
    if rest == {} {
      assert keys == {x};
      assert IsFirst(keys, score, x);
    } else {
      FirstExists(rest, score);
      var f :| IsFirst(rest, score, f);
      FirstOfInsert(rest, score, x, f);
      assert rest + {x} == keys;
    }
  }

  lemma PrecedesTransitive(score: int -> int, a: int, b: int, c: int)
    requires Precedes(score, a, b) && Precedes(score, b, c)
    ensures Precedes(score, a, c)
  {
  }

  /** The key listed first. */
  function First(keys: set<int>, score: int -> int): (f: int)
    requires keys != {}
    ensures f in keys
    ensures forall o :: o in keys && o != f ==> Precedes(score, f, o)
  {
    FirstExists(keys, score);
    var f :| IsFirst(keys, score, f);
    f
  }

  /** All keys in listing order. */
  function Ranked(keys: set<int>, score: int -> int): (r: seq<int>)
    ensures |r| == |keys|
    ensures forall x :: x in r <==> x in keys
    ensures forall i, j :: 0 <= i < j < |r| ==> Precedes(score, r[i], r[j])
    decreases |keys|
  {
    if keys == {} then []
    else
      var f := First(keys, score);
      [f] + Ranked(keys - {f}, score)
  }

  /** The keys listed before `k`. */
  function Ahead(keys: set<int>, score: int -> int, k: int): set<int> {
    set o | o in keys && Precedes(score, o, k)
  }

  lemma DistinctCard(r: seq<int>)
    requires forall i, j :: 0 <= i < j < |r| ==> r[i] != r[j]
    ensures |set x | x in r| == |r|
  {
    if r != [] {
      var tail := r[1..];
      DistinctCard(tail);
      assert (set x | x in r) == {r[0]} + (set x | x in tail);
    }
  }

  /** The key at position `i` of the ranking has exactly `i` keys ahead of it: the
      ranking is the order the query defines, not just some order. */
  lemma {:induction false} RankIsPosition(keys: set<int>, score: int -> int, i: int)
    requires 0 <= i < |keys|
    ensures |Ahead(keys, score, Ranked(keys, score)[i])| == i
  {
    var r := Ranked(keys, score);
    var prefix := r[..i];
    assert Ahead(keys, score, r[i]) == set x | x in prefix by {
      forall o | o in keys
        ensures Precedes(score, o, r[i]) <==> o in prefix
      {
        var j :| 0 <= j < |r| && r[j] == o;
        if j < i {
          assert prefix[j] == o;
        } else if j > i {
          assert Precedes(score, r[i], o);
        }
      }
    }
    forall a, b | 0 <= a < b < |prefix|
      ensures prefix[a] != prefix[b]
    {
      assert Precedes(score, r[a], r[b]);
    }
    DistinctCard(prefix);
  }

  /** Every key sits in the ranking at the position given by the number of keys ahead
      of it. */
  lemma RankOfMember(keys: set<int>, score: int -> int, k: int)
    requires k in keys
    ensures |Ahead(keys, score, k)| < |keys|
    ensures Ranked(keys, score)[|Ahead(keys, score, k)|] == k
  {
    var r := Ranked(keys, score);
    var j :| 0 <= j < |r| && r[j] == k;
    RankIsPosition(keys, score, j);
  }

  /** How many of `n` rows `LIMIT limit OFFSET offset` returns. */
  function WindowLength(n: nat, offset: int, limit: int): nat {
    var start := if offset < 0 then 0 else if offset > n then n else offset;
    if limit < 0 || start + limit > n then n - start else limit
  }

  /** SQLite's `LIMIT limit OFFSET offset`: a negative offset counts as 0 and a negative
      limit means no limit. */
  function Window<T>(s: seq<T>, offset: int, limit: int): (r: seq<T>)
    ensures |r| == WindowLength(|s|, offset, limit)
    ensures var start := if offset < 0 then 0 else if offset > |s| then |s| else offset;
      forall i :: 0 <= i < |r| ==> r[i] == s[start + i]
  {
    var start := if offset < 0 then 0 else if offset > |s| then |s| else offset;
    var rest := s[start..];
    if limit < 0 || limit >= |rest| then rest else rest[..limit]
  }

  /** A window of a strictly descending sequence is strictly descending, draws its
      elements from it and holds at most `limit` of them. */
  lemma WindowOfDescending(s: seq<int>, offset: int, limit: int)
    requires forall i, j :: 0 <= i < j < |s| ==> s[i] > s[j]
    ensures limit >= 0 ==> |Window(s, offset, limit)| <= limit
    ensures forall i :: 0 <= i < |Window(s, offset, limit)| ==> Window(s, offset, limit)[i] in s
    ensures forall i, j :: 0 <= i < j < |Window(s, offset, limit)| ==> Window(s, offset, limit)[i] > Window(s, offset, limit)[j]
  {
    var w := Window(s, offset, limit);
    var start := if offset < 0 then 0 else if offset > |s| then |s| else offset;
    forall i, j | 0 <= i < j < |w| ensures w[i] > w[j] {
      assert w[i] == s[start + i] && w[j] == s[start + j];
    }
  }

  /** A window of the ranking starts where it should: its `i`-th key has exactly
      `offset + i` keys ahead of it (a negative offset reading as 0). */
  lemma WindowPosition(keys: set<int>, score: int -> int, offset: int, limit: int, i: int)
    requires 0 <= i < WindowLength(|keys|, offset, limit)
    ensures i < |Window(Ranked(keys, score), offset, limit)|
    ensures |Ahead(keys, score, Window(Ranked(keys, score), offset, limit)[i])|
      == (if offset < 0 then 0 else offset) + i
  {
    var r := Ranked(keys, score);
    var j := (if offset < 0 then 0 else offset) + i;
    WindowAt(r, offset, limit, i);
    RankIsPosition(keys, score, j);
    SameKeySameRank(keys, score, Window(r, offset, limit)[i], r[j]);
  }

  lemma SameKeySameRank(keys: set<int>, score: int -> int, a: int, b: int)
    requires a == b
    ensures |Ahead(keys, score, a)| == |Ahead(keys, score, b)|
  {
  }

  /** The `i`-th element of a window, a negative offset reading as 0. */
  lemma WindowAt<T>(s: seq<T>, offset: int, limit: int, i: int)
    requires 0 <= i < |Window(s, offset, limit)|
    ensures (if offset < 0 then 0 else offset) + i < |s|
    ensures Window(s, offset, limit)[i] == s[(if offset < 0 then 0 else offset) + i]
  {
  }

  /** The first `limit` elements, all of them when `limit` is negative. */
  function Head<T>(s: seq<T>, limit: int): (r: seq<T>)
    ensures |r| == (if limit < 0 || limit > |s| then |s| else limit)
    ensures r == s[..|r|]
  {
    Window(s, 0, limit)
  }
}
