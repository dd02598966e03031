/** Sequence operations behind the recent-sketches list: removing every
    copy of a value, keeping first occurrences only, and reversal. */
module Lists {

  /** No value occurs twice. */
  predicate NoDup<T(==)>(s: seq<T>)
  {
    forall i, j :: 0 <= i < j < |s| ==> s[i] != s[j]
  }

  /** `s` without any copy of `x`, the rest in order. */
  function RemoveAll<T(==,!new)>(s: seq<T>, x: T): (r: seq<T>)
    ensures forall y :: y in r <==> y in s && y != x
    ensures |r| <= |s|
  {
    if s == [] then []
    else (if s[0] == x then [] else [s[0]]) + RemoveAll(s[1..], x)
  }

  /** The first occurrence of every value of `s`, in the order of `s`. */
  function Dedup<T(==,!new)>(s: seq<T>): (r: seq<T>)
    ensures NoDup(r)
    ensures forall x :: x in r <==> x in s
    ensures |r| <= |s|
    decreases |s|
  {
    if s == [] then []
    else
      var tail := Dedup(RemoveAll(s[1..], s[0]));
      assert s[0] !in tail;
      assert forall i :: 1 <= i < |[s[0]] + tail| ==> ([s[0]] + tail)[i] == tail[i - 1];
      [s[0]] + tail
  }

  /** `s` back to front. */
  function Reverse<T>(s: seq<T>): (r: seq<T>)
    ensures |r| == |s|
    ensures forall i :: 0 <= i < |s| ==> r[i] == s[|s| - 1 - i]
  {
    if s == [] then [] else Reverse(s[1..]) + [s[0]]
  }

  /** Position of the first `x` in `s`. */
  function FirstIndex<T(==)>(s: seq<T>, x: T): (k: nat)
    requires x in s
    ensures k < |s| && s[k] == x && x !in s[..k]
  {
    if s[0] == x then 0
    else
      var k := FirstIndex(s[1..], x);
      assert s[..k + 1] == [s[0]] + s[1..][..k];
      k + 1
  }

  lemma {:induction false} RemoveAllAppend<T(!new)>(a: seq<T>, b: seq<T>, x: T)
    ensures RemoveAll(a + b, x) == RemoveAll(a, x) + RemoveAll(b, x)
  {
    if a != [] {
      assert (a + b)[0] == a[0];
      assert (a + b)[1..] == a[1..] + b;
      RemoveAllAppend(a[1..], b, x);
    } else {
      assert a + b == b;
    }
  }

  /** The tail of a list without repetitions has none either, and does
      not hold the head. */
  lemma {:induction false} NoDupTail<T>(s: seq<T>)
    requires NoDup(s) && s != []
    ensures NoDup(s[1..]) && s[0] !in s[1..]
  {
    assert forall i :: 0 <= i < |s[1..]| ==> s[1..][i] == s[i + 1];
  }

  /** Removing a value that is absent changes nothing. */
  lemma {:induction false} RemoveAllAbsent<T(!new)>(s: seq<T>, x: T)
    requires x !in s
    ensures RemoveAll(s, x) == s
  {
    if s != [] {
      RemoveAllAbsent(s[1..], x);
      assert [s[0]] + s[1..] == s;
    }
  }

  lemma {:induction false} RemoveAllCommutes<T(!new)>(s: seq<T>, x: T, y: T)
    ensures RemoveAll(RemoveAll(s, x), y) == RemoveAll(RemoveAll(s, y), x)
  {
    if s != [] {
      RemoveAllCommutes(s[1..], x, y);
      var hx := if s[0] == x then [] else [s[0]];
      var hy := if s[0] == y then [] else [s[0]];
      RemoveAllAppend(hx, RemoveAll(s[1..], x), y);
      RemoveAllAppend(hy, RemoveAll(s[1..], y), x);
    }
  }

  lemma {:induction false} RemoveAllNoDup<T(!new)>(s: seq<T>, x: T)
    requires NoDup(s)
    ensures NoDup(RemoveAll(s, x))
    decreases |s|
  {
    if s != [] {
      RemoveAllNoDup(s[1..], x);
      var r := RemoveAll(s, x);
      var t := RemoveAll(s[1..], x);
      if s[0] != x {
        assert s[0] !in s[1..];
        assert forall i :: 1 <= i < |r| ==> r[i] == t[i - 1];
      }
    }
  }

  /** Dedup and removal of one value can be done in either order. */
  lemma {:induction false} DedupRemoveAll<T(!new)>(s: seq<T>, x: T)
    ensures Dedup(RemoveAll(s, x)) == RemoveAll(Dedup(s), x)
    decreases |s|
  {
    if s != [] {
      var h, u := s[0], s[1..];
      var tail := Dedup(RemoveAll(u, h));
      assert Dedup(s) == [h] + tail;
      RemoveAllAppend([h], tail, x);
      if h == x {
        // both sides are the deduplicated tail without x
        assert RemoveAll(s, x) == RemoveAll(u, x);
        DedupRemoveAll(RemoveAll(u, x), x);
        RemoveAllTwice(u, x);
      } else {
        assert RemoveAll(s, x) == [h] + RemoveAll(u, x);
        assert ([h] + RemoveAll(u, x))[1..] == RemoveAll(u, x);
        RemoveAllCommutes(u, x, h);
        DedupRemoveAll(RemoveAll(u, h), x);
      }
    }
  }

  lemma {:induction false} RemoveAllTwice<T(!new)>(s: seq<T>, x: T)
    ensures RemoveAll(RemoveAll(s, x), x) == RemoveAll(s, x)
  {
    RemoveAllAbsent(RemoveAll(s, x), x);
  }

  /** A sequence without repetitions is its own Dedup. */
  lemma {:induction false} DedupOfNoDup<T(!new)>(s: seq<T>)
    requires NoDup(s)
    ensures Dedup(s) == s
    decreases |s|
  {
    if s != [] {
      assert s[0] !in s[1..];
      RemoveAllAbsent(s[1..], s[0]);
      assert NoDup(s[1..]);
      DedupOfNoDup(s[1..]);
      assert [s[0]] + s[1..] == s;
    }
  }

  /** Deduplicating a list without repetitions behind a new head removes
      the head's copies and nothing else. */
  lemma {:induction false} FrontDedup<T(!new)>(x: T, w: seq<T>)
    requires NoDup(w)
    ensures Dedup([x] + w) == [x] + RemoveAll(w, x)
  {
    assert ([x] + w)[1..] == w;
    RemoveAllNoDup(w, x);
    DedupOfNoDup(RemoveAll(w, x));
  }

  /** Dedup keeps first occurrences in their original order: an earlier
      entry of the result first occurs earlier in `s`. */
  lemma {:induction false} DedupOrder<T(!new)>(s: seq<T>, i: int, j: int)
    requires 0 <= i < j < |Dedup(s)|
    ensures FirstIndex(s, Dedup(s)[i]) < FirstIndex(s, Dedup(s)[j])
    decreases |s|
  {
    var h, u := s[0], s[1..];
    var t := RemoveAll(u, h);
    var tail := Dedup(t);
    assert Dedup(s) == [h] + tail;
    var b := tail[j - 1];
    assert Dedup(s)[j] == b;
    InRemoveAll(u, h, b);
    FirstIndexBehind(s, b);
    if i == 0 {
      assert Dedup(s)[i] == h;
    } else {
      var a := tail[i - 1];
      assert Dedup(s)[i] == a;
      assert a in tail && b in tail;
      assert a in t && b in t;
      DedupOrder(t, i - 1, j - 1);
      OrderThroughRemoval(u, h, t, a, b);
      FirstIndexBehind(s, a);
    }
  }

  /** First occurrences keep their order when a third value is put back. */
  lemma {:induction false} OrderThroughRemoval<T(!new)>(u: seq<T>, h: T, t: seq<T>, a: T, b: T)
    requires t == RemoveAll(u, h)
    requires a in t && b in t && FirstIndex(t, a) < FirstIndex(t, b)
    ensures a in u && b in u && a != h && b != h
    ensures FirstIndex(u, a) < FirstIndex(u, b)
  {
    InRemoveAll(u, h, a);
    InRemoveAll(u, h, b);
    FirstIndexRemoveAll(u, h, a, b);
  }

  lemma {:induction false} InRemoveAll<T(!new)>(s: seq<T>, x: T, y: T)
    requires y in RemoveAll(s, x)
    ensures y in s && y != x
  {
    var k :| 0 <= k < |RemoveAll(s, x)| && RemoveAll(s, x)[k] == y;
  }

  lemma {:induction false} FirstIndexTail<T>(s: seq<T>, x: T)
    requires x in s && s[0] != x
    ensures x in s[1..] && FirstIndex(s, x) == FirstIndex(s[1..], x) + 1
  {
  }

  /** The first occurrence of a value other than the head is one further
      on than in the tail. */
  lemma {:induction false} FirstIndexBehind<T>(s: seq<T>, x: T)
    requires s != [] && x in s[1..] && s[0] != x
    ensures x in s && FirstIndex(s, x) == FirstIndex(s[1..], x) + 1
  {
    var k :| 0 <= k < |s[1..]| && s[1..][k] == x;
    assert s[k + 1] == x;
    FirstIndexTail(s, x);
  }

  /** Removing a third value keeps the relative order of first occurrences. */
  lemma {:induction false} FirstIndexRemoveAll<T(!new)>(s: seq<T>, h: T, a: T, b: T)
    requires a in s && b in s && a != h && b != h
    ensures a in RemoveAll(s, h) && b in RemoveAll(s, h)
    ensures FirstIndex(RemoveAll(s, h), a) < FirstIndex(RemoveAll(s, h), b)
            <==> FirstIndex(s, a) < FirstIndex(s, b)
    decreases |s|
  {
    var r := RemoveAll(s, h);
    if s[0] == h {
      assert r == RemoveAll(s[1..], h);
      FirstIndexTail(s, a);
      FirstIndexTail(s, b);
      FirstIndexRemoveAll(s[1..], h, a, b);
    } else if s[0] == a || s[0] == b {
      assert r[0] == s[0];
    } else {
      assert r == [s[0]] + RemoveAll(s[1..], h);
      FirstIndexTail(s, a);
      FirstIndexTail(s, b);
      FirstIndexTail(r, a);
      FirstIndexTail(r, b);
      assert r[1..] == RemoveAll(s[1..], h);
      FirstIndexRemoveAll(s[1..], h, a, b);
    }
  }

  lemma {:induction false} ReverseAppend<T>(a: seq<T>, b: seq<T>)
    ensures Reverse(a + b) == Reverse(b) + Reverse(a)
  {
  }

  lemma {:induction false} ReverseReverse<T>(s: seq<T>)
    ensures Reverse(Reverse(s)) == s
  {
  }

  lemma {:induction false} ReverseRemoveAll<T(!new)>(s: seq<T>, x: T)
    ensures Reverse(RemoveAll(s, x)) == RemoveAll(Reverse(s), x)
  {
    if s != [] {
      var h := if s[0] == x then [] else [s[0]];
      ReverseRemoveAll(s[1..], x);
      ReverseAppend(h, RemoveAll(s[1..], x));
      assert Reverse(h) == h;
      RemoveAllAppend(Reverse(s[1..]), [s[0]], x);
    }
  }

  lemma {:induction false} ReverseNoDup<T>(s: seq<T>)
    requires NoDup(s)
    ensures NoDup(Reverse(s))
  {
    var r := Reverse(s);
    forall i, j | 0 <= i < j < |r| ensures r[i] != r[j] {
      assert r[i] == s[|s| - 1 - i] && r[j] == s[|s| - 1 - j];
    }
  }

  /** Two sequences without repetitions and without a common value
      concatenate to one without repetitions. */
  lemma {:induction false} NoDupAppend<T>(a: seq<T>, b: seq<T>)
    requires NoDup(a) && NoDup(b)
    requires forall i, j :: 0 <= i < |a| && 0 <= j < |b| ==> a[i] != b[j]
    ensures NoDup(a + b)
  {
    var c := a + b;
    forall i, j | 0 <= i < j < |c| ensures c[i] != c[j] {
      if j < |a| {
        assert c[i] == a[i] && c[j] == a[j];
      } else if i >= |a| {
        assert c[i] == b[i - |a|] && c[j] == b[j - |a|];
      } else {
        assert c[i] == a[i] && c[j] == b[j - |a|];
      }
    }
  }

}
