/** List operations the recommender applies to Python lists: first-occurrence lookup
    (pandas `.loc` on a unique index), `dict.fromkeys` deduplication, a
    "not in" comprehension filter and the slice `s[:n]`. */
module Sequences {

  function Min(a: int, b: int): int { if a <= b then a else b }

  function Max(a: int, b: int): int { if a <= b then b else a }

  predicate NoDuplicates<T(==)>(s: seq<T>) {
    forall i, j | 0 <= i < j < |s| :: s[i] != s[j]
  }

  /** The position of the first occurrence of `x` in `s`. */
  function FirstIndex<T(==)>(s: seq<T>, x: T): (k: nat)
    requires x in s
    ensures k < |s| && s[k] == x
    ensures x !in s[..k]
  {
    if s[0] == x then 0
    else
      var k' := FirstIndex(s[1..], x);
      assert s[..k' + 1] == [s[0]] + s[1..][..k'];
      k' + 1
  }

  /** In a list without duplicates the element at position `k` is first found at `k`. */
  lemma {:induction false} FirstIndexOfDistinct<T>(s: seq<T>, k: nat)
    requires NoDuplicates(s) && k < |s|
    ensures FirstIndex(s, s[k]) == k
  {
    var f := FirstIndex(s, s[k]);
    assert s[f] == s[k];
    assert f <= k by {
      assert s[..f + 1][f] == s[k];
    }
  }

  /** Appending never moves the first occurrence of an element already present. */
  lemma {:induction false} FirstIndexAppend<T>(s: seq<T>, t: seq<T>, x: T)
    requires x in s
    ensures FirstIndex(s + t, x) == FirstIndex(s, x)
  {
    var g := FirstIndex(s, x);
    assert (s + t)[..g] == s[..g];
    assert (s + t)[g] == x;
  }

  /** `list(dict.fromkeys(s))`: the elements of `s`, each kept at its first occurrence. */
  function Dedup<T(==)>(s: seq<T>): (d: seq<T>)
    ensures NoDuplicates(d)
    ensures forall x | x in d :: x in s
    ensures forall x | x in s :: x in d
  {
    if s == [] then []
    else
      var d := Dedup(s[..|s| - 1]);
      var x := s[|s| - 1];
      assert s == s[..|s| - 1] + [x];
      if x in d then d else d + [x]
  }

  /** `r` lists elements of `c`, in the order in which they first occur in `c`. */
  ghost predicate InFirstOccurrenceOrder<T>(r: seq<T>, c: seq<T>) {
    && (forall x | x in r :: x in c)
    && (forall i, j | 0 <= i < j < |r| :: FirstIndex(c, r[i]) < FirstIndex(c, r[j]))
  }

  /** Deduplication keeps elements in first-occurrence order. */
  lemma {:induction false} DedupOrder<T>(s: seq<T>)
    ensures InFirstOccurrenceOrder(Dedup(s), s)
  {
    if s != [] {
      var s', x := s[..|s| - 1], s[|s| - 1];
      assert s == s' + [x];
      DedupOrder(s');
      var d' := Dedup(s');
      var d := Dedup(s);
      forall i, j | 0 <= i < j < |d|
        ensures FirstIndex(s, d[i]) < FirstIndex(s, d[j])
      {
        assert d[i] in d' && d[i] in s';
        FirstIndexAppend(s', [x], d[i]);
        if j < |d'| {
          FirstIndexAppend(s', [x], d[j]);
        } else {
          assert d[j] == x && x !in s';
          assert s[..|s'|] == s' && s[|s'|] == x;
        }
      }
    }
  }

  /** `[i for i in s if i not in drop]`. */
  function Exclude<T(==)>(s: seq<T>, drop: seq<T>): (r: seq<T>)
    ensures forall x | x in r :: x in s && x !in drop
    ensures forall x | x in s && x !in drop :: x in r
    ensures |r| <= |s|
  {
    if s == [] then []
    else (if s[0] in drop then [] else [s[0]]) + Exclude(s[1..], drop)
  }

  lemma {:induction false} ExcludeNoDuplicates<T>(s: seq<T>, drop: seq<T>)
    requires NoDuplicates(s)
    ensures NoDuplicates(Exclude(s, drop))
  {
    if s != [] {
      assert NoDuplicates(s[1..]) by {
        forall i, j | 0 <= i < j < |s[1..]| ensures s[1..][i] != s[1..][j] {
          assert s[1..][i] == s[i + 1] && s[1..][j] == s[j + 1];
        }
      }
      ExcludeNoDuplicates(s[1..], drop);
      forall k | 0 <= k < |s[1..]| ensures s[1..][k] != s[0] {
        assert s[1..][k] == s[k + 1];
      }
    }
  }

  /** Filtering keeps the relative order of what it keeps. */
  lemma {:induction false} ExcludeOrder<T>(s: seq<T>, drop: seq<T>, c: seq<T>)
    requires InFirstOccurrenceOrder(s, c)
    ensures InFirstOccurrenceOrder(Exclude(s, drop), c)
  {
    if s != [] {
      assert InFirstOccurrenceOrder(s[1..], c) by {
        forall i, j | 0 <= i < j < |s[1..]|
          ensures FirstIndex(c, s[1..][i]) < FirstIndex(c, s[1..][j])
        {
          assert s[1..][i] == s[i + 1] && s[1..][j] == s[j + 1];
        }
      }
      ExcludeOrder(s[1..], drop, c);
      var r := Exclude(s, drop);
      var r' := Exclude(s[1..], drop);
      if s[0] !in drop {
        assert r == [s[0]] + r';
        forall i, j | 0 <= i < j < |r|
          ensures FirstIndex(c, r[i]) < FirstIndex(c, r[j])
        {
          if i == 0 {
            assert r[j] == r'[j - 1] && r[j] in s[1..];
            var k :| 0 <= k < |s[1..]| && s[1..][k] == r[j];
            assert s[k + 1] == r[j];
          } else {
            assert r[i] == r'[i - 1] && r[j] == r'[j - 1];
          }
        }
      } else {
        assert r == r';
      }
    }
  }

  /** The lists of `ss`, joined end to end in order. */
  function Flatten<T>(ss: seq<seq<T>>): (r: seq<T>)
    ensures forall s, x | s in ss && x in s :: x in r
    ensures forall x | x in r :: exists s | s in ss :: x in s
  {
    if ss == [] then []
    else
      var prev := ss[..|ss| - 1];
      var r := Flatten(prev) + ss[|ss| - 1];
      assert forall s | s in ss :: s in prev || s == ss[|ss| - 1];
      assert forall s | s in prev :: s in ss;
      r
  }

  /** Joining a single list gives that list; with `FlattenAppend` this fixes the join
      of any list of lists, order and multiplicity included. */
  lemma FlattenSingle<T>(s: seq<T>)
    ensures Flatten([s]) == s
  {
    assert [s][..0] == [];
  }

  /** Flattening distributes over concatenation. */
  lemma {:induction false} FlattenAppend<T>(ss: seq<seq<T>>, tt: seq<seq<T>>)
    ensures Flatten(ss + tt) == Flatten(ss) + Flatten(tt)
  {
    if tt == [] {
      assert ss + tt == ss;
    } else {
      var tt' := tt[..|tt| - 1];
      FlattenAppend(ss, tt');
      assert (ss + tt)[..|ss + tt| - 1] == ss + tt' && (ss + tt)[|ss + tt| - 1] == tt[|tt| - 1];
    }
  }

  /** The Python slice `s[:n]` for any integer `n`: a negative `n` drops `-n`
      elements from the end. */
  function Prefix<T>(s: seq<T>, n: int): (r: seq<T>)
    ensures 0 <= n ==> |r| == Min(n, |s|)
    ensures n < 0 ==> |r| == Max(0, |s| + n)
    ensures r == s[..|r|]
  {
    if 0 <= n then (if n <= |s| then s[..n] else s)
    else if 0 <= |s| + n then s[..|s| + n]
    else []
  }

  /** In a prefix `r` of `s`, an element kept sits before an element of `s` cut off. */
  lemma PrefixBefore<T>(s: seq<T>, r: seq<T>, y: T, z: T) returns (i: nat, j: nat)
    requires |r| <= |s| && r == s[..|r|]
    requires y in r && z in s && z !in r
    ensures i < |r| <= j < |s| && s[i] == y && s[j] == z
  {
    i :| 0 <= i < |r| && r[i] == y;
    j :| 0 <= j < |s| && s[j] == z;
    assert forall k | 0 <= k < |r| :: r[k] == s[k] && r[k] in r;
  }

  /** A prefix of a list in first-occurrence order of `c` holds only elements that occur
      in `c` before any element of the list it cut off. */
  lemma PrefixEarlier<T>(l: seq<T>, r: seq<T>, c: seq<T>, x: T)
    requires |r| <= |l| && r == l[..|r|] && InFirstOccurrenceOrder(l, c)
    requires x in l && x !in r
    ensures |r| < |l| && x in c
    ensures forall y | y in r :: y in c && FirstIndex(c, y) < FirstIndex(c, x)
  {
    forall y | y in r ensures y in c && FirstIndex(c, y) < FirstIndex(c, x) {
      var i, j := PrefixBefore(l, r, y, x);
    }
  }

  lemma {:induction false} PrefixNoDuplicates<T>(s: seq<T>, n: int)
    requires NoDuplicates(s)
    ensures NoDuplicates(Prefix(s, n))
  {
    var r := Prefix(s, n);
    forall i, j | 0 <= i < j < |r| ensures r[i] != r[j] {
      assert r[i] == s[i] && r[j] == s[j];
    }
  }

  lemma {:induction false} PrefixOrder<T>(s: seq<T>, n: int, c: seq<T>)
    requires InFirstOccurrenceOrder(s, c)
    ensures InFirstOccurrenceOrder(Prefix(s, n), c)
  {
    var r := Prefix(s, n);
    forall x | x in r ensures x in c {
      var k :| 0 <= k < |r| && r[k] == x;
      assert s[k] == x;
    }
    forall i, j | 0 <= i < j < |r| ensures FirstIndex(c, r[i]) < FirstIndex(c, r[j]) {
      assert r[i] == s[i] && r[j] == s[j];
    }
  }

  /** A list without duplicates has as many elements as its set of elements. */
  lemma {:induction false} DistinctCardinality<T>(s: seq<T>)
    requires NoDuplicates(s)
    ensures |set x | x in s| == |s|
  {
    if s != [] {
      var s' := s[..|s| - 1];
      var x := s[|s| - 1];
      assert s == s' + [x];
      assert NoDuplicates(s') by {
        forall i, j | 0 <= i < j < |s'| ensures s'[i] != s'[j] {
          assert s'[i] == s[i] && s'[j] == s[j];
        }
      }
      DistinctCardinality(s');
      forall k | 0 <= k < |s'| ensures s'[k] != x {
        assert s'[k] == s[k];
      }
      assert (set y | y in s) == (set y | y in s') + {x};
    }
  }
}
