/** Sequence filters used by the schema planner: dropping `null` entries and
    LINQ's order-preserving `Distinct`. */
module Seqs {
  import opened Wrappers

  /** The values of the `Some` entries of `s`, in order; the model of
      `Where(x => x != null)`. */
  function Somes<T(!new)>(s: seq<Option<T>>): (r: seq<T>)
    ensures |r| <= |s|
    ensures forall x :: x in r <==> Some(x) in s
  {
    if |s| == 0 then []
    else
      assert s == [s[0]] + s[1..];
      (if s[0].Some? then [s[0].value] else []) + Somes(s[1..])
  }

  lemma {:induction false} SomesAppend<T(!new)>(a: seq<Option<T>>, b: seq<Option<T>>)
    ensures Somes(a + b) == Somes(a) + Somes(b)
  {
    if |a| == 0 {
      assert a + b == b;
    } else {
      assert (a + b)[1..] == a[1..] + b;
      SomesAppend(a[1..], b);
    }
  }

  /** `rank` strictly increases over the values of the `Some` entries of `s`,
      taken in order. */
  predicate SomesIncreasingBy<T(!new)>(rank: T -> int, s: seq<Option<T>>) {
    forall i, j :: 0 <= i < j < |s| && s[i].Some? && s[j].Some? ==> rank(s[i].value) < rank(s[j].value)
  }

  /** `Somes` keeps the order of `s`: a ranking that strictly increases over
      the `Some` values of `s` strictly increases along the result. */
  lemma {:induction false} SomesKeepsOrder<T(!new)>(s: seq<Option<T>>, rank: T -> int)
    requires SomesIncreasingBy(rank, s)
    ensures IncreasingBy(rank, Somes(s))
  {
    if |s| > 0 {
      var rest := s[1..];
      assert SomesIncreasingBy(rank, rest) by {
        forall i, j | 0 <= i < j < |rest| && rest[i].Some? && rest[j].Some?
          ensures rank(rest[i].value) < rank(rest[j].value)
        {
          assert rest[i] == s[i + 1] && rest[j] == s[j + 1];
        }
      }
      SomesKeepsOrder(rest, rank);
      var tail := Somes(rest);
      assert Somes(s) == if s[0].Some? then [s[0].value] + tail else tail;
      if s[0].Some? {
        var r := [s[0].value] + tail;
        forall i, j | 0 <= i < j < |r| ensures rank(r[i]) < rank(r[j]) {
          if i == 0 {
            assert r[j] == tail[j - 1] && tail[j - 1] in tail;
            var k :| 0 <= k < |rest| && rest[k] == Some(r[j]);
            assert s[k + 1] == Some(r[j]);
          } else {
            assert r[i] == tail[i - 1] && r[j] == tail[j - 1];
          }
        }
      }
    }
  }

  predicate NoDuplicates<T(==,!new)>(s: seq<T>) {
    forall i, j :: 0 <= i < j < |s| ==> s[i] != s[j]
  }

  lemma NoDuplicatesCons<T(!new)>(x: T, s: seq<T>)
    requires x !in s && NoDuplicates(s)
    ensures NoDuplicates([x] + s)
  {
    forall i, j | 0 <= i < j < |[x] + s| ensures ([x] + s)[i] != ([x] + s)[j] {
      if i > 0 {
        assert ([x] + s)[i] == s[i - 1];
      }
      assert ([x] + s)[j] == s[j - 1];
    }
  }

  lemma NoDuplicatesTail<T(!new)>(s: seq<T>)
    requires |s| > 0 && NoDuplicates(s)
    ensures s[0] !in s[1..] && NoDuplicates(s[1..])
  {
    forall i | 0 <= i < |s[1..]| ensures s[1..][i] != s[0] {
      assert s[1..][i] == s[i + 1];
    }
    forall i, j | 0 <= i < j < |s[1..]| ensures s[1..][i] != s[1..][j] {
      assert s[1..][i] == s[i + 1] && s[1..][j] == s[j + 1];
    }
  }

  /** The position of the first occurrence of `x` in `s`. */
  function FirstIndex<T(==)>(s: seq<T>, x: T): (i: nat)
    requires x in s
    ensures i < |s| && s[i] == x
    ensures forall j :: 0 <= j < i ==> s[j] != x
  {
    if s[0] == x then 0
    else
      assert x in s[1..] by {
        assert s == [s[0]] + s[1..];
      }
      1 + FirstIndex(s[1..], x)
  }

  /** A position holding `x` with no `x` before it is the first occurrence. */
  lemma FirstIndexIs<T>(s: seq<T>, x: T, k: nat)
    requires k < |s| && s[k] == x
    requires forall j :: 0 <= j < k ==> s[j] != x
    ensures FirstIndex(s, x) == k
  {
  }

  /** Appending never moves a first occurrence; a new last element first
      occurs at the end. */
  lemma FirstIndexSnoc<T>(init: seq<T>, last: T)
    ensures forall y :: y in init ==> FirstIndex(init + [last], y) == FirstIndex(init, y)
    ensures last !in init ==> FirstIndex(init + [last], last) == |init|
  {
    var s := init + [last];
    forall y | y in init ensures FirstIndex(s, y) == FirstIndex(init, y) {
      var k := FirstIndex(init, y);
      forall j | 0 <= j < k ensures s[j] != y {
        assert s[j] == init[j];
      }
      FirstIndexIs(s, y, k);
    }
    if last !in init {
      forall j | 0 <= j < |init| ensures s[j] != last {
        assert s[j] == init[j] && init[j] in init;
      }
      FirstIndexIs(s, last, |init|);
    }
  }

  /** A first occurrence behind a prefix that lacks the element. */
  lemma FirstIndexAppend<T>(h: seq<T>, t: seq<T>, x: T)
    requires x !in h && x in t
    ensures FirstIndex(h + t, x) == |h| + FirstIndex(t, x)
  {
    var s := h + t;
    var k := FirstIndex(t, x);
    forall j | 0 <= j < |h| + k ensures s[j] != x {
      if j < |h| {
        assert s[j] == h[j] && h[j] in h;
      } else {
        assert s[j] == t[j - |h|];
      }
    }
    FirstIndexIs(s, x, |h| + k);
  }

  /** The elements of `s` with every repeat removed, each kept at its first
      occurrence and in the order of those first occurrences; the model of
      LINQ's `Distinct()`. */
  function Distinct<T(==,!new)>(s: seq<T>): (r: seq<T>)
    ensures NoDuplicates(r)
    ensures forall x :: x in r <==> x in s
    ensures |r| <= |s|
    ensures forall i, j :: 0 <= i < j < |r| ==> FirstIndex(s, r[i]) < FirstIndex(s, r[j])
  {
    if |s| == 0 then []
    else
      var init := s[..|s| - 1];
      var last := s[|s| - 1];
      assert s == init + [last];
      FirstIndexSnoc(init, last);
      var d := Distinct(init);
      if last in init then d
      else
        assert forall i :: 0 <= i < |d| ==> FirstIndex(s, d[i]) < |init| by {
          forall i | 0 <= i < |d| ensures FirstIndex(s, d[i]) < |init| {
            assert d[i] in d;
          }
        }
        d + [last]
  }

  /** `rank` strictly increases along `s`. */
  predicate IncreasingBy<T(!new)>(rank: T -> int, s: seq<T>) {
    forall i, j :: 0 <= i < j < |s| ==> rank(s[i]) < rank(s[j])
  }

  /** `Without` keeps the order of `s`: a ranking that strictly increases
      along `s` strictly increases along the result. */
  lemma {:induction false} WithoutKeepsOrder<T(!new)>(s: seq<T>, exclude: seq<T>, rank: T -> int)
    requires IncreasingBy(rank, s)
    ensures IncreasingBy(rank, Without(s, exclude))
  {
    if |s| > 0 {
      var rest := s[1..];
      assert IncreasingBy(rank, rest) by {
        forall i, j | 0 <= i < j < |rest| ensures rank(rest[i]) < rank(rest[j]) {
          assert rest[i] == s[i + 1] && rest[j] == s[j + 1];
        }
      }
      WithoutKeepsOrder(rest, exclude, rank);
      var tail := Without(rest, exclude);
      assert Without(s, exclude) == if s[0] in exclude then tail else [s[0]] + tail;
      if s[0] !in exclude {
        var r := [s[0]] + tail;
        forall i, j | 0 <= i < j < |r| ensures rank(r[i]) < rank(r[j]) {
          if i == 0 {
            assert r[j] == tail[j - 1] && tail[j - 1] in tail;
            var k :| 0 <= k < |rest| && rest[k] == r[j];
            assert s[k + 1] == r[j];
          } else {
            assert r[i] == tail[i - 1] && r[j] == tail[j - 1];
          }
        }
      }
    }
  }

  /** The elements of `s` that are not in `exclude`, in order; the model of
      `Where(x => !exclude.Contains(x))`. */
  function Without<T(==,!new)>(s: seq<T>, exclude: seq<T>): (r: seq<T>)
    ensures forall x :: x in r <==> x in s && x !in exclude
    ensures NoDuplicates(s) ==> NoDuplicates(r)
  {
    if |s| == 0 then []
    else
      var rest := Without(s[1..], exclude);
      assert s == [s[0]] + s[1..];
      assert NoDuplicates(s) ==> s[0] !in s[1..] && NoDuplicates(s[1..]) by {
        if NoDuplicates(s) {
          forall i | 0 <= i < |s[1..]| ensures s[1..][i] != s[0] {
            assert s[1..][i] == s[i + 1];
          }
        }
      }
      if s[0] in exclude then rest
      else
        assert NoDuplicates(s) ==> NoDuplicates([s[0]] + rest) by {
          if NoDuplicates(s) {
            forall i, j | 0 <= i < j < |[s[0]] + rest| ensures ([s[0]] + rest)[i] != ([s[0]] + rest)[j] {
              if i == 0 {
                assert ([s[0]] + rest)[j] in rest;
              } else {
                assert ([s[0]] + rest)[i] == rest[i - 1] && ([s[0]] + rest)[j] == rest[j - 1];
              }
            }
          }
        }
        [s[0]] + rest
  }
}
