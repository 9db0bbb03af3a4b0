/**
 * The order Python puts on `str` values (code point by code point, a proper
 * prefix first) and sorting a list of names into descending order, as
 * `list.sort(reverse=True)` does.
 */
module StringOrder {

  /** Python's `a < b` on strings. */
  predicate Below(a: string, b: string)
    decreases |a|
  {
    if a == [] then b != []
    else if b == [] then false
    else if a[0] != b[0] then a[0] < b[0]
    else Below(a[1..], b[1..])
  }

  /**
   * Reference definition of the same order: `a` is a proper prefix of `b`, or
   * the two agree up to some position where `a` has the smaller character.
   */
  ghost predicate LexicographicallyBefore(a: string, b: string) {
    (|a| < |b| && a == b[..|a|])
    || exists k :: 0 <= k < |a| && k < |b| && a[..k] == b[..k] && a[k] < b[k]
  }

  lemma {:induction false} BelowIsLexicographic(a: string, b: string)
    ensures Below(a, b) <==> LexicographicallyBefore(a, b)
    decreases |a|
  {
    if a != [] && b != [] {
      if a[0] != b[0] {
        if LexicographicallyBefore(a, b) {
          if |a| < |b| { assert b[..|a|][0] == b[0]; }
          var k :| 0 <= k < |a| && k < |b| && a[..k] == b[..k] && a[k] < b[k];
        }
        if a[0] < b[0] {
          assert a[..0] == b[..0];
        }
      } else {
        BelowIsLexicographic(a[1..], b[1..]);
        if LexicographicallyBefore(a[1..], b[1..]) {
          if |a[1..]| < |b[1..]| && a[1..] == b[1..][..|a[1..]|] {
            assert a == b[..|a|];
          } else {
            var k :| 0 <= k < |a[1..]| && k < |b[1..]| && a[1..][..k] == b[1..][..k] && a[1..][k] < b[1..][k];
            assert a[..k + 1] == [a[0]] + a[1..][..k];
            assert b[..k + 1] == [b[0]] + b[1..][..k];
          }
        }
        if LexicographicallyBefore(a, b) {
          if |a| < |b| && a == b[..|a|] {
            assert a[1..] == b[1..][..|a[1..]|];
          } else {
            var k :| 0 <= k < |a| && k < |b| && a[..k] == b[..k] && a[k] < b[k];
            assert k != 0;
            assert a[1..][..k - 1] == a[..k][1..];
            assert b[1..][..k - 1] == b[..k][1..];
            assert a[1..][k - 1] == a[k];
          }
        }
      }
    } else if a == [] && b != [] {
      assert a == b[..|a|];
    } else if a != [] && b == [] {
      assert !LexicographicallyBefore(a, b);
    }
  }

  /** Two names of equal length that differ keep their order whatever follows them. */
  lemma {:induction false} BelowExtend(x: string, y: string, u: string, v: string)
    requires |x| == |y| && Below(x, y)
    ensures Below(x + u, y + v)
    decreases |x|
  {
    if x[0] == y[0] {
      assert (x + u)[1..] == x[1..] + u && (y + v)[1..] == y[1..] + v;
      BelowExtend(x[1..], y[1..], u, v);
    }
  }

  /** A common prefix does not change the order. */
  lemma {:induction false} BelowCommonPrefix(p: string, x: string, y: string)
    requires Below(x, y)
    ensures Below(p + x, p + y)
    decreases |p|
  {
    if p != [] {
      assert (p + x)[1..] == p[1..] + x && (p + y)[1..] == p[1..] + y;
      BelowCommonPrefix(p[1..], x, y);
    } else {
      assert p + x == x && p + y == y;
    }
  }

  lemma {:induction false} BelowIrreflexive(a: string)
    ensures !Below(a, a)
    decreases |a|
  {
    if a != [] {
      BelowIrreflexive(a[1..]);
    }
  }

  lemma {:induction false} BelowTransitive(a: string, b: string, c: string)
    requires Below(a, b) && Below(b, c)
    ensures Below(a, c)
    decreases |a|
  {
    if a != [] && a[0] == b[0] && b[0] == c[0] {
      BelowTransitive(a[1..], b[1..], c[1..]);
    }
  }

  /** Any two different names are ordered one way or the other. */
  lemma {:induction false} BelowTotal(a: string, b: string)
    ensures a == b || Below(a, b) || Below(b, a)
    decreases |a|
  {
    if a != [] && b != [] && a[0] == b[0] {
      BelowTotal(a[1..], b[1..]);
      if a[1..] == b[1..] {
        assert a == [a[0]] + a[1..] && b == [b[0]] + b[1..];
      }
    }
  }

  lemma BelowAsymmetric(a: string, b: string)
    requires Below(a, b)
    ensures !Below(b, a)
  {
    if Below(b, a) {
      BelowTransitive(a, b, a);
      BelowIrreflexive(a);
    }
  }

  /** Non-increasing order: no entry is below an entry before it. */
  predicate SortedDesc(s: seq<string>) {
    forall i, j :: 0 <= i < j < |s| ==> !Below(s[i], s[j])
  }

  /** `r` is `s` rearranged into non-increasing order. */
  predicate SortsDescending(s: seq<string>, r: seq<string>) {
    SortedDesc(r) && multiset(r) == multiset(s)
  }

  /** Placing `x` at the first position whose entry is below `x` keeps a sorted list sorted. */
  lemma InsertKeepsSorted(r: seq<string>, j: nat, x: string)
    requires SortedDesc(r) && j <= |r|
    requires forall k :: 0 <= k < j ==> !Below(r[k], x)
    requires j < |r| ==> Below(r[j], x)
    ensures SortedDesc(r[..j] + [x] + r[j..])
  {
    var t := r[..j] + [x] + r[j..];
    forall a, b | 0 <= a < b < |t|
      ensures !Below(t[a], t[b])
    {
      if b < j || a > j {
        assert t[a] == r[if a < j then a else a - 1] && t[b] == r[if b < j then b else b - 1];
      } else if a < j && b == j {
      } else if a < j {
        assert t[a] == r[a] && t[b] == r[b - 1];
      } else {
        assert a == j && t[b] == r[b - 1];
        if Below(x, r[b - 1]) {
          if b - 1 == j {
            BelowAsymmetric(r[j], x);
          } else {
            BelowTransitive(r[j], x, r[b - 1]);
          }
        }
      }
    }
  }

  /** Insertion sort into descending order; `list.sort(reverse=True)` in the source. */
  method SortDescending(s: seq<string>) returns (r: seq<string>)
    ensures SortsDescending(s, r)
  {
    r := [];
    var i := 0;
    while i < |s|
      invariant 0 <= i <= |s|
      invariant SortedDesc(r)
      invariant multiset(r) == multiset(s[..i])
    {
      var x := s[i];
      var j := 0;
      while j < |r| && !Below(r[j], x)
        invariant 0 <= j <= |r|
        invariant forall k :: 0 <= k < j ==> !Below(r[k], x)
      {
        j := j + 1;
      }
      InsertKeepsSorted(r, j, x);
      assert r == r[..j] + r[j..];
      assert s[..i + 1] == s[..i] + [x];
      r := r[..j] + [x] + r[j..];
      i := i + 1;
    }
    assert s[..i] == s;
  }

  /**
   * There is only one way to arrange a list of names in non-increasing
   * order, so any correct sort (Timsort or the insertion sort above) gives
   * the same list.
   */
  lemma {:induction false} SortedPermutationUnique(a: seq<string>, b: seq<string>)
    requires SortedDesc(a) && SortedDesc(b) && multiset(a) == multiset(b)
    ensures a == b
    decreases |a|
  {
    if a == [] {
      assert |multiset(b)| == 0;
    } else {
      assert b != [] by { assert |multiset(b)| == |a|; }
      HeadIsLargest(a, b[0]);
      HeadIsLargest(b, a[0]);
      BelowTotal(a[0], b[0]);
      DropHead(a);
      DropHead(b);
      SortedPermutationUnique(a[1..], b[1..]);
      assert a == [a[0]] + a[1..] && b == [b[0]] + b[1..];
    }
  }

  lemma HeadIsLargest(s: seq<string>, x: string)
    requires SortedDesc(s) && s != [] && x in multiset(s)
    ensures !Below(s[0], x)
  {
    var m :| 0 <= m < |s| && s[m] == x;
    if m > 0 {
      assert !Below(s[0], s[m]);
    } else {
      BelowIrreflexive(x);
    }
  }

  lemma DropHead(s: seq<string>)
    requires s != []
    ensures multiset(s[1..]) == multiset(s) - multiset{s[0]}
    ensures SortedDesc(s) ==> SortedDesc(s[1..])
  {
    assert s == [s[0]] + s[1..];
  }
}
