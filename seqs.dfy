/** Sequence helpers shared by the registry, the ledger and the CSV export: the
    array `filter` and `join` and the string `includes` the application relies on,
    and a string `split` that serves as the reader against which the exported
    text is shown to be invertible. */
module Seqs {

  datatype Option<+T> = None | Some(value: T)

  /** `a` is an order-preserving subsequence of `b`. */
  predicate IsSubsequence<T(==)>(a: seq<T>, b: seq<T>)
    decreases |b|
  {
    if |a| == 0 then true
    else if |b| == 0 then false
    else if a[0] == b[0] then IsSubsequence(a[1..], b[1..])
    else IsSubsequence(a, b[1..])
  }

  lemma {:induction false} SubsequenceRefl<T>(s: seq<T>)
    ensures IsSubsequence(s, s)
    decreases |s|
  {
    if |s| > 0 { SubsequenceRefl(s[1..]); }
  }

  /** Putting an element in front of the larger sequence keeps the subsequence relation. */
  lemma {:induction false} SubsequenceCons<T>(a: seq<T>, x: T, b: seq<T>)
    requires IsSubsequence(a, b)
    ensures IsSubsequence(a, [x] + b)
    decreases |b|, 1
  {
    assert ([x] + b)[1..] == b;
    if |a| > 0 && a[0] == x {
      SubsequenceTail(a, b);
    }
  }

  /** If `a` is a subsequence of `b`, so is `a` without its head. */
  lemma {:induction false} SubsequenceTail<T>(a: seq<T>, b: seq<T>)
    requires |a| > 0 && IsSubsequence(a, b)
    ensures IsSubsequence(a[1..], b)
    decreases |b|, 0
  {
    if a[0] != b[0] {
      SubsequenceTail(a, b[1..]);
    }
    SubsequenceCons(a[1..], b[0], b[1..]);
    assert [b[0]] + b[1..] == b;
  }

  /** `s.filter(p)`: the elements of `s` that satisfy `p`, in their order. */
  function Filter<T(==,!new)>(s: seq<T>, p: T -> bool): (r: seq<T>)
    ensures |r| <= |s|
    ensures forall x :: x in r <==> x in s && p(x)
    ensures IsSubsequence(r, s)
    decreases |s|
  {
    if |s| == 0 then []
    else
      var rest := Filter(s[1..], p);
      assert s == [s[0]] + s[1..];
      if p(s[0]) then
        assert ([s[0]] + rest)[1..] == rest;
        [s[0]] + rest
      else
        SubsequenceCons(rest, s[0], s[1..]);
        rest
  }

  /** A filter whose predicate holds everywhere keeps the whole sequence. */
  lemma {:induction false} FilterKeepsAll<T(!new)>(s: seq<T>, p: T -> bool)
    requires forall x :: x in s ==> p(x)
    ensures Filter(s, p) == s
    decreases |s|
  {
    if |s| > 0 {
      FilterKeepsAll(s[1..], p);
      assert s == [s[0]] + s[1..];
    }
  }

  /** Filtering twice with the same predicate is filtering once. */
  lemma FilterIdempotent<T(!new)>(s: seq<T>, p: T -> bool)
    ensures Filter(Filter(s, p), p) == Filter(s, p)
  {
    FilterKeepsAll(Filter(s, p), p);
  }

  /** Filter distributes over concatenation. */
  lemma {:induction false} FilterAppend<T(!new)>(a: seq<T>, b: seq<T>, p: T -> bool)
    ensures Filter(a + b, p) == Filter(a, p) + Filter(b, p)
    decreases |a|
  {
    if |a| == 0 {
      assert a + b == b;
    } else {
      assert (a + b)[0] == a[0];
      assert (a + b)[1..] == a[1..] + b;
      FilterAppend(a[1..], b, p);
    }
  }

  /** No two elements of `s` share a key. */
  predicate UniqueBy<T, K(==)>(s: seq<T>, key: T -> K)
  {
    forall i, j :: 0 <= i < j < |s| ==> key(s[i]) != key(s[j])
  }

  /** Filtering never creates two elements with the same key. */
  lemma {:induction false} FilterUniqueBy<T(!new), K>(s: seq<T>, p: T -> bool, key: T -> K)
    requires UniqueBy(s, key)
    ensures UniqueBy(Filter(s, p), key)
    decreases |s|
  {
    if |s| > 0 {
      var rest := Filter(s[1..], p);
      FilterUniqueBy(s[1..], p, key);
      if p(s[0]) {
        var r := [s[0]] + rest;
        forall i, j | 0 <= i < j < |r| ensures key(r[i]) != key(r[j]) {
          if i == 0 {
            assert r[j] in s[1..];
            var k :| 0 <= k < |s[1..]| && s[1..][k] == r[j];
            assert s[k + 1] == r[j];
          } else {
            assert r[i] == rest[i - 1] && r[j] == rest[j - 1];
          }
        }
      }
    }
  }

  /** `xs.join(sep)`: the elements separated by `sep`; the empty list joins to "". */
  function Join(xs: seq<string>, sep: char): (r: string)
    ensures |xs| == 1 ==> r == xs[0]
    decreases |xs|
  {
    if |xs| == 0 then ""
    else if |xs| == 1 then xs[0]
    else xs[0] + [sep] + Join(xs[1..], sep)
  }

  /** `s.split(sep)`: the pieces between separators; never empty ("" splits to [""]). */
  function Split(s: string, sep: char): (r: seq<string>)
    ensures |r| >= 1
    ensures sep !in s ==> r == [s]
    decreases |s|
  {
    if |s| == 0 then [""]
    else
      var rest := Split(s[1..], sep);
      assert s == [s[0]] + s[1..];
      if s[0] == sep then [""] + rest
      else [[s[0]] + rest[0]] + rest[1..]
  }

  /** Splitting at the first separator: the piece before it, then the split of the rest. */
  lemma {:induction false} SplitAtSeparator(a: string, sep: char, b: string)
    requires sep !in a
    ensures Split(a + [sep] + b, sep) == [a] + Split(b, sep)
    decreases |a|
  {
    var s := a + [sep] + b;
    if |a| == 0 {
      assert s[0] == sep && s[1..] == b;
    } else {
      assert s[0] == a[0] && s[1..] == a[1..] + [sep] + b;
      SplitAtSeparator(a[1..], sep, b);
      assert [a[0]] + a[1..] == a;
    }
  }

  /** Split undoes Join whenever no element contains the separator. */
  lemma {:induction false} SplitJoin(xs: seq<string>, sep: char)
    requires |xs| >= 1
    requires forall i :: 0 <= i < |xs| ==> sep !in xs[i]
    ensures Split(Join(xs, sep), sep) == xs
    decreases |xs|
  {
    if |xs| > 1 {
      SplitJoin(xs[1..], sep);
      SplitAtSeparator(xs[0], sep, Join(xs[1..], sep));
      assert [xs[0]] + xs[1..] == xs;
    }
  }

  /** Joining a cell that holds the separator is joining its two halves as two cells. */
  lemma {:induction false} JoinCellWithSeparator(xs: seq<string>, k: nat, a: string, b: string, sep: char)
    requires k < |xs| && xs[k] == a + [sep] + b
    ensures Join(xs, sep) == Join(xs[..k] + [a, b] + xs[k + 1..], sep)
    decreases k
  {
    var ys := xs[..k] + [a, b] + xs[k + 1..];
    if k == 0 {
      assert ys == [a] + ([b] + xs[1..]);
      assert ys[1..] == [b] + xs[1..];
      if |xs| > 1 {
        assert ([b] + xs[1..])[1..] == xs[1..];
      }
    } else {
      JoinCellWithSeparator(xs[1..], k - 1, a, b, sep);
      assert ys[0] == xs[0];
      assert ys[1..] == xs[1..][..k - 1] + [a, b] + xs[1..][k..];
    }
  }

  /** A cell holding one separator makes the joined text split into one piece more. */
  lemma SeparatorInCellAddsCell(xs: seq<string>, k: nat, a: string, b: string, sep: char)
    requires k < |xs| && xs[k] == a + [sep] + b
    requires sep !in a && sep !in b
    requires forall i :: 0 <= i < |xs| && i != k ==> sep !in xs[i]
    ensures |Split(Join(xs, sep), sep)| == |xs| + 1
  {
    var ys := xs[..k] + [a, b] + xs[k + 1..];
    JoinCellWithSeparator(xs, k, a, b, sep);
    forall i | 0 <= i < |ys| ensures sep !in ys[i] {
      if i < k {
        assert ys[i] == xs[i];
      } else if i > k + 1 {
        assert ys[i] == xs[i - 1];
      }
    }
    SplitJoin(ys, sep);
  }

  /** `s.includes(t)`: `t` occurs in `s` as a contiguous piece (every string includes ""). */
  predicate Includes(s: string, t: string)
    decreases |s|
  {
    (|t| <= |s| && s[..|t|] == t) || (|s| > 0 && Includes(s[1..], t))
  }

  /** `t` is the piece of `s` that starts at position i. */
  predicate PieceAt(s: string, t: string, i: nat)
  {
    i + |t| <= |s| && s[i..i + |t|] == t
  }

  /** `includes` holds exactly when `t` is the piece of `s` at some position. */
  lemma {:induction false} IncludesIsPieceAt(s: string, t: string)
    ensures Includes(s, t) <==> exists i: nat :: PieceAt(s, t, i)
    decreases |s|
  {
    if |t| <= |s| && s[..|t|] == t {
      assert PieceAt(s, t, 0);
    } else if |s| > 0 {
      IncludesIsPieceAt(s[1..], t);
      if Includes(s[1..], t) {
        var i: nat :| PieceAt(s[1..], t, i);
        assert s[1..][i..i + |t|] == s[i + 1..i + 1 + |t|];
        assert PieceAt(s, t, i + 1);
      }
      if exists i: nat :: PieceAt(s, t, i) {
        var i: nat :| PieceAt(s, t, i);
        assert i != 0;
        assert s[1..][i - 1..i - 1 + |t|] == s[i..i + |t|];
        assert PieceAt(s[1..], t, i - 1);
      }
    }
  }
}
