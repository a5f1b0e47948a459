/** Substring search and replace-all over sequences, with the semantics of
    Python's `x in y` and `bytes.replace` (leftmost, non-overlapping). */
module Seqs {

  /** `p` is a prefix of `s`. */
  predicate StartsWith<T(==)>(s: seq<T>, p: seq<T>)
  {
    |p| <= |s| && s[..|p|] == p
  }

  /** Python's `p in s`: `p` occurs somewhere in `s` (the empty pattern occurs everywhere). */
  predicate Contains<T(==)>(s: seq<T>, p: seq<T>)
    decreases |s|
  {
    StartsWith(s, p) || (|s| > 0 && Contains(s[1..], p))
  }

  /** `p` occurs in `s` at index `i`. */
  predicate OccursAt<T(==)>(s: seq<T>, p: seq<T>, i: int)
  {
    0 <= i && i + |p| <= |s| && s[i..i + |p|] == p
  }

  /** Contains agrees with the positional definition of an occurrence. */
  lemma {:induction false} ContainsIff<T>(s: seq<T>, p: seq<T>)
    ensures Contains(s, p) <==> exists i :: OccursAt(s, p, i)
    decreases |s|
  {
    if Contains(s, p) {
      if StartsWith(s, p) {
        assert OccursAt(s, p, 0);
      } else {
        ContainsIff(s[1..], p);
        var i :| OccursAt(s[1..], p, i);
        assert s[1..][i..i + |p|] == s[i + 1..i + 1 + |p|];
        assert OccursAt(s, p, i + 1);
      }
    }
    if exists i :: OccursAt(s, p, i) {
      var i :| OccursAt(s, p, i);
      if i == 0 {
        assert StartsWith(s, p);
      } else {
        assert s[1..][i - 1..i - 1 + |p|] == s[i..i + |p|];
        assert OccursAt(s[1..], p, i - 1);
        ContainsIff(s[1..], p);
      }
    }
  }

  /** Python's `s.replace(p, r)`: every leftmost, non-overlapping occurrence of `p`
      is replaced by `r`; an empty `p` inserts `r` before every element and at the end. */
  function ReplaceAll<T(==)>(s: seq<T>, p: seq<T>, r: seq<T>): (res: seq<T>)
    ensures |p| == |r| ==> |res| == |s|
    ensures |p| > 0 && !Contains(s, p) ==> res == s
    decreases |s|
  {
    if |p| == 0 then
      if s == [] then r else r + [s[0]] + ReplaceAll(s[1..], p, r)
    else if |s| < |p| then s
    else if s[..|p|] == p then r + ReplaceAll(s[|p|..], p, r)
    else [s[0]] + ReplaceAll(s[1..], p, r)
  }

  /** No proper suffix of `r` is a prefix of `r`. */
  predicate NoBorder<T(==)>(r: seq<T>)
  {
    forall k :: 0 < k < |r| ==> r[k..] != r[..|r| - k]
  }

  /** Replacing `p` by `r` cannot create a new occurrence of `p`: no proper suffix
      of `r` starts `p`, and no suffix of `p` (nor `p` itself) starts `r`. */
  predicate NoOverlap<T(==)>(p: seq<T>, r: seq<T>)
  {
    && |p| == |r|
    && (forall i :: 0 < i < |r| ==> r[i..] != p[..|p| - i])
    && (forall i :: 0 <= i < |p| ==> p[i..] != r[..|r| - i])
  }

  /** Absence of `p` carries over to every suffix. */
  lemma {:induction false} NotContainsSuffix<T>(s: seq<T>, p: seq<T>, k: nat)
    requires k <= |s|
    requires !Contains(s, p)
    ensures !Contains(s[k..], p)
    decreases k
  {
    if k == 0 {
      assert s[0..] == s;
    } else {
      NotContainsSuffix(s[1..], p, k - 1);
      assert s[1..][k - 1..] == s[k..];
    }
  }

  /** A prefix `a` at none of whose positions `p` starts adds no occurrence of `p`. */
  lemma {:induction false} ContainsAfterPrefix<T>(a: seq<T>, b: seq<T>, p: seq<T>)
    requires forall i :: 0 <= i < |a| ==> !StartsWith((a + b)[i..], p)
    ensures Contains(a + b, p) <==> Contains(b, p)
    decreases |a|
  {
    if a == [] {
      assert a + b == b;
    } else {
      assert !StartsWith((a + b)[0..], p);
      assert (a + b)[0..] == a + b;
      assert (a + b)[1..] == a[1..] + b;
      forall i | 0 <= i < |a[1..]|
        ensures !StartsWith((a[1..] + b)[i..], p)
      {
        assert (a + b)[i + 1..] == (a[1..] + b)[i..];
      }
      ContainsAfterPrefix(a[1..], b, p);
    }
  }

  /** When `p` occurs in `s`, `r` occurs in the result of replacing it. */
  lemma {:induction false} ReplaceIntroduces<T>(s: seq<T>, p: seq<T>, r: seq<T>)
    requires |p| > 0
    requires Contains(s, p)
    ensures Contains(ReplaceAll(s, p, r), r)
    decreases |s|
  {
    if StartsWith(s, p) {
      var rest := ReplaceAll(s[|p|..], p, r);
      assert (r + rest)[..|r|] == r;
    } else {
      var rest := ReplaceAll(s[1..], p, r);
      ReplaceIntroduces(s[1..], p, r);
      assert ([s[0]] + rest)[1..] == rest;
    }
  }

  /** Where `s` starts with `p`, the replacement continued after a short `pre`
      does not start with `p`. */
  lemma NoMatchBeforeReplacement<T>(pre: seq<T>, s: seq<T>, p: seq<T>, r: seq<T>)
    requires NoOverlap(p, r) && |p| > 0
    requires |pre| < |p|
    requires StartsWith(s, p)
    ensures !StartsWith(pre + ReplaceAll(s, p, r), p)
  {
    var n := |p|;
    var res := ReplaceAll(s, p, r);
    var i := |pre|;
    assert res == r + ReplaceAll(s[n..], p, r);
    assert (pre + res)[..n][i..] == r[..n - i];
    assert p[i..] != r[..n - i];
  }

  /** `pre` stands for elements already passed over without a match: the result of
      the replacement, continued after them, does not start with `p`. */
  lemma {:induction false} NoMatchAtStart<T>(pre: seq<T>, s: seq<T>, p: seq<T>, r: seq<T>)
    requires NoOverlap(p, r) && |p| > 0
    requires |pre| < |p|
    requires pre == [] || !StartsWith(pre + s, p)
    requires pre == [] ==> !StartsWith(s, p)
    ensures !StartsWith(pre + ReplaceAll(s, p, r), p)
    decreases |s|
  {
    var n := |p|;
    var res := ReplaceAll(s, p, r);
    if |s| < n {
      assert res == s;
    } else if StartsWith(s, p) {
      NoMatchBeforeReplacement(pre, s, p, r);
    } else {
      var tail := ReplaceAll(s[1..], p, r);
      assert res == [s[0]] + tail;
      assert pre + res == (pre + [s[0]]) + tail;
      assert (pre + [s[0]]) + s[1..] == pre + s;
      if |pre| + 1 == n {
        assert (pre + res)[..n] == (pre + s)[..n];
      } else {
        NoMatchAtStart(pre + [s[0]], s[1..], p, r);
      }
    }
  }

  /** No proper suffix of an inserted `r`, continued by anything, starts with `p`. */
  lemma NoMatchInsideReplacement<T>(r: seq<T>, tail: seq<T>, p: seq<T>)
    requires NoOverlap(p, r) && |p| > 0
    ensures forall i :: 0 <= i < |r| ==> !StartsWith((r + tail)[i..], p)
  {
    var n := |p|;
    forall i | 0 <= i < |r|
      ensures !StartsWith((r + tail)[i..], p)
    {
      var x := (r + tail)[i..];
      if n <= |x| {
        assert x[..n][..n - i] == r[i..];
        assert p[..n - i] != r[i..] by {
          if i == 0 {
            assert p[0..] == p[..n - 0];
            assert r[0..] == r[..n - 0];
          }
        }
      }
    }
  }

  /** Under NoOverlap, no occurrence of `p` survives the replacement. */
  lemma {:induction false} ReplaceRemoves<T>(s: seq<T>, p: seq<T>, r: seq<T>)
    requires NoOverlap(p, r) && |p| > 0
    ensures !Contains(ReplaceAll(s, p, r), p)
    decreases |s|
  {
    var n := |p|;
    var res := ReplaceAll(s, p, r);
    if |s| < n {
      ContainsIff(s, p);
    } else if s[..n] == p {
      var tail := ReplaceAll(s[n..], p, r);
      ReplaceRemoves(s[n..], p, r);
      NoMatchInsideReplacement(r, tail, p);
      ContainsAfterPrefix(r, tail, p);
    } else {
      var tail := ReplaceAll(s[1..], p, r);
      ReplaceRemoves(s[1..], p, r);
      assert [] + s == s;
      NoMatchAtStart([], s, p, r);
      assert [] + res == res;
      assert res == [s[0]] + tail;
      assert res[0..] == res;
      ContainsAfterPrefix([s[0]], tail, p);
    }
  }

  /** Without an occurrence of `r` in the input, the result continued after a short
      `pre` starts with `r` only where `s` itself started with `p`. */
  lemma {:induction false} NoReplacementAtStart<T>(pre: seq<T>, s: seq<T>, p: seq<T>, r: seq<T>)
    requires |p| == |r| > 0 && NoBorder(r)
    requires |pre| < |r|
    requires !Contains(pre + s, r)
    requires pre == [] ==> !StartsWith(s, p)
    ensures !StartsWith(pre + ReplaceAll(s, p, r), r)
    decreases |s|
  {
    var n := |p|;
    var res := ReplaceAll(s, p, r);
    if |s| < n {
      assert res == s;
    } else if StartsWith(s, p) {
      var k := |pre|;
      assert k > 0;
      assert res == r + ReplaceAll(s[n..], p, r);
      assert res[..n - k] == r[..n - k];
      forall j | 0 <= j < n - k
        ensures (pre + res)[..n][k..][j] == res[..n - k][j]
      {
        assert (pre + res)[..n][k..][j] == (pre + res)[k + j];
      }
      assert (pre + res)[..n][k..] == res[..n - k];
      assert r[k..] != r[..n - k];
    } else {
      var tail := ReplaceAll(s[1..], p, r);
      assert res == [s[0]] + tail;
      assert pre + res == (pre + [s[0]]) + tail;
      assert (pre + [s[0]]) + s[1..] == pre + s;
      if |pre| + 1 == n {
        assert (pre + res)[..n] == (pre + s)[..n];
      } else {
        NoReplacementAtStart(pre + [s[0]], s[1..], p, r);
      }
    }
  }

  /** Replacing `p` by `r` and then `r` by `p` gives back the original, provided `r`
      did not occur in it and has no border. */
  lemma {:induction false} ReplaceRoundTrip<T>(s: seq<T>, p: seq<T>, r: seq<T>)
    requires |p| == |r| > 0 && NoBorder(r)
    requires !Contains(s, r)
    ensures ReplaceAll(ReplaceAll(s, p, r), r, p) == s
    decreases |s|
  {
    var n := |p|;
    var res := ReplaceAll(s, p, r);
    if |s| < n {
      assert res == s;
    } else if s[..n] == p {
      var tail := ReplaceAll(s[n..], p, r);
      assert res == r + tail;
      calc {
        ReplaceAll(res, r, p);
      == { assert (r + tail)[..n] == r && (r + tail)[n..] == tail; }
        p + ReplaceAll(tail, r, p);
      == { NotContainsSuffix(s, r, n); ReplaceRoundTrip(s[n..], p, r); }
        p + s[n..];
      == { assert s == s[..n] + s[n..]; }
        s;
      }
    } else {
      var tail := ReplaceAll(s[1..], p, r);
      assert res == [s[0]] + tail;
      calc {
        ReplaceAll(res, r, p);
      == { assert [] + s == s && [] + res == res;
           NoReplacementAtStart([], s, p, r);
           assert res[1..] == tail; }
        [s[0]] + ReplaceAll(tail, r, p);
      == { NotContainsSuffix(s, r, 1); ReplaceRoundTrip(s[1..], p, r); }
        [s[0]] + s[1..];
      == { assert s == [s[0]] + s[1..]; }
        s;
      }
    }
  }
}
