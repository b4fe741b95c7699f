/**
 Substitutions of the shape `re.sub(r"X{m,}", rep, s)` where `X` is a character
 class: every maximal run of class characters at least `m` long is replaced by
 `rep`, and shorter runs are left alone. The regex engine scans left to right,
 tries a match at each position and takes the longest run there, so a match
 always starts at the first character of a maximal run.
 */
module Runs {
  import opened Strings

  /** Length of the run of class characters that starts `s`. */
  function RunLength(s: string, p: char -> bool): (n: nat)
    ensures n <= |s|
    ensures All(s[..n], p)
    ensures n < |s| ==> !p(s[n])
    decreases |s|
  {
    if |s| > 0 && p(s[0]) then
      var n := 1 + RunLength(s[1..], p);
      assert s[..n] == [s[0]] + s[1..][..n - 1];
      n
    else 0
  }

  /** Replace every maximal run of at least `minLen` class characters by `rep`. */
  function ReplaceRuns(s: string, p: char -> bool, minLen: nat, rep: string): string
    requires minLen > 0
    decreases |s|
  {
    if |s| == 0 then ""
    else if !p(s[0]) then [s[0]] + ReplaceRuns(s[1..], p, minLen, rep)
    else
      var n := RunLength(s, p);
      (if n >= minLen then rep else s[..n]) + ReplaceRuns(s[n..], p, minLen, rep)
  }

  /** Every maximal run of class characters has a length that `ok` accepts. */
  predicate RunsAll(s: string, p: char -> bool, ok: nat -> bool)
    decreases |s|
  {
    if |s| == 0 then true
    else if !p(s[0]) then RunsAll(s[1..], p, ok)
    else var n := RunLength(s, p); ok(n) && RunsAll(s[n..], p, ok)
  }

  /** `k` consecutive class characters start at index `i`. */
  predicate RunAt(s: string, p: char -> bool, i: int, k: nat) {
    0 <= i <= |s| - k && forall j :: i <= j < i + k ==> p(s[j])
  }

  /** No `k` consecutive class characters anywhere. */
  predicate NoRunOf(s: string, p: char -> bool, k: nat) {
    forall i :: 0 <= i <= |s| - k ==> !RunAt(s, p, i, k)
  }

  /** The run at the front of `x + y` stays inside `x` when `x` ends it. */
  lemma {:induction false} RunLengthConcat(x: string, y: string, p: char -> bool)
    requires RunLength(x, p) < |x| || |y| == 0 || !p(y[0])
    ensures RunLength(x + y, p) == RunLength(x, p)
    decreases |x|
  {
    if |x| > 0 && p(x[0]) {
      assert (x + y)[1..] == x[1..] + y;
      RunLengthConcat(x[1..], y, p);
    } else if |x| == 0 {
      assert x + y == y;
    }
  }

  /** A non-class character at the front survives the replacement. */
  lemma ReplaceRunsHead(s: string, p: char -> bool, minLen: nat, rep: string)
    requires minLen > 0 && |s| > 0
    ensures var r := ReplaceRuns(s, p, minLen, rep);
      !p(s[0]) ==> |r| > 0 && r[0] == s[0]
    ensures var r := ReplaceRuns(s, p, minLen, rep);
      p(s[0]) && |rep| > 0 && All(rep, p) ==> |r| > 0 && p(r[0])
  {
    if p(s[0]) && |rep| > 0 && All(rep, p) {
      var n := RunLength(s, p);
      assert s[..n][0] == s[0];
    }
  }

  /** A text that ends outside the class is replaced on its own: no run crosses the seam. */
  lemma {:induction false} ReplaceRunsAppend(a: string, t: string, p: char -> bool, minLen: nat, rep: string)
    requires minLen > 0
    requires |a| == 0 || !p(a[|a| - 1])
    ensures ReplaceRuns(a + t, p, minLen, rep)
         == ReplaceRuns(a, p, minLen, rep) + ReplaceRuns(t, p, minLen, rep)
    decreases |a|
  {
    var s := a + t;
    if |a| == 0 {
      assert s == t;
    } else if !p(a[0]) {
      assert s[1..] == a[1..] + t;
      ReplaceRunsAppend(a[1..], t, p, minLen, rep);
      ConcatAssoc([a[0]], ReplaceRuns(a[1..], p, minLen, rep), ReplaceRuns(t, p, minLen, rep));
    } else {
      var n := RunLength(a, p);
      assert !All(a, p) && a[..|a|] == a;
      RunLengthConcat(a, t, p);
      assert s[..n] == a[..n] && s[n..] == a[n..] + t;
      ReplaceRunsAppend(a[n..], t, p, minLen, rep);
      var piece := if n >= minLen then rep else a[..n];
      ConcatAssoc(piece, ReplaceRuns(a[n..], p, minLen, rep), ReplaceRuns(t, p, minLen, rep));
    }
  }

  /** A run of at least `minLen` class characters at the front becomes `rep`. */
  lemma ReplaceRunsLongHead(run: string, t: string, p: char -> bool, minLen: nat, rep: string)
    requires minLen > 0 && |run| >= minLen && All(run, p)
    requires |t| == 0 || !p(t[0])
    ensures ReplaceRuns(run + t, p, minLen, rep) == rep + ReplaceRuns(t, p, minLen, rep)
  {
    var s := run + t;
    RunLengthAll(run, p);
    RunLengthConcat(run, t, p);
    assert s[|run|..] == t;
  }

  /** After the replacement every run is either shorter than `minLen` or exactly `rep`. */
  lemma {:induction false} ReplaceRunsShape(s: string, p: char -> bool, minLen: nat, rep: string)
    requires minLen > 0 && |rep| > 0 && All(rep, p)
    ensures RunsAll(ReplaceRuns(s, p, minLen, rep), p, n => n < minLen || n == |rep|)
    decreases |s|
  {
    var ok := n => n < minLen || n == |rep|;
    var r := ReplaceRuns(s, p, minLen, rep);
    if |s| == 0 {
    } else if !p(s[0]) {
      ReplaceRunsShape(s[1..], p, minLen, rep);
      assert r[1..] == ReplaceRuns(s[1..], p, minLen, rep);
    } else {
      var n := RunLength(s, p);
      var piece := if n >= minLen then rep else s[..n];
      var rest := ReplaceRuns(s[n..], p, minLen, rep);
      ReplaceRunsShape(s[n..], p, minLen, rep);
      assert r == piece + rest;
      if |s[n..]| > 0 {
        ReplaceRunsHead(s[n..], p, minLen, rep);
      }
      assert RunLength(piece, p) == |piece| by { RunLengthAll(piece, p); }
      RunLengthConcat(piece, rest, p);
      assert r[|piece|..] == rest;
    }
  }

  /** A text made only of class characters is one run. */
  lemma {:induction false} RunLengthAll(s: string, p: char -> bool)
    requires All(s, p)
    ensures RunLength(s, p) == |s|
    decreases |s|
  {
    if |s| > 0 {
      RunLengthAll(s[1..], p);
    }
  }

  /** Runs all shorter than `k` mean no `k` consecutive class characters. */
  lemma {:induction false} RunsAllBelow(s: string, p: char -> bool, k: nat)
    requires k > 0 && RunsAll(s, p, n => n < k)
    ensures NoRunOf(s, p, k)
    decreases |s|
  {
    if |s| == 0 {
    } else if !p(s[0]) {
      RunsAllBelow(s[1..], p, k);
      forall i | 0 <= i <= |s| - k
        ensures !RunAt(s, p, i, k)
      {
        if i > 0 {
          assert !RunAt(s[1..], p, i - 1, k);
          var j :| i - 1 <= j < i - 1 + k && !p(s[1..][j]);
          assert !p(s[j + 1]);
        }
      }
    } else {
      var n := RunLength(s, p);
      RunsAllBelow(s[n..], p, k);
      forall i | 0 <= i <= |s| - k
        ensures !RunAt(s, p, i, k)
      {
        if i >= n {
          assert !RunAt(s[n..], p, i - n, k);
          var j :| i - n <= j < i - n + k && !p(s[n..][j]);
          assert !p(s[j + n]);
        } else {
          // The window reaches past the run, whose end is not a class character.
          assert !p(s[n]);
        }
      }
    }
  }

  /** Without `minLen` consecutive class characters there is nothing to replace. */
  lemma {:induction false} ReplaceRunsIdentity(s: string, p: char -> bool, minLen: nat, rep: string)
    requires minLen > 0 && NoRunOf(s, p, minLen)
    ensures ReplaceRuns(s, p, minLen, rep) == s
    decreases |s|
  {
    if |s| == 0 {
    } else if !p(s[0]) {
      NoRunOfSuffix(s, p, minLen, 1);
      ReplaceRunsIdentity(s[1..], p, minLen, rep);
    } else {
      var n := RunLength(s, p);
      assert n < minLen by {
        if minLen <= |s| {
          assert forall m :: 0 <= m < n ==> p(s[m]) by {
            forall m | 0 <= m < n ensures p(s[m]) { assert s[m] == s[..n][m]; }
          }
          assert !RunAt(s, p, 0, minLen);
        }
      }
      NoRunOfSuffix(s, p, minLen, n);
      ReplaceRunsIdentity(s[n..], p, minLen, rep);
      assert s == s[..n] + s[n..];
    }
  }

  lemma NoRunOfSuffix(s: string, p: char -> bool, k: nat, j: nat)
    requires NoRunOf(s, p, k) && j <= |s|
    ensures NoRunOf(s[j..], p, k)
  {
    forall i | 0 <= i <= |s[j..]| - k
      ensures !RunAt(s[j..], p, i, k)
    {
      assert !RunAt(s, p, i + j, k);
      var m :| i + j <= m < i + j + k && !p(s[m]);
      assert s[m] == s[j..][m - j];
    }
  }

  lemma NoRunOfPrefix(s: string, p: char -> bool, k: nat, j: nat)
    requires NoRunOf(s, p, k) && j <= |s|
    ensures NoRunOf(s[..j], p, k)
  {
    forall i | 0 <= i <= |s[..j]| - k
      ensures !RunAt(s[..j], p, i, k)
    {
      assert !RunAt(s, p, i, k);
      var m :| i <= m < i + k && !p(s[m]);
      assert s[m] == s[..j][m];
    }
  }

  /** Two texts without adjacent class characters stay so when the seam is not a pair. */
  lemma NoPairConcat(a: string, b: string, q: char -> bool)
    requires NoRunOf(a, q, 2) && NoRunOf(b, q, 2)
    requires |a| == 0 || |b| == 0 || !q(a[|a| - 1]) || !q(b[0])
    ensures NoRunOf(a + b, q, 2)
  {
    var s := a + b;
    forall i | 0 <= i <= |s| - 2
      ensures !RunAt(s, q, i, 2)
    {
      if i + 2 <= |a| {
        assert !RunAt(a, q, i, 2);
        assert s[i] == a[i] && s[i + 1] == a[i + 1];
      } else if i >= |a| {
        assert !RunAt(b, q, i - |a|, 2);
        assert s[i] == b[i - |a|] && s[i + 1] == b[i + 1 - |a|];
      } else {
        assert s[i] == a[|a| - 1] && s[i + 1] == b[0];
      }
    }
  }

  /** Replacing runs of one class by more of that class never puts two characters
      of a disjoint class side by side. */
  lemma {:induction false} ReplaceRunsKeepsPairs(s: string, p: char -> bool, minLen: nat, rep: string, q: char -> bool)
    requires minLen > 0 && |rep| > 0 && All(rep, p)
    requires forall c :: p(c) ==> !q(c)
    requires NoRunOf(s, q, 2)
    ensures NoRunOf(ReplaceRuns(s, p, minLen, rep), q, 2)
    decreases |s|
  {
    if |s| == 0 {
    } else {
      var n := if !p(s[0]) then 1 else RunLength(s, p);
      var piece := if !p(s[0]) then [s[0]] else if n >= minLen then rep else s[..n];
      var rest := ReplaceRuns(s[n..], p, minLen, rep);
      assert ReplaceRuns(s, p, minLen, rep) == piece + rest;
      NoRunOfSuffix(s, q, 2, n);
      ReplaceRunsKeepsPairs(s[n..], p, minLen, rep, q);
      assert NoRunOf(piece, q, 2) by {
        if p(s[0]) {
          assert All(piece, p);
          forall i | 0 <= i <= |piece| - 2 ensures !RunAt(piece, q, i, 2) {
            assert p(piece[i]);
          }
        }
      }
      if !p(s[0]) && q(s[0]) && |s[1..]| > 0 {
        ReplaceRunsHead(s[1..], p, minLen, rep);
        assert !RunAt(s, q, 0, 2);
      }
      NoPairConcat(piece, rest, q);
    }
  }

  /** A weaker acceptance test accepts the same runs. */
  lemma {:induction false} RunsAllMono(s: string, p: char -> bool, ok: nat -> bool, ok2: nat -> bool)
    requires RunsAll(s, p, ok)
    requires forall n :: ok(n) ==> ok2(n)
    ensures RunsAll(s, p, ok2)
    decreases |s|
  {
    if |s| > 0 {
      if !p(s[0]) {
        RunsAllMono(s[1..], p, ok, ok2);
      } else {
        RunsAllMono(s[RunLength(s, p)..], p, ok, ok2);
      }
    }
  }

  /** When the class is a single character and every long run already is `rep`,
      the replacement changes nothing. */
  lemma {:induction false} ReplaceRunsFixed(s: string, p: char -> bool, minLen: nat, rep: string)
    requires minLen > 0 && All(rep, p)
    requires forall a, b :: p(a) && p(b) ==> a == b
    requires RunsAll(s, p, n => n < minLen || n == |rep|)
    ensures ReplaceRuns(s, p, minLen, rep) == s
    decreases |s|
  {
    if |s| > 0 {
      if !p(s[0]) {
        ReplaceRunsFixed(s[1..], p, minLen, rep);
      } else {
        var n := RunLength(s, p);
        ReplaceRunsFixed(s[n..], p, minLen, rep);
        if n >= minLen {
          assert rep == s[..n] by {
            forall i | 0 <= i < n ensures rep[i] == s[..n][i] {
              assert p(rep[i]) && p(s[..n][i]);
            }
          }
        }
        assert s == s[..n] + s[n..];
      }
    }
  }
}
