/** Strictly increasing integer sequences and how they split at a concatenation. */
module StrictOrder {

  /** Every element is strictly smaller than every later one. */
  predicate StrictlyIncreasing(s: seq<int>) {
    forall i, j :: 0 <= i < j < |s| ==> s[i] < s[j]
  }

  /** Putting `k` in front keeps the sequence increasing exactly when `k` is below its head. */
  lemma ConsIncreasing(k: int, s: seq<int>)
    ensures StrictlyIncreasing([k] + s) <==> StrictlyIncreasing(s) && (|s| > 0 ==> k < s[0])
  {
    var t := [k] + s;
    if StrictlyIncreasing(s) && (|s| > 0 ==> k < s[0]) {
      forall i, j | 0 <= i < j < |t| ensures t[i] < t[j] {
        if i == 0 && j > 1 {
          assert s[0] < s[j - 1];
        }
      }
    }
    if StrictlyIncreasing(t) {
      forall i, j | 0 <= i < j < |s| ensures s[i] < s[j] {
        assert s[i] == t[i + 1] && s[j] == t[j + 1];
      }
      if |s| > 0 {
        assert t[0] < t[1];
      }
    }
  }

  /** A concatenation is increasing exactly when both parts are and the seam is. */
  lemma AppendIncreasing(a: seq<int>, b: seq<int>)
    ensures StrictlyIncreasing(a + b) <==>
      StrictlyIncreasing(a) && StrictlyIncreasing(b) && (|a| > 0 && |b| > 0 ==> a[|a| - 1] < b[0])
  {
    var t := a + b;
    if StrictlyIncreasing(a) && StrictlyIncreasing(b) && (|a| > 0 && |b| > 0 ==> a[|a| - 1] < b[0]) {
      forall i, j | 0 <= i < j < |t| ensures t[i] < t[j] {
        if i < |a| <= j {
          assert t[i] <= a[|a| - 1];
          assert b[0] <= t[j];
        }
      }
    }
    if StrictlyIncreasing(t) {
      forall i, j | 0 <= i < j < |a| ensures a[i] < a[j] {
        assert a[i] == t[i] && a[j] == t[j];
      }
      forall i, j | 0 <= i < j < |b| ensures b[i] < b[j] {
        assert b[i] == t[|a| + i] && b[j] == t[|a| + j];
      }
      if |a| > 0 && |b| > 0 {
        assert t[|a| - 1] < t[|a|];
      }
    }
  }

  /** A key between two runs: `s + [k] + r` is increasing exactly when both runs are and each side of `k` fits. */
  lemma SplitAtKey(s: seq<int>, k: int, r: seq<int>)
    ensures var u := s + ([k] + r);
      |u| > 0 && u[0] == (if |s| > 0 then s[0] else k) &&
      (StrictlyIncreasing(u) <==>
         StrictlyIncreasing(s) && (|s| > 0 ==> s[|s| - 1] < k) &&
         StrictlyIncreasing(r) && (|r| > 0 ==> k < r[0]))
  {
    ConsIncreasing(k, r);
    AppendIncreasing(s, [k] + r);
  }
}
