/**
  The array idioms the simulation is written in: a boolean mask over the
  agents (`status == v`), the number of agents it selects (`len(...)`), and
  the ascending list of their indices (`np.where(mask)[0]`).
*/
module Masks {

  function Min(a: int, b: int): int
  {
    if a <= b then a else b
  }

  /** The number of entries of `s` equal to `v`. */
  function Count(s: seq<int>, v: int): (n: nat)
    ensures n <= |s|
  {
    if s == [] then 0 else Count(s[..|s| - 1], v) + (if s[|s| - 1] == v then 1 else 0)
  }

  /** The number of selected entries of a mask. */
  function CountTrue(m: seq<bool>): (n: nat)
    ensures n <= |m|
  {
    if m == [] then 0 else CountTrue(m[..|m| - 1]) + (if m[|m| - 1] then 1 else 0)
  }

  /** The mask `s == v`. */
  function EqMask(s: seq<int>, v: int): (m: seq<bool>)
    ensures |m| == |s|
    ensures forall i :: 0 <= i < |s| ==> (m[i] <==> s[i] == v)
  {
    seq(|s|, i requires 0 <= i < |s| => s[i] == v)
  }

  /** `np.where(m)[0]`: the indices of the selected entries, in ascending order. */
  function Where(m: seq<bool>): (r: seq<nat>)
    ensures forall j :: 0 <= j < |r| ==> r[j] < |m| && m[r[j]]
    ensures forall j, l :: 0 <= j < l < |r| ==> r[j] < r[l]
    ensures forall i :: 0 <= i < |m| && m[i] ==> i in r
  {
    if m == [] then []
    else
      var r0 := Where(m[..|m| - 1]);
      assert forall i :: 0 <= i < |m| - 1 && m[i] ==> m[..|m| - 1][i];
      r0 + (if m[|m| - 1] then [|m| - 1] else [])
  }

  /** The first `k` selected entries of `m` and no others: an entry is kept
      when it is selected and fewer than `k` selected entries precede it. */
  function FirstK(m: seq<bool>, k: int): (f: seq<bool>)
    ensures |f| == |m|
  {
    seq(|m|, i requires 0 <= i < |m| => m[i] && CountTrue(m[..i]) < k)
  }

  lemma {:induction false} CountZero(s: seq<int>, v: int)
    ensures Count(s, v) == 0 <==> forall i :: 0 <= i < |s| ==> s[i] != v
  {
    if s != [] {
      var p := s[..|s| - 1];
      CountZero(p, v);
      assert forall i :: 0 <= i < |p| ==> p[i] == s[i];
    }
  }

  /** Overwriting one entry changes the count by the entry removed and the one written. */
  lemma {:induction false} CountUpdate(s: seq<int>, i: nat, w: int, v: int)
    requires i < |s|
    ensures Count(s[i := w], v) == Count(s, v) - (if s[i] == v then 1 else 0) + (if w == v then 1 else 0)
  {
    var n := |s|;
    var t := s[i := w];
    if i == n - 1 {
      assert t[..n - 1] == s[..n - 1];
    } else {
      assert t[..n - 1] == s[..n - 1][i := w];
      CountUpdate(s[..n - 1], i, w, v);
    }
  }

  /** When every `v` entry of `t` was already a `v` entry of `s`, `t` has no more of them. */
  lemma {:induction false} CountMono(s: seq<int>, t: seq<int>, v: int)
    requires |s| == |t|
    requires forall i :: 0 <= i < |t| && t[i] == v ==> s[i] == v
    ensures Count(t, v) <= Count(s, v)
  {
    if s != [] {
      var n := |s|;
      CountMono(s[..n - 1], t[..n - 1], v);
    }
  }

  /** Entries that hold `v` in the same places give the same count. */
  lemma CountSame(s: seq<int>, t: seq<int>, v: int)
    requires |s| == |t|
    requires forall i :: 0 <= i < |t| ==> (t[i] == v <==> s[i] == v)
    ensures Count(t, v) == Count(s, v)
  {
    CountMono(s, t, v);
    CountMono(t, s, v);
  }

  /** Turning the entries selected by `on` into `v` (none of which held `v`)
      raises the count of `v` by the number selected. */
  lemma {:induction false} CountShift(s: seq<int>, t: seq<int>, on: seq<bool>, v: int)
    requires |s| == |t| == |on|
    requires forall i :: 0 <= i < |s| && on[i] ==> s[i] != v && t[i] == v
    requires forall i :: 0 <= i < |s| && !on[i] ==> t[i] == s[i]
    ensures Count(t, v) == Count(s, v) + CountTrue(on)
  {
    if s != [] {
      var n := |s|;
      CountShift(s[..n - 1], t[..n - 1], on[..n - 1], v);
    }
  }

  /** Every agent is in exactly one of the four states, so the four counts add up to the population. */
  lemma {:induction false} Partition(s: seq<int>)
    requires forall i :: 0 <= i < |s| ==> 0 <= s[i] <= 3
    ensures Count(s, 0) + Count(s, 1) + Count(s, 2) + Count(s, 3) == |s|
  {
    if s != [] {
      var p := s[..|s| - 1];
      assert forall i :: 0 <= i < |p| ==> p[i] == s[i];
      Partition(p);
    }
  }

  lemma {:induction false} CountTrueAll(m: seq<bool>)
    requires forall i :: 0 <= i < |m| ==> m[i]
    ensures CountTrue(m) == |m|
  {
    if m != [] {
      CountTrueAll(m[..|m| - 1]);
    }
  }

  /** `np.where` lists exactly as many indices as the mask selects. */
  lemma {:induction false} WhereLength(m: seq<bool>)
    ensures |Where(m)| == CountTrue(m)
  {
    if m != [] {
      WhereLength(m[..|m| - 1]);
    }
  }

  /** The `j`-th index listed by `np.where` has exactly `j` selected entries before it. */
  lemma {:induction false} WhereRank(m: seq<bool>, j: nat)
    requires j < |Where(m)|
    ensures CountTrue(m[..Where(m)[j]]) == j
  {
    var n := |m|;
    var p := m[..n - 1];
    var r0 := Where(p);
    assert Where(m) == r0 + (if m[n - 1] then [n - 1] else []);
    if j < |r0| {
      WhereRank(p, j);
      assert m[..r0[j]] == p[..r0[j]];
    } else {
      WhereLength(p);
      assert m[..n - 1] == p;
    }
  }

  /** The first `k` indices listed by `np.where` are the entries that `FirstK` keeps. */
  lemma WherePrefix(m: seq<bool>, k: nat, i: int)
    requires k <= |Where(m)|
    ensures i in Where(m)[..k] <==> 0 <= i < |m| && FirstK(m, k)[i]
  {
    var r := Where(m);
    if i in r[..k] {
      var j :| 0 <= j < k && r[j] == i;
      WhereRank(m, j);
    }
    if 0 <= i < |m| && FirstK(m, k)[i] {
      var j :| 0 <= j < |r| && r[j] == i;
      WhereRank(m, j);
      assert r[..k][j] == i;
    }
  }

  /** `FirstK` keeps `min(k, selected)` entries. */
  lemma {:induction false} FirstKCount(m: seq<bool>, k: nat)
    ensures CountTrue(FirstK(m, k)) == Min(k, CountTrue(m))
  {
    if m != [] {
      var n := |m|;
      var p := m[..n - 1];
      FirstKCount(p, k);
      assert FirstK(m, k)[..n - 1] == FirstK(p, k) by {
        forall i | 0 <= i < n - 1 ensures FirstK(m, k)[i] == FirstK(p, k)[i] {
          assert m[..i] == p[..i];
        }
      }
      assert m[..n - 1] == p;
    }
  }
}
