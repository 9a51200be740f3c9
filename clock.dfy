/** The clock: cyclic positions over the frame table, and where a scan that
    starts at the hand first meets an unpinned frame. */
module Clock {
  import opened BufTypes

  /** How many steps the hand takes from `h` to frame `i` in a table of `n`
      frames (0 when `i == h`). */
  function Dist(h: int, i: int, n: int): (steps: int)
  {
    if i >= h then i - h else i - h + n
  }

  /** The frame `d` steps after `h` (for `d <= n`; `d == n` is `h` again). */
  function Pos(h: int, d: int, n: int): (frame: int)
  {
    if h + d < n then h + d else h + d - n
  }

  lemma PosOfDist(h: int, i: int, n: int)
    requires 0 <= h < n && 0 <= i < n
    ensures 0 <= Dist(h, i, n) < n && Pos(h, Dist(h, i, n), n) == i
  {
  }

  lemma DistOfPos(h: int, d: int, n: int)
    requires 0 <= h < n && 0 <= d < n
    ensures 0 <= Pos(h, d, n) < n && Dist(h, Pos(h, d, n), n) == d
  {
  }

  /** Every frame is pinned. */
  predicate AllPinned(t: seq<BufDesc>)
  {
    forall i :: 0 <= i < |t| ==> t[i].pinCnt != 0
  }

  /** `v` is the first unpinned frame at or after `h` in clock order. */
  predicate IsVictim(t: seq<BufDesc>, h: int, v: int)
  {
    0 <= v < |t| && t[v].pinCnt == 0 &&
    forall i :: 0 <= i < |t| && Dist(h, i, |t|) < Dist(h, v, |t|) ==> t[i].pinCnt != 0
  }

  /** Reference search: the number of steps from `h`, trying offsets `d`
      onwards, to the first unpinned frame; `|t|` when there is none. */
  function ScanFrom(t: seq<BufDesc>, h: int, d: nat): (r: nat)
    requires 0 <= h < |t| && d <= |t|
    ensures d <= r <= |t|
    ensures r < |t| ==> t[Pos(h, r, |t|)].pinCnt == 0
    ensures forall e :: d <= e < r ==> t[Pos(h, e, |t|)].pinCnt != 0
    decreases |t| - d
  {
    if d == |t| then |t|
    else if t[Pos(h, d, |t|)].pinCnt == 0 then d
    else ScanFrom(t, h, d + 1)
  }

  /** The search from the hand finds nothing exactly when every frame is
      pinned, and otherwise finds the victim. */
  lemma ScanFindsVictim(t: seq<BufDesc>, h: int)
    requires 0 <= h < |t|
    ensures ScanFrom(t, h, 0) == |t| <==> AllPinned(t)
    ensures ScanFrom(t, h, 0) < |t| ==>
      IsVictim(t, h, Pos(h, ScanFrom(t, h, 0), |t|)) &&
      Dist(h, Pos(h, ScanFrom(t, h, 0), |t|), |t|) == ScanFrom(t, h, 0)
  {
    var n, r := |t|, ScanFrom(t, h, 0);
    if r == n {
      forall i | 0 <= i < n ensures t[i].pinCnt != 0 {
        PosOfDist(h, i, n);
      }
    } else {
      var v := Pos(h, r, n);
      DistOfPos(h, r, n);
      forall i | 0 <= i < n && Dist(h, i, n) < Dist(h, v, n) ensures t[i].pinCnt != 0 {
        PosOfDist(h, i, n);
      }
    }
  }

  /** At most one frame is the victim. */
  lemma VictimUnique(t: seq<BufDesc>, h: int, v: int, w: int)
    requires 0 <= h < |t| && IsVictim(t, h, v) && IsVictim(t, h, w)
    ensures v == w
  {
    PosOfDist(h, v, |t|);
    PosOfDist(h, w, |t|);
  }

  /** Some frame is unpinned exactly when a victim exists. */
  lemma VictimExists(t: seq<BufDesc>, h: int)
    requires 0 <= h < |t|
    ensures !AllPinned(t) <==> exists v :: IsVictim(t, h, v)
  {
    ScanFindsVictim(t, h);
    if !AllPinned(t) {
      assert IsVictim(t, h, Pos(h, ScanFrom(t, h, 0), |t|));
    }
  }

  /** The table after the hand has inspected `k` frames from `h`, clearing
      each one's reference bit; the step after the `|t|`-th visits `h`
      again. */
  function ClearRefs(t: seq<BufDesc>, h: int, k: nat): (r: seq<BufDesc>)
    requires 0 <= h < |t| && k <= |t| + 1
    ensures |r| == |t|
  {
    if k == 0 then t
    else
      var c, q := ClearRefs(t, h, k - 1), Pos(h, k - 1, |t|);
      c[q := c[q].(refbit := false)]
  }

  /** Frame `i` after `k` inspections: cleared exactly when the hand has
      passed over it, and otherwise as it was. */
  lemma {:induction false} ClearRefsAtPoint(t: seq<BufDesc>, h: int, k: nat, i: int)
    requires 0 <= h < |t| && k <= |t| + 1 && 0 <= i < |t|
    ensures ClearRefs(t, h, k)[i] == if Dist(h, i, |t|) < k then t[i].(refbit := false) else t[i]
    decreases k
  {
    if k > 0 {
      ClearRefsAtPoint(t, h, k - 1, i);
      PosOfDist(h, i, |t|);
      if k - 1 < |t| {
        DistOfPos(h, k - 1, |t|);
      }
    }
  }

  /** Inspections change only reference bits, and only from set to
      clear. */
  lemma {:induction false} ClearRefsOnlyClears(t: seq<BufDesc>, h: int, k: nat)
    requires 0 <= h < |t| && k <= |t| + 1
    ensures forall i :: 0 <= i < |t| ==>
      ClearRefs(t, h, k)[i] == t[i].(refbit := ClearRefs(t, h, k)[i].refbit) &&
      (ClearRefs(t, h, k)[i].refbit ==> t[i].refbit)
    decreases k
  {
    if k > 0 {
      ClearRefsOnlyClears(t, h, k - 1);
    }
  }

  lemma ClearRefsAt(t: seq<BufDesc>, h: int, k: nat)
    requires 0 <= h < |t| && k <= |t| + 1
    ensures forall i :: 0 <= i < |t| ==>
      ClearRefs(t, h, k)[i] == if Dist(h, i, |t|) < k then t[i].(refbit := false) else t[i]
  {
    forall i | 0 <= i < |t|
      ensures ClearRefs(t, h, k)[i] == if Dist(h, i, |t|) < k then t[i].(refbit := false) else t[i]
    {
      ClearRefsAtPoint(t, h, k, i);
    }
  }

  /** An inspection of a frame whose reference bit is already clear changes
      nothing. */
  lemma ClearRefsIdle(t: seq<BufDesc>, h: int, k: nat)
    requires 0 <= h < |t| && k <= |t|
    requires !ClearRefs(t, h, k)[Pos(h, k, |t|)].refbit
    ensures ClearRefs(t, h, k + 1) == ClearRefs(t, h, k)
  {
    var c, q := ClearRefs(t, h, k), Pos(h, k, |t|);
    assert c[q := c[q].(refbit := false)] == c;
  }
}
