/** Bit maps seen as sequences of booleans (true: the unit is taken), with the first-fit
    search that `bitmap_scan` promises and the run updates its callers perform. */
module Bits {
  datatype Option<+T> = None | Some(value: T)

  // cnt consecutive clear bits starting at s
  ghost predicate ClearRun(bits: seq<bool>, s: int, cnt: nat) {
    0 <= s && s + cnt <= |bits| && forall i :: s <= i < s + cnt ==> !bits[i]
  }

  // length of the stretch of clear bits starting at s
  function Stretch(bits: seq<bool>, s: nat): nat
    decreases |bits| - s
  {
    if s >= |bits| || bits[s] then 0 else 1 + Stretch(bits, s + 1)
  }

  // least start, not below s, of cnt consecutive clear bits
  function FitFrom(bits: seq<bool>, cnt: nat, s: nat): Option<nat>
    decreases |bits| - s
  {
    if s >= |bits| then None
    else if Stretch(bits, s) >= cnt then Some(s)
    else FitFrom(bits, cnt, s + 1)
  }

  function Fit(bits: seq<bool>, cnt: nat): Option<nat> {
    FitFrom(bits, cnt, 0)
  }

  function SetRun(bits: seq<bool>, s: nat, cnt: nat, value: bool): (r: seq<bool>) {
    seq(|bits|, i requires 0 <= i < |bits| => if s <= i < s + cnt then value else bits[i])
  }

  lemma {:induction false} StretchIsRun(bits: seq<bool>, s: nat, cnt: nat)
    requires s <= |bits|
    ensures Stretch(bits, s) >= cnt <==> ClearRun(bits, s, cnt)
    decreases |bits| - s
  {
    if cnt > 0 && s < |bits| {
      if bits[s] {
        assert s <= s < s + cnt;
      } else {
        StretchIsRun(bits, s + 1, cnt - 1);
      }
    }
  }

  lemma {:induction false} FitFromIsLeast(bits: seq<bool>, cnt: nat, s: nat)
    requires cnt >= 1
    ensures FitFrom(bits, cnt, s).Some? ==>
              s <= FitFrom(bits, cnt, s).value && ClearRun(bits, FitFrom(bits, cnt, s).value, cnt)
    ensures forall k :: s <= k && (FitFrom(bits, cnt, s).Some? ==> k < FitFrom(bits, cnt, s).value) ==>
              !ClearRun(bits, k, cnt)
    decreases |bits| - s
  {
    if s < |bits| {
      StretchIsRun(bits, s, cnt);
      if Stretch(bits, s) < cnt {
        FitFromIsLeast(bits, cnt, s + 1);
      }
    }
  }

  // The search returns the least start of a clear run, and nothing exactly when no run exists.
  lemma FirstFit(bits: seq<bool>, cnt: nat)
    requires cnt >= 1
    ensures Fit(bits, cnt).Some? <==> exists s :: ClearRun(bits, s, cnt)
    ensures Fit(bits, cnt).Some? ==> ClearRun(bits, Fit(bits, cnt).value, cnt)
    ensures Fit(bits, cnt).Some? ==> forall s :: 0 <= s < Fit(bits, cnt).value ==> !ClearRun(bits, s, cnt)
  {
    FitFromIsLeast(bits, cnt, 0);
    if s :| ClearRun(bits, s, cnt) {
      assert 0 <= s;
    }
  }

  // What "the search found r" means fixes r.
  lemma FitUnique(bits: seq<bool>, cnt: nat, r: nat)
    requires cnt >= 1
    requires ClearRun(bits, r, cnt)
    requires forall s :: 0 <= s < r ==> !ClearRun(bits, s, cnt)
    ensures Fit(bits, cnt) == Some(r)
  {
    FirstFit(bits, cnt);
  }

  lemma FitNone(bits: seq<bool>, cnt: nat)
    requires cnt >= 1
    requires forall s :: 0 <= s <= |bits| ==> !ClearRun(bits, s, cnt)
    ensures Fit(bits, cnt) == None
  {
    FirstFit(bits, cnt);
  }

  // Scan then set, as every caller does: exactly the found run changes and none of it was taken.
  lemma ScanThenSet(bits: seq<bool>, cnt: nat)
    requires cnt >= 1 && Fit(bits, cnt).Some?
    ensures var s := Fit(bits, cnt).value; var after := SetRun(bits, s, cnt, true);
            && |after| == |bits| && s + cnt <= |bits|
            && (forall i :: 0 <= i < |bits| ==> (after[i] <==> bits[i] || s <= i < s + cnt))
            && (forall i :: s <= i < s + cnt ==> !bits[i])
            && SetRun(after, s, cnt, false) == bits
  {
    FirstFit(bits, cnt);
  }

  lemma {:induction false} SubsetSize<T>(F: set<T>, E: set<T>)
    requires F <= E
    ensures |F| <= |E| && (|F| == |E| ==> F == E)
    decreases F
  {
    if F != {} {
      var x :| x in F;
      SubsetSize(F - {x}, E - {x});
    }
  }

  function ClearBits(bits: seq<bool>): set<nat> {
    set i: nat | i < |bits| && !bits[i]
  }

  // how many bits are clear
  function Clear(bits: seq<bool>): nat { |ClearBits(bits)| }

  lemma ClearOneLess(bits: seq<bool>)
    requires Fit(bits, 1).Some?
    ensures Clear(SetRun(bits, Fit(bits, 1).value, 1, true)) == Clear(bits) - 1
  {
    FirstFit(bits, 1);
    var i := Fit(bits, 1).value;
    assert ClearBits(SetRun(bits, i, 1, true)) == ClearBits(bits) - {i};
  }

  // A search for one bit fails exactly when no bit is clear.
  lemma NoneClear(bits: seq<bool>)
    ensures Fit(bits, 1) == None <==> Clear(bits) == 0
  {
    FirstFit(bits, 1);
    assert Fit(bits, 1).Some? ==> Fit(bits, 1).value in ClearBits(bits);
    if i :| i in ClearBits(bits) {
      assert ClearRun(bits, i, 1);
    }
  }

  // unit x is taken in a map whose bit i stands for unit base + i
  predicate On(base: nat, bits: seq<bool>, x: nat) {
    base <= x < base + |bits| && bits[x - base]
  }

  // b is the map a with the units S, all inside the map and free in a, taken
  ghost predicate Grows(base: nat, a: seq<bool>, b: seq<bool>, S: set<nat>) {
    && |a| == |b|
    && (forall x :: x in S ==> base <= x < base + |a| && !On(base, a, x))
    && (forall x: nat :: On(base, b, x) <==> On(base, a, x) || x in S)
  }

  lemma GrowCompose(base: nat, a: seq<bool>, b: seq<bool>, c: seq<bool>, S: set<nat>, T: set<nat>)
    requires Grows(base, a, b, S) && Grows(base, b, c, T)
    ensures S !! T && Grows(base, a, c, S + T)
  {
  }

  lemma GrowCancel(base: nat, a: seq<bool>, b: seq<bool>, c: seq<bool>, S: set<nat>, T: set<nat>)
    requires Grows(base, a, c, S + T) && Grows(base, b, c, T) && S !! T
    ensures Grows(base, a, b, S)
  {
    forall x | x in S
      ensures base <= x < base + |a| && !On(base, a, x)
    {
      assert x in S + T;
    }
    forall x: nat
      ensures On(base, b, x) <==> On(base, a, x) || x in S
    {
      assert On(base, c, x) <==> On(base, a, x) || x in S + T;
      assert On(base, c, x) <==> On(base, b, x) || x in T;
      assert x in T ==> x in S + T;
    }
  }

  lemma GrowNothing(base: nat, a: seq<bool>, b: seq<bool>)
    requires Grows(base, a, b, {})
    ensures a == b
  {
    forall i | 0 <= i < |a|
      ensures a[i] == b[i]
    {
      assert On(base, b, base + i) <==> On(base, a, base + i);
    }
  }

  lemma GrowByRun(base: nat, a: seq<bool>, s: nat, cnt: nat)
    requires ClearRun(a, s, cnt)
    ensures Grows(base, a, SetRun(a, s, cnt, true), Run(base + s, cnt))
  {
  }

  lemma ShrinkByRun(base: nat, b: seq<bool>, v: nat, cnt: nat)
    requires base <= v && forall x :: x in Run(v, cnt) ==> On(base, b, x)
    ensures Grows(base, SetRun(b, v - base, cnt, false), b, Run(v, cnt))
  {
  }

  // the cnt numbers from v on
  function Run(v: nat, cnt: nat): (r: set<nat>)
    ensures forall u :: u in r <==> v <= u < v + cnt
    decreases cnt
  {
    if cnt == 0 then {} else {v} + Run(v + 1, cnt - 1)
  }
}
