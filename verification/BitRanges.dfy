/** `bitranges`: the ranges of consecutive bits of a vector, one after the other. */
module BitRanges {
  import opened BitWords
  import opened WordRanges
  import opened BitVectors

  /** A range of bits of `s` that cannot be extended. */
  ghost predicate IsRun(s: set<nat>, first: int, second: int) {
    && 0 <= first <= second && first - 1 !in s && second + 1 !in s
    && forall i | first <= i <= second :: i in s
  }

  /** Maximal runs in ascending order, neither overlapping nor touching, of all of `s` below `end`. */
  ghost predicate AreRuns(s: set<nat>, rs: seq<(int, int)>, end: int) {
    && (forall k | 0 <= k < |rs| :: IsRun(s, rs[k].0, rs[k].1) && rs[k].1 < end)
    && (forall k, l | 0 <= k < l < |rs| :: rs[k].1 + 1 < rs[l].0)
    && forall i | i in s && i < end :: InRun(rs, i)
  }

  ghost predicate InRun(rs: seq<(int, int)>, i: nat) {
    exists k :: 0 <= k < |rs| && rs[k].0 <= i <= rs[k].1
  }

  class Iter {
    const bits: Bitvec
    var valid: bool
    var ptr: int
    var range: (int, int)

    /** The iterator itself is on a bit or at the end. */
    ghost predicate OnBit()
      reads this, bits, bits.ptr
    {
      bits.Valid() && (ptr == -1 || (ptr >= 0 && ptr in bits.Set()))
    }

    constructor (bits: Bitvec, p: int)
      requires bits.Valid() && (p == -1 || (p >= 0 && p in bits.Set()))
      ensures this.bits == bits && OnBit() && (valid <==> p != -1)
      ensures valid ==> Passed(bits.Set(), p, range, ptr)
    {
      this.bits, valid, ptr, range := bits, true, p, (0, 0);
      new;
      Advance();
    }

    /** `operator bool` of the pointer. */
    predicate PointsToBit()
      requires OnBit()
      reads this, bits, bits.ptr
      ensures PointsToBit() <==> ptr != -1
    {
      ptr >= 0 && bits.GetBit(ptr)
    }

    /** `++`: reads one range. */
    method Advance()
      requires OnBit()
      modifies this`valid, this`ptr, this`range
      ensures OnBit() && (valid <==> old(valid) && old(ptr) != -1)
      ensures if old(ptr) == -1 then ptr == -1 && range == old(range) else Passed(bits.Set(), old(ptr), range, ptr)
    {
      if PointsToBit() {
        StartsSolid(bits.Set(), ptr);
        range := (ptr, ptr);
        ptr := bits.Next(ptr);
        NextIsBit(bits.Set(), range.1 + 1, ptr);
        ReadOn();
        NextIsLater(bits.Set(), range.1 + 1, ptr);
      } else {
        valid := false;
      }
    }

    /** Extends the range as long as the next bit follows it directly. */
    method ReadOn()
      requires OnBit() && 0 <= range.0 <= range.1 && IsNext(bits.Set(), range.1 + 1, ptr) && Solid(bits.Set(), range.0, range.1)
      modifies this`ptr, this`range
      ensures OnBit() && old(range).0 == range.0 <= range.1 && IsNext(bits.Set(), range.1 + 1, ptr) && Solid(bits.Set(), range.0, range.1)
      ensures ptr != range.1 + 1
    {
      ghost var start, s := range.0, bits.Set();
      while PointsToBit() && range.1 + 1 == ptr
        invariant OnBit() && start == range.0 <= range.1 && IsNext(s, range.1 + 1, ptr) && Solid(s, start, range.1)
        decreases UNIT * bits.size - range.1
      {
        BitsBelow(bits.words);
        MoreSolid(s, start, range.1);
        range := (range.0, range.1 + 1);
        ptr := bits.Next(ptr);
        NextIsBit(s, range.1 + 1, ptr);
      }
    }
  }

  /** All of the range is in the set. */
  ghost predicate Solid(s: set<nat>, first: int, second: int) {
    forall z {:trigger Look(s, z)} | Look(s, z) :: 0 <= first && forall i | first <= i <= second :: i in s
  }

  lemma StartsSolid(s: set<nat>, p: nat)
    requires p in s
    ensures Solid(s, p, p)
  {
  }

  lemma MoreSolid(s: set<nat>, first: int, second: int)
    requires Solid(s, first, second) && second + 1 >= 0 && second + 1 in s
    ensures Solid(s, first, second + 1)
  {
    assert Look(s, 0);
  }

  lemma NextIsBit(s: set<nat>, start: nat, r: int)
    requires IsNext(s, start, r)
    ensures r == -1 || (r >= start && r in s)
  {
    assert Look(s, 0);
  }

  lemma NextIsLater(s: set<nat>, start: nat, r: int)
    requires IsNext(s, start, r) && r != start
    ensures start !in s
  {
    assert Look(s, 0);
  }

  /** From the bit at `start` the iterator has read the range up to its end, and is on the bit after that. */
  ghost predicate Passed(s: set<nat>, start: int, range: (int, int), ptr: int) {
    && 0 <= start == range.0 <= range.1 && Solid(s, start, range.1)
    && range.1 + 1 !in s && IsNext(s, range.1 + 1, ptr)
  }

  /** One range more. */
  lemma RunsStep(s: set<nat>, rs: seq<(int, int)>, from: int, range: (int, int), ptr: int, end: int)
    requires AreRuns(s, rs, from) && from in s && Passed(s, from, range, ptr)
    requires if ptr == -1 then forall i | i in s :: i < end else end == ptr
    ensures AreRuns(s, rs + [range], end)
  {
    assert Look(s, 0);
    var all := rs + [range];
    forall k | 0 <= k < |rs| ensures rs[k].1 + 1 < from {
      assert IsRun(s, rs[k].0, rs[k].1);
    }
    assert from - 1 in s ==> InRun(rs, from - 1);
    assert range.1 in s && IsRun(s, range.0, range.1);
    forall k | 0 <= k < |all| ensures IsRun(s, all[k].0, all[k].1) && all[k].1 < end {
      assert k < |rs| ==> all[k] == rs[k] && IsRun(s, rs[k].0, rs[k].1);
    }
    forall i | i in s && i < end ensures InRun(all, i) {
      if i < from {
        assert InRun(rs, i);
        var k :| 0 <= k < |rs| && rs[k].0 <= i <= rs[k].1;
        assert all[k] == rs[k];
      } else {
        assert i <= range.1;
        assert all[|rs|] == range;
      }
    }
  }

  /** What iterating over `bitranges(bv)` yields. */
  method Ranges(bv: Bitvec) returns (rs: seq<(int, int)>)
    requires bv.Valid()
    ensures AreRuns(bv.Set(), rs, UNIT * bv.size)
  {
    rs := [];
    ghost var s := bv.Set();
    BitsBelow(bv.words);
    var start := bv.Ffs(0);
    NextIsBit(s, 0, start);
    ghost var from := start;
    NoRuns(s, start, UNIT * bv.size);
    var it := new Iter(bv, start);
    while it.valid
      invariant it.bits == bv && it.OnBit()
      invariant it.valid ==> from >= 0 && from in s && Passed(s, from, it.range, it.ptr)
      invariant AreRuns(s, rs, if it.valid then from else UNIT * bv.size)
      decreases it.valid, UNIT * bv.size - from
    {
      rs := rs + [it.range];
      RunsStep(s, rs[..|rs| - 1], from, it.range, it.ptr, if it.ptr == -1 then UNIT * bv.size else it.ptr);
      NextIsBit(s, it.range.1 + 1, it.ptr);
      from := it.ptr;
      it.Advance();
    }
  }

  lemma NoRuns(s: set<nat>, start: int, end: nat)
    requires IsNext(s, 0, start) && forall i | i in s :: i < end
    ensures AreRuns(s, [], if start == -1 then end else start)
  {
    assert Look(s, 0);
  }
}
