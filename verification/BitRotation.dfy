/** Operators that return new vectors, and rotation. */
module BitRotation {
  import opened BitWords
  import opened WordRanges
  import opened BitVectors

  method And(a: Bitvec, b: Bitvec) returns (rv: Bitvec)
    requires a.Valid() && b.Valid()
    ensures fresh(rv) && fresh(rv.ptr) && rv.Valid() && rv.Set() == a.Set() * b.Set()
    ensures rv.size == if a.size <= b.size then a.size else b.size
  {
    if a.size <= b.size {
      rv := new Bitvec.Copy(a);
      var _ := rv.AndAssign(b);
    } else {
      rv := new Bitvec.Copy(b);
      var _ := rv.AndAssign(a);
    }
  }

  method Or(a: Bitvec, b: Bitvec) returns (rv: Bitvec)
    requires a.Valid() && b.Valid()
    ensures fresh(rv) && fresh(rv.ptr) && rv.Valid() && rv.Set() == a.Set() + b.Set()
  {
    rv := new Bitvec.Copy(a);
    var _ := rv.OrAssign(b);
  }

  method Minus(a: Bitvec, b: Bitvec) returns (rv: Bitvec)
    requires a.Valid() && b.Valid()
    ensures fresh(rv) && fresh(rv.ptr) && rv.Valid() && rv.Set() == a.Set() - b.Set()
  {
    rv := new Bitvec.Copy(a);
    var _ := rv.SubAssign(b);
  }

  /** `a >> n`. */
  method ShiftRight(a: Bitvec, n: nat) returns (rv: Bitvec)
    requires a.Valid()
    ensures fresh(rv) && fresh(rv.ptr) && rv.Valid() && MovedDown(a.Set(), rv.Set(), n)
  {
    rv := new Bitvec.Copy(a);
    rv.ShiftRightAssign(n);
  }

  /** `a << n`. */
  method ShiftLeft(a: Bitvec, n: nat) returns (rv: Bitvec)
    requires a.Valid() && !(a.Set() == {} && a.size == 1 && n == UNIT)
    ensures fresh(rv) && fresh(rv.ptr) && rv.Valid() && MovedUp(a.Set(), rv.Set(), n)
  {
    rv := new Bitvec.Copy(a);
    rv.ShiftLeftAssign(n);
  }

  /** Nothing is lost by shifting to the left: shifting back gives the same set. */
  lemma ShiftBack(s: set<nat>, up: set<nat>, back: set<nat>, n: nat)
    requires MovedUp(s, up, n) && MovedDown(up, back, n)
    ensures back == s && |up| == |s|
  {
    assert Look(up, 0) && Look(back, 0);
    forall i: nat ensures i in back <==> i in s {
      assert i in back <==> i + n in up;
    }
    MovedUpSize(s, up, n);
  }

  lemma {:induction false} MovedUpSize(s: set<nat>, t: set<nat>, n: nat)
    requires MovedUp(s, t, n)
    ensures |t| == |s|
    decreases s
  {
    assert Look(t, 0);
    if s == {} {
      assert t == {};
    } else {
      var x :| x in s;
      assert x + n in t;
      MovedUpSize(s - {x}, t - {x + n}, n);
    }
  }

  /** `bitvec(lo, cnt)`: a range. */
  method RangeVector(lo: nat, cnt: nat) returns (rv: Bitvec)
    ensures fresh(rv) && fresh(rv.ptr) && rv.Valid() && rv.Set() == Range(lo, lo + cnt)
    ensures cnt > 0 && lo + cnt > UNIT ==> rv.size > 1
  {
    rv := new Bitvec(Zero());
    rv.SetRange(lo, cnt);
    BitsBelow(rv.words);
    if cnt > 0 {
      assert lo + cnt - 1 in rv.Set();
    }
  }

  /** The position that the bit at `i` comes from. */
  function Source(i: nat, start: nat, rot: nat, end: nat): nat
    requires start <= rot < end && start <= i < end
  {
    if i + (rot - start) < end then i + (rot - start) else i + (rot - start) - (end - start)
  }

  /** `t` is `s` with the bits of `start .. end` rotated so that the one at `rot` comes first, as by `std::rotate`. */
  ghost predicate Rotated(s: set<nat>, t: set<nat>, start: nat, rot: nat, end: nat)
    requires start <= rot < end
  {
    forall z {:trigger Look(t, z)} | Look(t, z) ::
      forall i: nat {:trigger i in t} :: i in t <==> if start <= i < end then Source(i, start, rot, end) in s else i in s
  }

  /** The shift by a whole word that is undefined on an empty one-word vector does not occur. */
  ghost predicate CanRotate(bv: Bitvec, start: nat, rot: nat, end: nat)
    requires bv.Valid()
    reads bv, bv.ptr
  {
    end - rot == UNIT ==> (bv.size > 1 && end > UNIT) || bv.Set() * Range(start, end) != {}
  }

  method RotateRightHelper(bv: Bitvec, start: nat, rot: nat, end: nat) returns (rv: Bitvec)
    requires bv.Valid() && start <= rot < end && CanRotate(bv, start, rot, end)
    ensures fresh(rv) && fresh(rv.ptr) && rv.Valid()
    ensures IsRotatedSection(bv.Set(), rv.Set(), start, rot, end)
  {
    var section := Masked(bv, start, end);
    ghost var sectionSet := section.Set();
    var both := ShiftBoth(section, rot - start, end - rot);
    ghost var bothSet := both.Set();
    rv := Masked(both, start, end);
    RotatedSection(bv.Set(), sectionSet, bothSet, rv.Set(), start, rot, end);
  }

  /** The part of a vector in a range. */
  method Masked(bv: Bitvec, start: nat, end: nat) returns (rv: Bitvec)
    requires bv.Valid() && start < end
    ensures fresh(rv) && fresh(rv.ptr) && rv.Valid() && rv.Set() == old(bv.Set()) * Range(start, end)
    ensures end > UNIT && bv.size > 1 ==> rv.size > 1
  {
    var rotMask := RangeVector(start, end - start);
    rv := And(bv, rotMask);
  }

  method ShiftBoth(section: Bitvec, downShift: nat, upShift: nat) returns (rv: Bitvec)
    requires section.Valid() && !(section.Set() == {} && section.size == 1 && upShift == UNIT)
    ensures fresh(rv) && fresh(rv.ptr) && rv.Valid() && MovedBoth(old(section.Set()), rv.Set(), downShift, upShift)
  {
    var down := ShiftRight(section, downShift);
    var up := ShiftLeft(section, upShift);
    ghost var downSet, upSet := down.Set(), up.Set();
    rv := Or(down, up);
    MovedTogether(old(section.Set()), downSet, upSet, rv.Set(), downShift, upShift);
  }

  lemma MovedTogether(s: set<nat>, down: set<nat>, up: set<nat>, both: set<nat>, n: nat, m: nat)
    requires MovedDown(s, down, n) && MovedUp(s, up, m) && both == down + up
    ensures MovedBoth(s, both, n, m)
  {
    assert Look(down, 0) && Look(up, 0);
  }

  ghost predicate MovedBoth(s: set<nat>, t: set<nat>, n: nat, m: nat) {
    forall z {:trigger Look(t, z)} | Look(t, z) :: forall i: nat {:trigger i in t} :: i in t <==> i + n in s || (i >= m && i - m in s)
  }

  ghost predicate IsRotatedSection(s: set<nat>, t: set<nat>, start: nat, rot: nat, end: nat)
    requires start <= rot < end
  {
    forall z {:trigger Look(t, z)} | Look(t, z) :: forall i: nat {:trigger i in t} :: i in t <==> start <= i < end && Source(i, start, rot, end) in s
  }

  lemma RotatedSection(s: set<nat>, section: set<nat>, both: set<nat>, t: set<nat>, start: nat, rot: nat, end: nat)
    requires start <= rot < end && section == s * Range(start, end)
    requires MovedBoth(section, both, rot - start, end - rot) && t == both * Range(start, end)
    ensures IsRotatedSection(s, t, start, rot, end)
  {
    assert Look(both, 0);
    forall i: nat ensures i in t <==> start <= i < end && Source(i, start, rot, end) in s {
      if start <= i < end {
        assert i in Range(start, end) && Source(i, start, rot, end) in Range(start, end);
        assert i in t <==> i in both;
      }
    }
  }

  method RotateRight(bv: Bitvec, start: nat, rot: nat, end: nat)
    requires bv.Valid() && start <= rot < end && CanRotate(bv, start, rot, end)
    modifies bv, bv.ptr
    ensures bv.Valid() && Rotated(old(bv.Set()), bv.Set(), start, rot, end)
  {
    var section := RotateRightHelper(bv, start, rot, end);
    ghost var sectionSet := section.Set();
    bv.ClrRange(start, end - start);
    var _ := bv.OrAssign(section);
    RotatedWhole(old(bv.Set()), sectionSet, bv.Set(), start, rot, end);
  }

  lemma RotatedWhole(s: set<nat>, section: set<nat>, t: set<nat>, start: nat, rot: nat, end: nat)
    requires start <= rot < end && IsRotatedSection(s, section, start, rot, end) && t == s - Range(start, end) + section
    ensures Rotated(s, t, start, rot, end)
  {
    assert Look(section, 0);
    forall i: nat ensures i in t <==> if start <= i < end then Source(i, start, rot, end) in s else i in s {
      assert i in Range(start, end) <==> start <= i < end;
    }
  }

  method RotateRightCopy(bv: Bitvec, start: nat, rot: nat, end: nat) returns (rv: Bitvec)
    requires bv.Valid() && start <= rot < end && CanRotate(bv, start, rot, end)
    ensures fresh(rv) && rv.Valid() && Rotated(bv.Set(), rv.Set(), start, rot, end)
  {
    var section := RotateRightHelper(bv, start, rot, end);
    ghost var sectionSet := section.Set();
    var rotMask := RangeVector(start, end - start);
    var others := Minus(bv, rotMask);
    rv := Or(section, others);
    RotatedWhole(bv.Set(), sectionSet, rv.Set(), start, rot, end);
  }

  /** A rotation has one result. */
  lemma RotatedOnce(s: set<nat>, t: set<nat>, t': set<nat>, start: nat, rot: nat, end: nat)
    requires start <= rot < end && Rotated(s, t, start, rot, end) && Rotated(s, t', start, rot, end)
    ensures t == t'
  {
    assert Look(t, 0) && Look(t', 0);
  }

  /** Rotating on about the mirrored index undoes a rotation. */
  lemma RotatedBack(s: set<nat>, t: set<nat>, u: set<nat>, start: nat, rot: nat, end: nat)
    requires start < rot < end && Rotated(s, t, start, rot, end) && Rotated(t, u, start, start + end - rot, end)
    ensures u == s
  {
    assert Look(t, 0) && Look(u, 0);
    forall i: nat ensures i in u <==> i in s {
      if start <= i < end {
        assert i in u <==> Source(i, start, start + end - rot, end) in t;
      }
    }
  }

  /** Rotation keeps the number of bits. */
  lemma RotatedPopcount(s: set<nat>, t: set<nat>, start: nat, rot: nat, end: nat)
    requires start <= rot < end && Rotated(s, t, start, rot, end)
    ensures |t| == |s|
  {
    assert Look(t, 0);
    var inside, outside := s * Range(start, end), s - Range(start, end);
    var inside', outside' := t * Range(start, end), t - Range(start, end);
    assert outside == outside';
    assert s == inside + outside && t == inside' + outside';
    var sources := set i | i in inside' :: Moved(i, start, rot, end);
    forall i | i in inside ensures i in sources {
      var j := if i - (rot - start) >= start then i - (rot - start) else i - (rot - start) + (end - start);
      assert Moved(j, start, rot, end) == i && j in inside';
    }
    assert sources == inside;
    ImageSize(inside', start, rot, end);
  }

  function Moved(i: nat, start: nat, rot: nat, end: nat): nat
    requires start <= rot < end
  {
    if start <= i < end then Source(i, start, rot, end) else i
  }

  lemma {:induction false} ImageSize(a: set<nat>, start: nat, rot: nat, end: nat)
    requires start <= rot < end && forall i | i in a :: start <= i < end
    ensures |set i | i in a :: Moved(i, start, rot, end)| == |a|
    decreases a
  {
    var image := set i | i in a :: Moved(i, start, rot, end);
    if a != {} {
      var x :| x in a;
      var rest := a - {x};
      ImageSize(rest, start, rot, end);
      var image' := set i | i in rest :: Moved(i, start, rot, end);
      assert image == image' + {Moved(x, start, rot, end)};
      assert Moved(x, start, rot, end) !in image';
    }
  }
}
