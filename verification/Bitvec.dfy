/** `bitvec`: a set of numbers in one word, or in an array of words that grows. */
module BitVectors {
  import opened BitWords
  import opened WordRanges
  import SizeBits

  class Bitvec {
    var size: nat
    var data: Word
    var ptr: array<Word>

    /** The words in use, wherever they are. */
    ghost var words: seq<Word>

    ghost predicate Valid()
      reads this, ptr
    {
      size == |words| > 0 && if size > 1 then size <= ptr.Length && words == ptr[..size] else words == [data]
    }

    /** The set this stands for. */
    ghost function Set(): set<nat>
      reads this
    {
      Bits(words)
    }

    constructor (v: Word)
      ensures Valid() && words == [v] && fresh(ptr)
    {
      size, data, ptr := 1, v, new Word[0](_ => Zero());
      words := [v];
    }

    constructor Copy(a: Bitvec)
      requires a.Valid()
      ensures Valid() && words == a.words && fresh(ptr)
    {
      size, data, words := a.size, a.data, a.words;
      var p := new Word[if a.size > 1 then a.size else 0](_ => Zero());
      ptr := p;
      new;
      if size > 1 {
        for i := 0 to size
          invariant size == a.size == ptr.Length && fresh(ptr) && a.Valid() && words == a.words
          invariant forall k | 0 <= k < i :: ptr[k] == words[k]
        {
          ptr[i] := a.ptr[i];
        }
      }
    }

    function Word(i: nat): (w: Word)
      requires Valid()
      reads this, ptr
      ensures w == WordAt(words, i)
    {
      if i < size then if size > 1 then ptr[i] else data else Zero()
    }

    function GetBit(idx: nat): (b: bool)
      requires Valid()
      reads this, ptr
      ensures b <==> idx in Set()
    {
      Shr(Word(idx / UNIT), idx % UNIT)[0]
    }

    /** Makes room for `newsize` words, and often for more. */
    method Expand(newsize: nat)
      requires Valid() && newsize > size
      modifies this
      ensures Valid() && fresh(ptr) && size >= newsize
      ensures words == old(words) + Zeros(size - old(size))
    {
      var n := SizeBits.RoundUp(newsize);
      var p := new Word[n](_ => Zero());
      if size > 1 {
        for i := 0 to size
          invariant size == old(size) && ptr == old(ptr) && Valid() && words == old(words)
          invariant forall k | 0 <= k < n :: p[k] == if k < i then words[k] else Zero()
        {
          p[i] := ptr[i];
        }
      } else {
        p[0] := data;
      }
      assert p[..n] == words + Zeros(n - size);
      ptr, size := p, n;
      words := words + Zeros(n - old(size));
    }

    method SetBit(idx: nat)
      requires Valid()
      modifies this, ptr
      ensures Valid() && (ptr == old(ptr) || fresh(ptr))
      ensures Set() == old(Set()) + {idx}
    {
      if idx >= size * UNIT {
        Expand(1 + idx / UNIT);
        BitsWithZeros(old(words), size - old(size));
      }
      var k := idx / UNIT;
      if size > 1 {
        ptr[k] := Or(ptr[k], Shl(One(), idx % UNIT));
      } else {
        data := Or(data, Shl(One(), idx));
      }
      words := words[k := Or(words[k], Shl(One(), idx % UNIT))];
    }

    method ClrBit(idx: nat)
      requires Valid()
      modifies this, ptr
      ensures Valid() && ptr == old(ptr)
      ensures Set() == old(Set()) - {idx}
    {
      if idx >= size * UNIT {
        return;
      }
      var k := idx / UNIT;
      if size > 1 {
        ptr[k] := And(ptr[k], Not(Shl(One(), idx % UNIT)));
      } else {
        data := And(data, Not(Shl(One(), idx)));
      }
      words := words[k := And(words[k], Not(Shl(One(), idx % UNIT)))];
    }

    /** Makes room for the bits below `hi`. */
    method ExpandTo(hi: nat)
      requires Valid() && hi > 0
      modifies this
      ensures Valid() && (ptr == old(ptr) || fresh(ptr)) && hi <= size * UNIT
      ensures Set() == old(Set())
    {
      if hi > size * UNIT {
        Expand(1 + (hi - 1) / UNIT);
        BitsWithZeros(old(words), size - old(size));
      }
    }

    method SetRange(idx: nat, sz: nat)
      requires Valid()
      modifies this, ptr
      ensures Valid() && (ptr == old(ptr) || fresh(ptr))
      ensures Set() == old(Set()) + Range(idx, idx + sz)
    {
      if sz == 0 {
        assert Range(idx, idx) == {};
        return;
      }
      ExpandTo(idx + sz);
      ghost var from, hi := words, idx + sz;
      if size == 1 {
        RangeInOneWord(idx, hi);
        data := Or(data, Shl(Low(sz), idx));
        words := [data];
      } else if idx / UNIT == (idx + sz - 1) / UNIT {
        RangeInOneWord(idx, hi);
        SetOneWord(idx, sz);
      } else {
        SetManyWords(idx, sz);
      }
      RangeSetBits(from, words, idx, hi);
    }

    method SetOneWord(idx: nat, sz: nat)
      requires Valid() && size > 1 && 0 < sz <= UNIT && idx + sz <= size * UNIT && idx / UNIT == (idx + sz - 1) / UNIT
      modifies this`words, ptr
      ensures Valid() && RangeSet(old(words), words, idx, idx + sz)
    {
      var k := idx / UNIT;
      RangeInOneWord(idx, idx + sz);
      ptr[k] := Or(ptr[k], Shl(Low(sz), idx % UNIT));
      words := words[k := ptr[k]];
      forall i | 0 <= i < size ensures words[i] == Or(old(words)[i], RangeWord(i, idx, idx + sz)) {
        if i != k {
          RangeOutside(i, idx, idx + sz);
          NothingAndAll(old(words)[i]);
        }
      }
    }

    method SetManyWords(start: nat, sz: nat)
      requires Valid() && size > 1 && start + sz <= size * UNIT && start / UNIT < (start + sz - 1) / UNIT
      modifies this`words, ptr
      ensures Valid() && RangeSet(old(words), words, start, start + sz)
    {
      ghost var from := words;
      var idx := start;
      var i := idx / UNIT;
      ptr[i] := Or(ptr[i], Shl(Ones(), idx % UNIT));
      idx := idx + sz;
      i := i + 1;
      while i < idx / UNIT
        invariant start / UNIT < i <= idx / UNIT
        invariant ptr[start / UNIT] == Or(from[start / UNIT], Shl(Ones(), start % UNIT))
        invariant forall k | start / UNIT < k < i :: ptr[k] == Ones()
        invariant forall k | 0 <= k < size && (k < start / UNIT || k >= i) :: ptr[k] == from[k]
      {
        ptr[i] := Ones();
        i := i + 1;
      }
      if i < size {
        ptr[i] := Or(ptr[i], Below(idx % UNIT));
      }
      words := ptr[..size];
      forall k | 0 <= k < size ensures words[k] == Or(from[k], RangeWord(k, start, idx)) {
        NothingAndAll(from[k]);
        PartMasks(k, start, idx);
      }
    }

    method ClrRange(idx: nat, cnt: nat)
      requires Valid()
      modifies this`data, this`words, ptr
      ensures Valid()
      ensures Set() == old(Set()) - Range(idx, idx + cnt)
    {
      if cnt == 0 {
        assert Range(idx, idx) == {};
        return;
      }
      var sz := cnt;
      if size < sz / UNIT {
        sz := size * UNIT;
      }
      BeyondSize(words, idx, cnt, sz);
      if idx >= size * UNIT {
        return;
      }
      ghost var from := words;
      if size == 1 {
        ClrData(idx, sz);
      } else if idx / UNIT == (idx + sz - 1) / UNIT {
        ClrOneWord(idx, sz);
      } else {
        ClrManyWords(idx, sz);
      }
      RangeClearedBits(from, words, idx, idx + sz);
    }

    method ClrData(idx: nat, sz: nat)
      requires Valid() && size == 1 && sz > 0 && idx < UNIT
      modifies this`data, this`words
      ensures Valid() && RangeCleared(old(words), words, idx, idx + sz)
    {
      if idx + sz < UNIT {
        RangeInOneWord(idx, idx + sz);
        data := And(data, Not(Shl(Low(sz), idx)));
      } else {
        RangeStart(idx, idx + sz);
        data := And(data, Not(Shl(Ones(), idx)));
      }
      words := [data];
    }

    method ClrOneWord(idx: nat, sz: nat)
      requires Valid() && size > 1 && 0 < sz && idx < size * UNIT && idx / UNIT == (idx + sz - 1) / UNIT
      modifies this`words, ptr
      ensures Valid() && RangeCleared(old(words), words, idx, idx + sz)
    {
      var k := idx / UNIT;
      RangeInOneWord(idx, idx + sz);
      ptr[k] := And(ptr[k], Not(Shl(Low(sz), idx % UNIT)));
      words := words[k := ptr[k]];
      forall i | 0 <= i < size ensures words[i] == And(old(words)[i], Not(RangeWord(i, idx, idx + sz))) {
        if i != k {
          RangeOutside(i, idx, idx + sz);
          NothingAndAll(old(words)[i]);
        }
      }
    }

    method ClrManyWords(start: nat, sz: nat)
      requires Valid() && size > 1 && 0 < sz && start < size * UNIT && start / UNIT < (start + sz - 1) / UNIT
      modifies this`words, ptr
      ensures Valid() && RangeCleared(old(words), words, start, start + sz)
    {
      ghost var from := words;
      var idx := start;
      var i := idx / UNIT;
      ptr[i] := And(ptr[i], Not(Shl(Ones(), idx % UNIT)));
      idx := idx + sz;
      i := i + 1;
      while i < idx / UNIT && i < size
        invariant start / UNIT < i <= idx / UNIT && i <= size
        invariant ptr[start / UNIT] == And(from[start / UNIT], Not(Shl(Ones(), start % UNIT)))
        invariant forall k | start / UNIT < k < i :: ptr[k] == Zero()
        invariant forall k | 0 <= k < size && (k < start / UNIT || k >= i) :: ptr[k] == from[k]
      {
        ptr[i] := Zero();
        i := i + 1;
      }
      if i < size {
        ptr[i] := And(ptr[i], Not(Below(idx % UNIT)));
      }
      words := ptr[..size];
      forall k | 0 <= k < size ensures words[k] == And(from[k], Not(RangeWord(k, start, idx))) {
        NothingAndAll(from[k]);
        PartMasks(k, start, idx);
      }
    }

    /** The bits from `idx` on, as a word. */
    method GetRange(start: nat, sz: nat) returns (r: Word)
      requires Valid() && 0 < sz <= UNIT
      ensures forall j | 0 <= j < UNIT :: r[j] <==> j < sz && start + j in Set()
    {
      if start >= size * UNIT {
        return Zero();
      }
      if size > 1 {
        r := GetWords(start, sz);
      } else {
        r := Shr(data, start);
      }
      GetMasked(words, r, start, sz);
      r := And(r, Low(sz));
    }

    /** Collects the bits from `start` on from the word there and from the next if it is needed. */
    method GetWords(start: nat, sz: nat) returns (r: Word)
      requires Valid() && size > 1 && 0 < sz <= UNIT && start < size * UNIT
      ensures var k, shift := start / UNIT, start % UNIT;
              r == if UNIT - shift < sz && k + 1 < size then Or(Shr(ptr[k], shift), Shl(ptr[k + 1], UNIT - shift)) else Shr(ptr[k], shift)
    {
      var idx := start / UNIT;
      var shift := start % UNIT;
      r := Shr(ptr[idx], shift);
      shift := UNIT - shift;
      while shift < sz
        invariant shift == UNIT - start % UNIT || (shift >= UNIT && UNIT - start % UNIT < sz && idx < size)
        invariant shift == UNIT - start % UNIT ==> idx == start / UNIT && r == Shr(ptr[idx], start % UNIT)
        invariant shift != UNIT - start % UNIT ==>
            idx == start / UNIT + 1 && r == Or(Shr(ptr[idx - 1], start % UNIT), Shl(ptr[idx], UNIT - start % UNIT))
        decreases 2 * UNIT - shift
      {
        idx := idx + 1;
        if idx >= size {
          break;
        }
        r := Or(r, Shl(ptr[idx], shift));
        shift := shift + UNIT;
      }
    }

    /** Puts the `sz` lowest bits of `v` at `idx`. */
    method PutRange(idx: nat, sz: nat, v: Word)
      requires Valid() && 0 < sz <= UNIT
      modifies this, ptr
      ensures Valid() && (ptr == old(ptr) || fresh(ptr))
      ensures IsPut(old(Set()), Set(), idx, sz, v)
    {
      var mask := Low(sz);
      var value := And(v, mask);
      ExpandTo(idx + sz);
      ghost var from := words;
      if size == 1 {
        data := And(data, Not(Shl(mask, idx)));
        data := Or(data, Shl(value, idx));
        words := [data];
      } else {
        PutInWords(idx, sz, mask, value);
      }
      PutAcross(from, words, idx, sz, v);
    }

    method PutInWords(start: nat, sz: nat, mask: Word, value: Word)
      requires Valid() && size > 1 && 0 < sz <= UNIT && start + sz <= size * UNIT
      modifies this`words, ptr
      ensures Valid() && PutWords(old(words), words, start, sz, mask, value)
    {
      ghost var from := words;
      var shift, idx := start % UNIT, start / UNIT;
      ptr[idx] := And(ptr[idx], Not(Shl(mask, shift)));
      ptr[idx] := Or(ptr[idx], Shl(value, shift));
      words := words[idx := PutLow(words[idx], mask, value, shift)];
      shift := UNIT - shift;
      while shift < sz
        invariant Valid() && PutSoFar(from, words, start, sz, mask, value, shift)
        invariant shift == UNIT - start % UNIT ==> idx == start / UNIT
        invariant shift == UNIT - start % UNIT || shift == 2 * UNIT - start % UNIT
        decreases 2 * UNIT - shift
      {
        idx := idx + 1;
        ptr[idx] := And(ptr[idx], Not(Shr(mask, shift)));
        ptr[idx] := Or(ptr[idx], Shr(value, shift));
        words := words[idx := PutHigh(words[idx], mask, value, shift)];
        shift := shift + UNIT;
      }
    }

    method Clear()
      requires Valid()
      modifies this`data, this`words, ptr
      ensures Valid() && words == Zeros(size) && Set() == {}
    {
      if size > 1 {
        for i := 0 to size
          invariant size == old(size) <= ptr.Length && forall k | 0 <= k < i :: ptr[k] == Zero()
        {
          ptr[i] := Zero();
        }
      } else {
        data := Zero();
      }
      words := Zeros(size);
      AllZero(words);
    }

    method IsEmpty() returns (r: bool)
      requires Valid()
      ensures r <==> Set() == {}
    {
      for i := 0 to size
        invariant forall k | 0 <= k < i :: WordAt(words, k) == Zero()
      {
        if Word(i) != Zero() {
          NotEmpty(words, i);
          return false;
        }
      }
      AllZero(words);
      return true;
    }

    /** `|=`: union; tells whether the set has grown. */
    method OrAssign(a: Bitvec) returns (rv: bool)
      requires Valid() && a.Valid() && (a == this || a.ptr != ptr)
      modifies this, ptr
      ensures Valid() && (ptr == old(ptr) || fresh(ptr)) && size >= old(size)
      ensures Set() == old(Set()) + old(a.Set()) && (rv <==> Set() != old(Set()))
    {
      if size < a.size {
        Expand(a.size);
        BitsWithZeros(old(words), size - old(size));
      }
      rv := OrLonger(a);
    }

    /** The same when there is room. */
    method OrLonger(a: Bitvec) returns (rv: bool)
      requires Valid() && a.Valid() && (a == this || a.ptr != ptr) && a.size <= size
      modifies this`data, this`words, ptr
      ensures Valid() && Set() == old(Set()) + old(a.Set()) && (rv <==> Set() != old(Set()))
    {
      if size > 1 {
        if a.size > 1 {
          rv := OrWords(a);
        } else {
          rv := Or(ptr[0], a.data) != ptr[0];
          ptr[0] := Or(ptr[0], a.data);
          words := words[0 := Or(words[0], a.data)];
        }
      } else {
        rv := Or(data, a.data) != data;
        data := Or(data, a.data);
        words := [data];
      }
      Union(old(words), old(a.words), words);
    }

    /** `|=` of a word. */
    method OrAssignWord(a: Word) returns (rv: bool)
      requires Valid()
      modifies this`data, this`words, ptr
      ensures Valid() && Set() == old(Set()) + Bits([a]) && (rv <==> Set() != old(Set()))
    {
      if size > 1 {
        rv := Or(ptr[0], a) != ptr[0];
        ptr[0] := Or(ptr[0], a);
      } else {
        rv := Or(data, a) != data;
        data := Or(data, a);
      }
      words := words[0 := Or(words[0], a)];
      Union(old(words), [a], words);
    }

    method OrWords(a: Bitvec) returns (rv: bool)
      requires Valid() && a.Valid() && (a == this || a.ptr != ptr) && 1 < a.size <= size
      modifies this`words, ptr
      ensures Valid() && a.Valid() && (rv <==> words != old(words))
      ensures forall k | 0 <= k < size :: words[k] == if k < a.size then Or(old(words)[k], old(a.words)[k]) else old(words)[k]
    {
      rv := false;
      for i := 0 to a.size
        invariant a.words == old(a.words) && a.size <= a.ptr.Length && forall k | i <= k < a.size :: a.ptr[k] == a.words[k]
        invariant words == old(words) && size <= ptr.Length && (a != this ==> a.Valid())
        invariant forall k | 0 <= k < size :: ptr[k] == if k < i then Or(words[k], a.words[k]) else words[k]
        invariant rv <==> exists k :: 0 <= k < i && ptr[k] != words[k]
      {
        rv := rv || Or(ptr[i], a.ptr[i]) != ptr[i];
        ptr[i] := Or(ptr[i], a.ptr[i]);
      }
      words := ptr[..size];
      DifferSomewhere(old(words), words, a.size);
    }

    /** `&=`: intersection; tells whether the set has shrunk. */
    method AndAssign(a: Bitvec) returns (rv: bool)
      requires Valid() && a.Valid() && (a == this || a.ptr != ptr)
      modifies this`data, this`words, ptr
      ensures Valid()
      ensures Set() == old(Set()) * old(a.Set()) && (rv <==> Set() != old(Set()))
    {
      ghost var from := words;
      if size > 1 {
        if a.size > 1 {
          rv := AndWords(a);
        } else {
          rv := And(ptr[0], a.data) != ptr[0];
          ptr[0] := And(ptr[0], a.data);
          words := words[0 := And(from[0], a.data)];
        }
        assert rv <==> words != from;
        if size > a.size {
          ghost var before := words;
          rv := ZeroFrom(a.size, rv);
          TwoChanges(from, before, words, a.size);
        }
      } else if a.size > 1 {
        rv := And(data, a.ptr[0]) != data;
        data := And(data, a.ptr[0]);
        words := [data];
      } else {
        rv := And(data, a.data) != data;
        data := And(data, a.data);
        words := [data];
      }
      assert rv <==> words != from;
      Intersection(from, old(a.words), words);
    }

    method AndWords(a: Bitvec) returns (rv: bool)
      requires Valid() && a.Valid() && (a == this || a.ptr != ptr) && a.size > 1 && size > 1
      modifies this`words, ptr
      ensures Valid() && a.Valid() && (rv <==> words != old(words))
      ensures forall k | 0 <= k < size :: words[k] == if k < a.size then And(old(words)[k], old(a.words)[k]) else old(words)[k]
    {
      rv := false;
      var i := 0;
      while i < size && i < a.size
        invariant i <= size && i <= a.size
        invariant a.words == old(a.words) && a.size <= a.ptr.Length && forall k | i <= k < a.size :: a.ptr[k] == a.words[k]
        invariant words == old(words) && size <= ptr.Length && (a != this ==> a.Valid())
        invariant forall k | 0 <= k < size :: ptr[k] == if k < i then And(words[k], a.words[k]) else words[k]
        invariant rv <==> exists k :: 0 <= k < i && ptr[k] != words[k]
      {
        rv := rv || And(ptr[i], a.ptr[i]) != ptr[i];
        ptr[i] := And(ptr[i], a.ptr[i]);
        i := i + 1;
      }
      words := ptr[..size];
      DifferSomewhere(old(words), words, i);
    }

    /** Clears the words from `lo` on, and tells whether one of them was not zero, or `rv`. */
    method ZeroFrom(lo: nat, rv: bool) returns (r: bool)
      requires Valid() && size > 1 && lo <= size
      modifies this`words, ptr
      ensures Valid() && forall k | 0 <= k < size :: words[k] == if k < lo then old(words)[k] else Zero()
      ensures r <==> rv || exists k :: lo <= k < size && old(words)[k] != Zero()
    {
      r := rv;
      if !r {
        for i := lo to size
          invariant !r && forall k | lo <= k < i :: ptr[k] == Zero()
        {
          if ptr[i] != Zero() {
            r := true;
            break;
          }
        }
      }
      for i := lo to size
        invariant words == old(words) && forall k | 0 <= k < size :: ptr[k] == if lo <= k < i then Zero() else words[k]
      {
        ptr[i] := Zero();
      }
      words := ptr[..size];
    }

    /** `-=`: difference; tells whether the set has shrunk. */
    method SubAssign(a: Bitvec) returns (rv: bool)
      requires Valid() && a.Valid() && (a == this || a.ptr != ptr)
      modifies this`data, this`words, ptr
      ensures Valid()
      ensures Set() == old(Set()) - old(a.Set()) && (rv <==> Set() != old(Set()))
    {
      ghost var from := words;
      if size > 1 {
        if a.size > 1 {
          rv := SubWords(a);
        } else {
          rv := And(ptr[0], Not(a.data)) != ptr[0];
          ptr[0] := And(ptr[0], Not(a.data));
          words := words[0 := And(from[0], Not(a.data))];
        }
      } else if a.size > 1 {
        rv := And(data, Not(a.ptr[0])) != data;
        data := And(data, Not(a.ptr[0]));
        words := [data];
      } else {
        rv := And(data, Not(a.data)) != data;
        data := And(data, Not(a.data));
        words := [data];
      }
      assert rv <==> words != from;
      Difference(from, old(a.words), words);
    }

    method SubWords(a: Bitvec) returns (rv: bool)
      requires Valid() && a.Valid() && (a == this || a.ptr != ptr) && a.size > 1 && size > 1
      modifies this`words, ptr
      ensures Valid() && a.Valid() && (rv <==> words != old(words))
      ensures forall k | 0 <= k < size :: words[k] == if k < a.size then And(old(words)[k], Not(old(a.words)[k])) else old(words)[k]
    {
      rv := false;
      var i := 0;
      while i < size && i < a.size
        invariant i <= size && i <= a.size
        invariant a.words == old(a.words) && a.size <= a.ptr.Length && forall k | i <= k < a.size :: a.ptr[k] == a.words[k]
        invariant words == old(words) && size <= ptr.Length && (a != this ==> a.Valid())
        invariant forall k | 0 <= k < size :: ptr[k] == if k < i then And(words[k], Not(a.words[k])) else words[k]
        invariant rv <==> exists k :: 0 <= k < i && ptr[k] != words[k]
      {
        rv := rv || And(ptr[i], Not(a.ptr[i])) != ptr[i];
        ptr[i] := And(ptr[i], Not(a.ptr[i]));
        i := i + 1;
      }
      words := ptr[..size];
      DifferSomewhere(old(words), words, i);
    }

    /** `==`, whatever the sizes. */
    method Equals(a: Bitvec) returns (r: bool)
      requires Valid() && a.Valid()
      ensures r <==> Set() == a.Set()
    {
      SameSet(words, a.words);
      var i := 0;
      while i < size || i < a.size
        invariant forall k: nat | k < i :: WordAt(words, k) == WordAt(a.words, k)
        decreases size + a.size - i
      {
        if Word(i) != a.Word(i) {
          return false;
        }
        i := i + 1;
      }
      return true;
    }

    /** `<`: the sets as binary numbers. */
    method Less(a: Bitvec) returns (r: bool)
      requires Valid() && a.Valid()
      ensures r <==> NumberLess(Set(), a.Set())
    {
      var i := if size > a.size then size else a.size;
      while i > 0
        invariant forall k: nat | k >= i :: WordAt(words, k) == WordAt(a.words, k)
      {
        i := i - 1;
        if WordLess(Word(i), a.Word(i)) {
          FirstDifference(words, a.words, i);
          return true;
        }
        if WordLess(a.Word(i), Word(i)) {
          FirstDifference(a.words, words, i);
          return false;
        }
        WordLessTotal(Word(i), a.Word(i));
      }
      SameSet(words, a.words);
      return false;
    }

    /** The first number in the set from `start` on, or -1. */
    method Ffs(start: nat) returns (r: int)
      requires Valid()
      ensures IsNext(Set(), start, r)
    {
      var idx := start / UNIT;
      var val := Shl(Ones(), start % UNIT);
      NothingBetween(words, start, UNIT * idx);
      while idx < size
        invariant idx >= start / UNIT && val == StartMask(start, idx)
        invariant Lacks(words, start, UNIT * idx)
      {
        val := And(val, Word(idx));
        if val != Zero() {
          var rv := UNIT * idx + Ctz(val);
          FirstInWord(words, val, start, idx);
          return rv;
        }
        NoneInWord(words, start, idx);
        idx := idx + 1;
        val := Ones();
      }
      NothingMore(words, start, idx);
      return -1;
    }

    /** The first number from `start` on that is not in the set. */
    method Ffz(start: nat) returns (r: nat)
      requires Valid()
      ensures IsGap(Set(), start, r)
    {
      var idx := start / UNIT;
      var val := Not(Shl(Not(Zero()), start % UNIT));
      StopMasks(start, idx);
      val := Or(val, Word(idx));
      NothingBetween(words, start, UNIT * idx);
      while Not(val) == Zero()
        invariant idx >= start / UNIT && val == Or(StopMask(start, idx), Word(idx))
        invariant Fills(words, start, UNIT * idx)
        decreases size - idx
      {
        AllInWord(words, start, idx);
        idx := idx + 1;
        StopMasks(start, idx);
        val := Or(Zero(), Word(idx));
      }
      FirstOutside(words, val, start, idx);
      return UNIT * idx + Ctz(Not(val));
    }

    /** `++` of an iterator at `pos`, -1 standing for the end: the next number in the set. */
    method Next(pos: int) returns (idx: int)
      requires Valid() && pos >= -1
      ensures IsNext(Set(), pos + 1, idx)
    {
      idx := pos + 1;
      NothingBetween(words, pos + 1, pos + 1);
      while idx < size * UNIT
        invariant idx > pos && Lacks(words, pos + 1, idx)
      {
        var w := Shr(Word(idx / UNIT), idx % UNIT);
        NextInWord(words, pos + 1, idx);
        if w != Zero() {
          idx := idx + Ctz(w);
          return;
        }
        idx := idx / UNIT * UNIT + UNIT - 1;
        idx := idx + 1;
      }
      NothingFrom(words, pos + 1, idx);
      return -1;
    }

    /** `--` of an iterator at `pos`: the previous number in the set, from the end if `pos` is negative. */
    method Prev(pos: int) returns (idx: int)
      requires Valid()
      ensures IsPrevious(Set(), if pos < 0 then size * UNIT else pos, idx)
    {
      idx := if pos < 0 then size * UNIT else pos;
      ghost var bound: nat := idx;
      idx := idx - 1;
      NothingBetween(words, bound, bound);
      while idx >= 0
        invariant -1 <= idx < bound && Lacks(words, idx + 1, bound)
      {
        var w := Shl(Word(idx / UNIT), UNIT - 1 - idx % UNIT);
        PreviousInWord(words, idx, bound);
        if w != Zero() {
          idx := idx - Clz(w);
          return;
        }
        idx := idx / UNIT * UNIT;
        idx := idx - 1;
      }
      NothingBefore(words, bound);
    }

    /** The greatest number in the set, or -1. */
    method Max() returns (idx: int)
      requires Valid()
      ensures if idx == -1 then Set() == {} else idx in Set() && forall i | i in Set() :: i <= idx
    {
      idx := Prev(size * UNIT);
      assert Look(Set(), 0);
      BitsBelow(words);
    }

    /** `>>=`, in place. */
    method ShiftRightAssign(count: nat)
      requires Valid()
      modifies this`size, this`data, this`words, ptr
      ensures Valid()
      ensures MovedDown(old(Set()), Set(), count)
    {
      var off, c := count / UNIT, count % UNIT;
      ghost var from := words;
      if size == 1 {
        DownData(count);
      } else {
        DownWords(off, c);
        ghost var shifted := words;
        Shrink();
        ShrunkWords(from, shifted, words, off, c);
      }
      ShiftedDownBits(from, words, off, c, count);
    }

    method DownData(count: nat)
      requires Valid() && size == 1
      modifies this`data, this`words
      ensures Valid() && ShiftedDown(old(words), words, count / UNIT, count % UNIT)
    {
      OneWordDown(data, count);
      if count >= UNIT {
        data := Zero();
      } else {
        data := Shr(data, count);
      }
      words := [data];
    }

    method DownWords(off: nat, c: nat)
      requires Valid() && size > 1 && c < UNIT
      modifies this`words, ptr
      ensures Valid() && ShiftedDown(old(words), words, off, c)
    {
      ghost var from := words;
      for i := 0 to size
        invariant words == from && forall k | 0 <= k < size :: ptr[k] == if k < i then DownWord(from, off, c, k) else from[k]
      {
        DownStep(i, off, c);
      }
      words := ptr[..size];
    }

    method DownStep(i: nat, off: nat, c: nat)
      requires c < UNIT && i < size == |words| <= ptr.Length && forall k | i <= k < size :: ptr[k] == words[k]
      modifies ptr
      ensures ptr[i] == DownWord(words, off, c, i) && forall k | 0 <= k < ptr.Length && k != i :: ptr[k] == old(ptr[k])
    {
      if i + off < size {
        ptr[i] := Shr(ptr[i + off], c);
        if c != 0 && i + off + 1 < size {
          ptr[i] := Or(ptr[i], Shl(ptr[i + off + 1], UNIT - c));
        }
      } else {
        ptr[i] := Zero();
      }
    }

    /** Drops zero words at the end. */
    method Shrink()
      requires Valid() && size > 1
      modifies this`size, this`data, this`words
      ensures Valid() && forall i: nat :: WordAt(words, i) == WordAt(old(words), i)
    {
      var n := size;
      while n > 1 && ptr[n - 1] == Zero()
        invariant 0 < n <= size && forall k | n <= k < size :: ptr[k] == Zero()
      {
        n := n - 1;
      }
      size := n;
      if size == 1 {
        data := ptr[0];
      }
      words := words[..n];
    }

    /** `<<=`, in place; shifting an empty one-word vector by exactly a word is undefined. */
    method ShiftLeftAssign(count: nat)
      requires Valid() && !(Set() == {} && size == 1 && count == UNIT)
      modifies this, ptr
      ensures Valid() && (ptr == old(ptr) || fresh(ptr))
      ensures MovedUp(old(Set()), Set(), count)
    {
      MakeRoom(count);
      ghost var from := words;
      var off, c := count / UNIT, count % UNIT;
      if size == 1 {
        data := Shl(data, count);
        words := [data];
      } else {
        UpWords(off, c);
      }
      ShiftedUpBits(from, words, off, c, count);
    }

    /** Makes room for all bits to move up by `count`. */
    method MakeRoom(count: nat)
      requires Valid() && !(Set() == {} && size == 1 && count == UNIT)
      modifies this
      ensures Valid() && (ptr == old(ptr) || fresh(ptr)) && Set() == old(Set())
      ensures (forall i | i in Set() :: i + count < UNIT * size) && (size == 1 ==> count < UNIT)
    {
      var max := Max();
      var needsize := (max + count + UNIT) / UNIT;
      if needsize > size {
        Expand(needsize);
        BitsWithZeros(old(words), size - old(size));
      }
      assert max + count < UNIT * size;
    }

    method UpWords(off: nat, c: nat)
      requires Valid() && size > 1 && c < UNIT
      modifies this`words, ptr
      ensures Valid() && ShiftedUp(old(words), words, off, c)
    {
      ghost var from := words;
      var i := size - 1;
      while i >= 0
        invariant -1 <= i < size
        invariant words == from && forall k | 0 <= k < size :: ptr[k] == if k > i then UpWord(from, off, c, k) else from[k]
      {
        UpStep(i, off, c);
        i := i - 1;
      }
      words := ptr[..size];
    }

    method UpStep(i: nat, off: nat, c: nat)
      requires c < UNIT && i < size == |words| <= ptr.Length && forall k | 0 <= k <= i :: ptr[k] == words[k]
      modifies ptr
      ensures ptr[i] == UpWord(words, off, c, i) && forall k | 0 <= k < ptr.Length && k != i :: ptr[k] == old(ptr[k])
    {
      if i >= off {
        ptr[i] := Shl(ptr[i - off], c);
        if c != 0 && i > off {
          ptr[i] := Or(ptr[i], Shr(ptr[i - off - 1], UNIT - c));
        }
      } else {
        ptr[i] := Zero();
      }
    }
  }

  lemma OneWordDown(w: Word, count: nat)
    ensures ShiftedDown([w], [if count >= UNIT then Zero() else Shr(w, count)], count / UNIT, count % UNIT)
  {
    forall i: nat | i > 0 ensures DownWord([w], count / UNIT, count % UNIT, i) == Zero() {
    }
    if count < UNIT {
      assert count / UNIT == 0 && count % UNIT == count;
    }
  }

  lemma ShrunkWords(from: seq<Word>, shifted: seq<Word>, ws: seq<Word>, off: nat, c: nat)
    requires c < UNIT && ShiftedDown(from, shifted, off, c) && forall i: nat :: WordAt(ws, i) == WordAt(shifted, i)
    ensures ShiftedDown(from, ws, off, c)
  {
    assert Peek(shifted, 0);
  }

  lemma BitsBelow(ws: seq<Word>)
    ensures forall i | i in Bits(ws) :: i < UNIT * |ws|
  {
  }

  /** No number from `lo` to `hi` is in the set. */
  ghost predicate Lacks(ws: seq<Word>, lo: nat, hi: nat) {
    forall z {:trigger Peek(ws, z)} | Peek(ws, z) :: forall i: nat {:trigger Has(ws, i)} | lo <= i < hi :: !Has(ws, i)
  }

  /** All numbers from `lo` to `hi` are in the set. */
  ghost predicate Fills(ws: seq<Word>, lo: nat, hi: nat) {
    forall z {:trigger Peek(ws, z)} | Peek(ws, z) :: forall i: nat {:trigger Has(ws, i)} | lo <= i < hi :: Has(ws, i)
  }

  ghost function StartMask(start: nat, k: nat): Word {
    if k == start / UNIT then Shl(Ones(), start % UNIT) else Ones()
  }

  lemma FirstInWord(ws: seq<Word>, val: Word, start: nat, k: nat)
    requires start / UNIT <= k < |ws| && val != Zero() && val == And(StartMask(start, k), ws[k])
    requires Lacks(ws, start, UNIT * k)
    ensures IsNext(Bits(ws), start, UNIT * k + Ctz(val))
  {
    assert Peek(ws, 0);
    var r := UNIT * k + Ctz(val);
    HasAt(ws, k, Ctz(val));
    forall i: nat | start <= i < r ensures !Has(ws, i) {
      var l, j := HasSplit(ws, i);
      assert l == k ==> !val[j];
    }
  }

  lemma NoneInWord(ws: seq<Word>, start: nat, k: nat)
    requires start / UNIT <= k < |ws| && And(StartMask(start, k), ws[k]) == Zero()
    requires Lacks(ws, start, UNIT * k)
    ensures Lacks(ws, start, UNIT * (k + 1))
  {
    assert Peek(ws, 0);
    var val := And(StartMask(start, k), ws[k]);
    forall i: nat | start <= i < UNIT * (k + 1) ensures !Has(ws, i) {
      var l, j := HasSplit(ws, i);
      assert l == k ==> !val[j];
    }
  }

  lemma NothingMore(ws: seq<Word>, start: nat, k: nat)
    requires |ws| <= k && Lacks(ws, start, UNIT * k)
    ensures IsNext(Bits(ws), start, -1)
  {
    NothingFrom(ws, start, UNIT * k);
  }

  lemma NothingFrom(ws: seq<Word>, start: nat, end: nat)
    requires UNIT * |ws| <= end && Lacks(ws, start, end)
    ensures IsNext(Bits(ws), start, -1)
  {
    assert Peek(ws, 0);
    BitsBelow(ws);
  }

  ghost function StopMask(start: nat, k: nat): Word {
    if k == start / UNIT then Below(start % UNIT) else Zero()
  }

  lemma StopMasks(start: nat, k: nat)
    requires k >= start / UNIT
    ensures StopMask(start, k) == if k == start / UNIT then Not(Shl(Not(Zero()), start % UNIT)) else Zero()
  {
  }

  lemma AllInWord(ws: seq<Word>, start: nat, k: nat)
    requires start / UNIT <= k && Not(Or(StopMask(start, k), WordAt(ws, k))) == Zero()
    requires Fills(ws, start, UNIT * k)
    ensures k < |ws| && Fills(ws, start, UNIT * (k + 1))
  {
    assert Peek(ws, 0);
    var val := Or(StopMask(start, k), WordAt(ws, k));
    assert !Not(val)[UNIT - 1] && val[UNIT - 1];
    assert WordAt(ws, k)[UNIT - 1];
    forall i: nat | start <= i < UNIT * (k + 1) ensures Has(ws, i) {
      var l, j := HasSplit(ws, i);
      assert l == k ==> !Not(val)[j];
    }
  }

  lemma FirstOutside(ws: seq<Word>, val: Word, start: nat, k: nat)
    requires start / UNIT <= k && Not(val) != Zero() && val == Or(StopMask(start, k), WordAt(ws, k))
    requires Fills(ws, start, UNIT * k)
    ensures IsGap(Bits(ws), start, UNIT * k + Ctz(Not(val)))
  {
    assert Peek(ws, 0);
    var r := UNIT * k + Ctz(Not(val));
    assert !val[Ctz(Not(val))];
    HasAt(ws, k, Ctz(Not(val)));
    forall i: nat | start <= i < r ensures i in Bits(ws) {
      var l, j := HasSplit(ws, i);
      assert l == k ==> !Not(val)[j];
    }
  }

  /** One step of an iterator forwards: the rest of the word at `idx` is empty, or its first bit is next. */
  lemma NextInWord(ws: seq<Word>, start: nat, idx: nat)
    requires start <= idx && Lacks(ws, start, idx)
    ensures var w := Shr(WordAt(ws, idx / UNIT), idx % UNIT);
            if w == Zero() then Lacks(ws, start, idx / UNIT * UNIT + UNIT) else IsNext(Bits(ws), start, idx + Ctz(w))
  {
    assert Peek(ws, 0);
    var w := Shr(WordAt(ws, idx / UNIT), idx % UNIT);
    forall i: nat | idx <= i < idx / UNIT * UNIT + UNIT ensures Has(ws, i) <==> w[i - idx] {
      HasAt(ws, idx / UNIT, i - idx / UNIT * UNIT);
    }
  }

  /** One step of an iterator backwards. */
  lemma PreviousInWord(ws: seq<Word>, idx: nat, bound: nat)
    requires idx < bound && Lacks(ws, idx + 1, bound)
    ensures var w := Shl(WordAt(ws, idx / UNIT), UNIT - 1 - idx % UNIT);
            if w == Zero() then Lacks(ws, idx / UNIT * UNIT, bound) else IsPrevious(Bits(ws), bound, idx - Clz(w))
  {
    assert Peek(ws, 0);
    var w := Shl(WordAt(ws, idx / UNIT), UNIT - 1 - idx % UNIT);
    ShiftedUpToIndex(ws, idx);
    if w == Zero() {
      forall i: nat | idx / UNIT * UNIT <= i < bound ensures !Has(ws, i) {
        assert i <= idx ==> !w[UNIT - 1 - (idx - i)];
      }
    } else {
      var r := idx - Clz(w);
      assert w[UNIT - 1 - (idx - r)];
      forall i: nat | r < i < bound ensures !Has(ws, i) {
        assert i <= idx ==> !w[UNIT - 1 - (idx - i)];
      }
      InBits(ws, r);
    }
  }

  /** Shifted up so that bit `idx` comes last, the word shows the bits from the start of the word to `idx`. */
  lemma ShiftedUpToIndex(ws: seq<Word>, idx: nat)
    ensures var w := Shl(WordAt(ws, idx / UNIT), UNIT - 1 - idx % UNIT);
            && (w != Zero() ==> Clz(w) <= idx % UNIT)
            && forall i: nat {:trigger Has(ws, i)} | idx / UNIT * UNIT <= i <= idx :: Has(ws, i) <==> w[UNIT - 1 - (idx - i)]
  {
    var w := Shl(WordAt(ws, idx / UNIT), UNIT - 1 - idx % UNIT);
    forall i: nat | idx / UNIT * UNIT <= i <= idx ensures Has(ws, i) <==> w[UNIT - 1 - (idx - i)] {
      HasAt(ws, idx / UNIT, i - idx / UNIT * UNIT);
    }
  }

  lemma NothingBefore(ws: seq<Word>, bound: nat)
    requires Lacks(ws, 0, bound)
    ensures IsPrevious(Bits(ws), bound, -1)
  {
    assert Peek(ws, 0);
  }

  lemma NothingBetween(ws: seq<Word>, lo: nat, hi: nat)
    requires hi <= lo
    ensures Lacks(ws, lo, hi) && Fills(ws, lo, hi)
  {
  }

  lemma NotEmpty(ws: seq<Word>, i: nat)
    requires WordAt(ws, i) != Zero()
    ensures Bits(ws) != {}
  {
    var j := Ctz(WordAt(ws, i));
    HasAt(ws, i, j);
    assert UNIT * i + j in Bits(ws);
  }

  lemma AllZero(ws: seq<Word>)
    requires forall k | 0 <= k < |ws| :: WordAt(ws, k) == Zero()
    ensures Bits(ws) == {}
  {
    forall i: nat ensures !Has(ws, i) {
      var k, j := HasSplit(ws, i);
    }
  }

  lemma DifferSomewhere(from: seq<Word>, ws: seq<Word>, n: nat)
    requires n <= |ws| == |from| && forall k | n <= k < |ws| :: ws[k] == from[k]
    ensures ws != from <==> exists k :: 0 <= k < n && ws[k] != from[k]
  {
    if forall k | 0 <= k < n :: ws[k] == from[k] {
      assert ws == from;
    }
  }

  lemma TwoChanges(from: seq<Word>, mid: seq<Word>, ws: seq<Word>, n: nat)
    requires n <= |ws| == |from| == |mid|
    requires forall k | n <= k < |ws| :: mid[k] == from[k]
    requires forall k | 0 <= k < n :: ws[k] == mid[k]
    ensures ws != from <==> mid != from || exists k :: n <= k < |ws| && mid[k] != ws[k]
  {
    DifferSomewhere(from, mid, n);
    if forall k | 0 <= k < |ws| :: ws[k] == from[k] {
      assert ws == from;
    }
  }

  lemma ChangedWords(from: seq<Word>, ws: seq<Word>)
    requires |ws| == |from|
    ensures Bits(ws) == Bits(from) <==> ws == from
  {
    SameSet(ws, from);
    if forall k: nat :: WordAt(ws, k) == WordAt(from, k) {
      forall k | 0 <= k < |ws| ensures ws[k] == from[k] {
        assert WordAt(ws, k) == WordAt(from, k);
      }
      assert ws == from;
    }
  }

  lemma Union(from: seq<Word>, a: seq<Word>, ws: seq<Word>)
    requires |a| <= |from| == |ws| && forall k | 0 <= k < |ws| :: ws[k] == if k < |a| then Or(from[k], a[k]) else from[k]
    ensures Bits(ws) == Bits(from) + Bits(a) && (Bits(ws) == Bits(from) <==> ws == from)
  {
    ChangedWords(from, ws);
  }

  lemma Intersection(from: seq<Word>, a: seq<Word>, ws: seq<Word>)
    requires |from| == |ws| && forall k | 0 <= k < |ws| :: ws[k] == if k < |a| then And(from[k], a[k]) else Zero()
    ensures Bits(ws) == Bits(from) * Bits(a) && (Bits(ws) == Bits(from) <==> ws == from)
  {
    ChangedWords(from, ws);
  }

  lemma Difference(from: seq<Word>, a: seq<Word>, ws: seq<Word>)
    requires |from| == |ws| && forall k | 0 <= k < |ws| :: ws[k] == if k < |a| then And(from[k], Not(a[k])) else from[k]
    ensures Bits(ws) == Bits(from) - Bits(a) && (Bits(ws) == Bits(from) <==> ws == from)
  {
    ChangedWords(from, ws);
  }

  /** As binary numbers: the highest bit in which they differ is in the second. */
  ghost predicate NumberLess(a: set<nat>, b: set<nat>) {
    exists i :: i in b && i !in a && AgreeAbove(a, b, i)
  }

  ghost predicate AgreeAbove(a: set<nat>, b: set<nat>, i: nat) {
    forall j | j > i :: j in a <==> j in b
  }

  /** Words as unsigned numbers. */
  predicate WordLess(a: Word, b: Word) {
    exists i | 0 <= i < UNIT :: !a[i] && b[i] && forall j | i < j < UNIT :: a[j] == b[j]
  }

  lemma WordLessTotal(a: Word, b: Word)
    ensures a == b || WordLess(a, b) || WordLess(b, a)
  {
    DifferBelow(a, b, UNIT);
  }

  lemma {:induction false} DifferBelow(a: Word, b: Word, n: nat)
    requires n <= UNIT && forall j | n <= j < UNIT :: a[j] == b[j]
    ensures a == b || WordLess(a, b) || WordLess(b, a)
    decreases n
  {
    if n == 0 {
      assert a == b;
    } else if a[n - 1] == b[n - 1] {
      DifferBelow(a, b, n - 1);
    } else {
      HighestDifference(a, b, n - 1);
    }
  }

  lemma HighestDifference(a: Word, b: Word, i: nat)
    requires i < UNIT && a[i] != b[i] && forall j | i < j < UNIT :: a[j] == b[j]
    ensures WordLess(a, b) || WordLess(b, a)
  {
    if b[i] {
      assert !a[i] && b[i];
    } else {
      assert !b[i] && a[i];
    }
  }

  lemma FirstDifference(ws: seq<Word>, vs: seq<Word>, k: nat)
    requires WordLess(WordAt(ws, k), WordAt(vs, k)) && forall i: nat | i > k :: WordAt(ws, i) == WordAt(vs, i)
    ensures NumberLess(Bits(ws), Bits(vs)) && !NumberLess(Bits(vs), Bits(ws))
  {
    var a, b := WordAt(ws, k), WordAt(vs, k);
    var j :| 0 <= j < UNIT && !a[j] && b[j] && forall l | j < l < UNIT :: a[l] == b[l];
    var i := UNIT * k + j;
    HasAt(ws, k, j);
    HasAt(vs, k, j);
    InBits(ws, i);
    InBits(vs, i);
    forall m | m > i ensures m in Bits(ws) <==> m in Bits(vs) {
      var mk, mj := HasSplit(ws, m);
      var nk, nj := HasSplit(vs, m);
      InBits(ws, m);
      InBits(vs, m);
      assert mk > k || (mk == k && mj > j);
    }
    assert AgreeAbove(Bits(ws), Bits(vs), i);
    NotBoth(Bits(ws), Bits(vs));
  }

  lemma NotBoth(a: set<nat>, b: set<nat>)
    requires NumberLess(a, b)
    ensures !NumberLess(b, a)
  {
    var i :| i in b && i !in a && AgreeAbove(a, b, i);
    forall j | j in a && j !in b ensures !AgreeAbove(b, a, j) {
      assert j != i;
    }
  }

  /** Clearing more than there is. */
  lemma BeyondSize(ws: seq<Word>, idx: nat, cnt: nat, sz: nat)
    requires sz == if |ws| < cnt / UNIT then |ws| * UNIT else cnt
    ensures Bits(ws) - Range(idx, idx + cnt) == Bits(ws) - Range(idx, idx + sz)
    ensures idx >= |ws| * UNIT ==> Bits(ws) == Bits(ws) - Range(idx, idx + cnt)
  {
  }

  ghost function TwoWords(ws: seq<Word>, k: nat, shift: nat, sz: nat): Word
    requires k < |ws| && shift < UNIT && sz <= UNIT
  {
    if UNIT - shift < sz && k + 1 < |ws| then Or(Shr(ws[k], shift), Shl(ws[k + 1], UNIT - shift)) else Shr(ws[k], shift)
  }

  lemma GetAcross(ws: seq<Word>, r: Word, k: nat, shift: nat, sz: nat)
    requires k < |ws| && shift < UNIT && 0 < sz <= UNIT
    requires r == TwoWords(ws, k, shift, sz)
    ensures forall j | 0 <= j < sz :: r[j] <==> Has(ws, UNIT * k + shift + j)
  {
    forall j | 0 <= j < sz ensures r[j] <==> Has(ws, UNIT * k + shift + j) {
      HasAcross(ws, k, shift + j, UNIT * k + shift + j);
    }
  }

  lemma GetMasked(ws: seq<Word>, r: Word, start: nat, sz: nat)
    requires start < UNIT * |ws| && 0 < sz <= UNIT && r == TwoWords(ws, start / UNIT, start % UNIT, sz)
    ensures forall j | 0 <= j < UNIT :: And(r, Low(sz))[j] <==> j < sz && start + j in Bits(ws)
  {
    var k, shift := start / UNIT, start % UNIT;
    GetAcross(ws, r, k, shift, sz);
    forall j | 0 <= j < sz ensures r[j] <==> start + j in Bits(ws) {
      assert start + j == UNIT * k + shift + j;
      InBits(ws, start + j);
    }
  }

  ghost function PutLow(w: Word, mask: Word, value: Word, shift: nat): Word
    requires shift < UNIT
  {
    Or(And(w, Not(Shl(mask, shift))), Shl(value, shift))
  }

  ghost function PutHigh(w: Word, mask: Word, value: Word, shift: nat): Word
    requires shift < UNIT
  {
    Or(And(w, Not(Shr(mask, shift))), Shr(value, shift))
  }

  /** The lower word, and the upper as soon as `shift` is past it. */
  ghost predicate PutSoFar(from: seq<Word>, ws: seq<Word>, idx: nat, sz: nat, mask: Word, value: Word, at: nat)
    requires sz <= UNIT && idx + sz <= UNIT * |from|
  {
    var k, shift := idx / UNIT, idx % UNIT;
    && (at != UNIT - shift ==> UNIT - shift < sz)
    && |ws| == |from| && k < |ws|
    && ws[k] == PutLow(from[k], mask, value, shift)
    && (at != UNIT - shift ==> ws[k + 1] == PutHigh(from[k + 1], mask, value, UNIT - shift))
    && forall i | 0 <= i < |ws| && i != k && !(i == k + 1 && at != UNIT - shift) :: ws[i] == from[i]
  }

  /** Words into which a value has been put. */
  ghost predicate PutWords(from: seq<Word>, ws: seq<Word>, idx: nat, sz: nat, mask: Word, value: Word)
    requires 0 < sz <= UNIT
  {
    var k, shift := idx / UNIT, idx % UNIT;
    && |ws| == |from| && idx + sz <= UNIT * |ws|
    && ws[k] == PutLow(from[k], mask, value, shift)
    && (UNIT - shift < sz ==> ws[k + 1] == PutHigh(from[k + 1], mask, value, UNIT - shift))
    && forall i | 0 <= i < |ws| && i != k && !(i == k + 1 && UNIT - shift < sz) :: ws[i] == from[i]
  }

  lemma PutBit(from: seq<Word>, ws: seq<Word>, idx: nat, sz: nat, v: Word, k: nat, j: nat)
    requires 0 < sz <= UNIT && PutWords(from, ws, idx, sz, Low(sz), And(v, Low(sz))) && k < |ws| && j < UNIT
    ensures var i := UNIT * k + j; ws[k][j] <==> if idx <= i < idx + sz then v[i - idx] else from[k][j]
  {
  }

  lemma PutAcross(from: seq<Word>, ws: seq<Word>, idx: nat, sz: nat, v: Word)
    requires 0 < sz <= UNIT && PutWords(from, ws, idx, sz, Low(sz), And(v, Low(sz)))
    ensures IsPut(Bits(from), Bits(ws), idx, sz, v)
  {
    forall i: nat ensures i in Bits(ws) <==> if idx <= i < idx + sz then v[i - idx] else i in Bits(from) {
      InBits(ws, i);
      InBits(from, i);
      var k, j := HasSplit(ws, i);
      var k', j' := HasSplit(from, i);
      if k < |ws| {
        PutBit(from, ws, idx, sz, v, k, j);
      }
    }
  }
}
