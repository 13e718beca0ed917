/** 64-bit words, and the numbers that a sequence of words stands for as a set. */
module BitWords {

  const UNIT := 64

  /** A machine word, bit 0 first. */
  type Word = w: seq<bool> | |w| == 64 witness seq(64, _ => false)

  function Zero(): Word {
    seq(UNIT, _ => false)
  }

  function One(): Word {
    seq(UNIT, i => i == 0)
  }

  function Not(a: Word): Word {
    seq(UNIT, i requires 0 <= i < UNIT => !a[i])
  }

  function And(a: Word, b: Word): Word {
    seq(UNIT, i requires 0 <= i < UNIT => a[i] && b[i])
  }

  function Or(a: Word, b: Word): Word {
    seq(UNIT, i requires 0 <= i < UNIT => a[i] || b[i])
  }

  /** `a << n`; the shift is undefined for counts of the width and more. */
  function Shl(a: Word, n: nat): Word
    requires n < UNIT
  {
    seq(UNIT, i requires 0 <= i < UNIT => i >= n && a[i - n])
  }

  /** `a >> n`, of an unsigned number. */
  function Shr(a: Word, n: nat): Word
    requires n < UNIT
  {
    seq(UNIT, i requires 0 <= i < UNIT => i + n < UNIT && a[i + n])
  }

  /** The `n` lowest bits: `~(~1 << (n - 1))`. */
  function Low(n: nat): (r: Word)
    requires 0 < n <= UNIT
    ensures forall i | 0 <= i < UNIT :: r[i] == (i < n)
  {
    Not(Shl(Not(One()), n - 1))
  }

  /** The `n` lowest bits: `(1 << n) - 1`. */
  function Below(n: nat): (r: Word)
    requires n < UNIT
    ensures forall i | 0 <= i < UNIT :: r[i] == (i < n)
  {
    if n == 0 then Zero() else Low(n)
  }

  /** The number `i` is in the set. */
  ghost predicate Has(ws: seq<Word>, i: nat) {
    i / UNIT < |ws| && ws[i / UNIT][i % UNIT]
  }

  /** The set. */
  ghost function Bits(ws: seq<Word>): set<nat> {
    set i: nat | i < UNIT * |ws| && Has(ws, i)
  }

  lemma InBits(ws: seq<Word>, i: nat)
    ensures i in Bits(ws) <==> Has(ws, i)
  {
  }

  function Zeros(n: nat): (r: seq<Word>)
    ensures |r| == n && forall i | 0 <= i < n :: r[i] == Zero()
  {
    seq(n, _ => Zero())
  }

  /** More zero words do not change the set. */
  lemma BitsWithZeros(ws: seq<Word>, n: nat)
    ensures Bits(ws + Zeros(n)) == Bits(ws)
  {
  }

  /** Words that agree wherever one of the sequences has any are the same set. */
  ghost function WordAt(ws: seq<Word>, i: nat): Word {
    if i < |ws| then ws[i] else Zero()
  }

  lemma SameSet(ws: seq<Word>, vs: seq<Word>)
    ensures Bits(ws) == Bits(vs) <==> forall i: nat :: WordAt(ws, i) == WordAt(vs, i)
  {
    if forall i: nat :: WordAt(ws, i) == WordAt(vs, i) {
      forall i: nat ensures Has(ws, i) == Has(vs, i) {
        assert WordAt(ws, i / UNIT) == WordAt(vs, i / UNIT);
      }
      assert Bits(ws) == Bits(vs);
    }
    if Bits(ws) == Bits(vs) {
      forall i: nat ensures WordAt(ws, i) == WordAt(vs, i) {
        forall j | 0 <= j < UNIT ensures WordAt(ws, i)[j] == WordAt(vs, i)[j] {
          DivMod(i, j);
          var n := UNIT * i + j;
          assert n in Bits(ws) <==> n in Bits(vs);
          assert Has(ws, n) <==> Has(vs, n);
        }
      }
    }
  }

  lemma DivMod(i: nat, j: nat)
    requires j < UNIT
    ensures (UNIT * i + j) / UNIT == i && (UNIT * i + j) % UNIT == j
  {
  }

  /** All bits of a word are clear. */
  lemma IsZero(w: Word)
    ensures w == Zero() <==> forall j | 0 <= j < UNIT :: !w[j]
  {
  }
}
