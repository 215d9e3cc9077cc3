/** The fixed codes of section 3.2.6 of RFC 1951 use up the whole code space. */
module FixedCodes {
  import opened Bits
  import opened PrefixCode
  import opened Deflate

  /** A run of equal lengths adds its size times one weight to the Kraft sum. */
  lemma {:induction false} KraftRun(lens: Lengths, m: nat, n: nat, v: nat, weight: nat)
    requires m <= n <= |lens| && 0 < v <= MAX_LEN && weight == Pow2(15 - v)
    requires forall i :: m <= i < n ==> lens[i] == v
    ensures KraftSum(lens, n) == KraftSum(lens, m) + (n - m) * weight
  {
    hide *;
    if m < n {
      KraftRun(lens, m, n - 1, v, weight);
      MaxLength();
      KraftStep(lens, n, v);
      OneMore(n - 1 - m, weight);
      assert n - m == n - 1 - m + 1;
    } else {
      NoneMore(weight);
    }
  }

  lemma KraftStep(lens: Lengths, n: nat, v: nat)
    requires 0 < n <= |lens| && 0 < v <= 15 && lens[n - 1] == v
    ensures KraftSum(lens, n) == KraftSum(lens, n - 1) + Pow2(15 - v)
  {
  }

  lemma MaxLength()
    ensures MAX_LEN == 15
  {
  }

  lemma OneMore(k: nat, weight: nat)
    ensures (k + 1) * weight == k * weight + weight
  {
  }

  lemma NoneMore(weight: nat)
    ensures 0 * weight == 0
  {
  }

  lemma KraftOfNone(lens: Lengths)
    ensures KraftSum(lens, 0) == 0
  {
  }

  lemma Weights()
    ensures Pow2(15 - 5) == 0x400 && Pow2(15 - 7) == 0x100 && Pow2(15 - 8) == 0x80 && Pow2(15 - 9) == 0x40
  {
    Pow2Values();
    assert Pow2(10) == 0x400;
  }

  lemma FixedLitEntries(lens: Lengths)
    requires lens == FixedLit()
    ensures forall i :: 0 <= i < 144 ==> lens[i] == 8
    ensures forall i :: 144 <= i < 256 ==> lens[i] == 9
    ensures forall i :: 256 <= i < 280 ==> lens[i] == 7
    ensures forall i :: 280 <= i < 288 ==> lens[i] == 8
  {
    hide Times;
  }

  lemma FixedLitComplies()
    ensures Complies(FixedLit())
  {
    hide Times;
    hide KraftSum;
    hide Pow2;
    var lens: Lengths := FixedLit();
    KraftOfNone(lens);
    FixedLitEntries(lens);
    Weights();
    KraftRun(lens, 0, 144, 8, 0x80);
    KraftRun(lens, 144, 256, 9, 0x40);
    KraftRun(lens, 256, 280, 7, 0x100);
    KraftRun(lens, 280, 288, 8, 0x80);
    CompliesIffKraft(lens);
    Pow2Values();
  }

  lemma FixedDistComplies()
    ensures Complies(FixedDist())
  {
    hide Times;
    hide KraftSum;
    hide Pow2;
    var lens: Lengths := FixedDist();
    KraftOfNone(lens);
    Weights();
    KraftRun(lens, 0, 32, 5, 0x400);
    CompliesIffKraft(lens);
    Pow2Values();
  }
}
