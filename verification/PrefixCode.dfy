/** Canonical Huffman codes as section 3.2.2 of RFC 1951 defines them from code lengths.

    lens[s] is the code length of symbol s, 0 meaning that s has no code.
 */
module PrefixCode {
  import opened Bits

  const MAX_LEN: nat := 15

  type Lengths = s: seq<nat> | forall i :: 0 <= i < |s| ==> s[i] <= 15

  /** How many symbols below n have code length len. */
  function Rank(lens: Lengths, len: nat, n: nat): (r: nat)
    requires n <= |lens|
    ensures r <= n
  {
    if n == 0 then 0 else Rank(lens, len, n - 1) + (if lens[n - 1] == len then 1 else 0)
  }

  function Count(lens: Lengths, len: nat): nat
  {
    Rank(lens, len, |lens|)
  }

  /** The smallest code of length len: step 2 of section 3.2.2. */
  function NextCode(lens: Lengths, len: nat): nat
  {
    if len <= 1 then 0 else 2 * (NextCode(lens, len - 1) + Count(lens, len - 1))
  }

  /** The code of symbol s: step 3 of section 3.2.2. */
  function Code(lens: Lengths, s: nat): nat
    requires s < |lens|
  {
    NextCode(lens, lens[s]) + Rank(lens, lens[s], s)
  }

  /** The code after the last one of length len. */
  function End(lens: Lengths, len: nat): nat
  {
    if len == 0 then 0 else NextCode(lens, len) + Count(lens, len)
  }

  /** No length has more codes than there are bit strings left for it. */
  ghost predicate Complies(lens: Lengths)
  {
    forall len {:trigger End(lens, len)} :: 1 <= len <= MAX_LEN ==> End(lens, len) <= Pow2(len)
  }

  /** Symbols with a code shorter than len: where the slots of length len start. */
  function FirstSlot(lens: Lengths, len: nat): nat
  {
    if len <= 1 then 0 else FirstSlot(lens, len - 1) + Count(lens, len - 1)
  }

  /** The position of symbol s when symbols are sorted by code length. */
  function Slot(lens: Lengths, s: nat): nat
    requires s < |lens|
  {
    FirstSlot(lens, lens[s]) + Rank(lens, lens[s], s)
  }

  /** The code of s as bits in stream order: most significant first. */
  function CodeBits(lens: Lengths, s: nat): (c: seq<bit>)
    requires s < |lens|
    ensures |c| == lens[s]
  {
    Reverse(ToBits(Code(lens, s), lens[s]))
  }

  /** The code of symbol s is a prefix of w. */
  predicate IsPrefix(lens: Lengths, s: nat, w: seq<bit>)
  {
    s < |lens| && 0 < lens[s] <= |w| && MsbVal(w[..lens[s]]) == Code(lens, s)
  }

  // ----- Ranks -----

  lemma {:induction false} RankMonotone(lens: Lengths, len: nat, m: nat, n: nat)
    requires m <= n <= |lens|
    ensures Rank(lens, len, m) <= Rank(lens, len, n)
  {
    if m < n {
      RankMonotone(lens, len, m, n - 1);
    }
  }

  lemma RankStrict(lens: Lengths, s: nat, n: nat)
    requires s < n <= |lens|
    ensures Rank(lens, lens[s], s) < Rank(lens, lens[s], n)
  {
    RankMonotone(lens, lens[s], s + 1, n);
  }

  /** Every rank below the count belongs to a symbol. */
  lemma {:induction false} SymbolOfRank(lens: Lengths, len: nat, r: nat, n: nat) returns (s: nat)
    requires n <= |lens| && r < Rank(lens, len, n)
    ensures s < n && lens[s] == len && Rank(lens, len, s) == r
  {
    if r < Rank(lens, len, n - 1) {
      s := SymbolOfRank(lens, len, r, n - 1);
    } else {
      s := n - 1;
    }
  }

  lemma SameRankSameSymbol(lens: Lengths, s: nat, t: nat)
    requires s < |lens| && t < |lens| && lens[s] == lens[t]
    requires Rank(lens, lens[s], s) == Rank(lens, lens[t], t)
    ensures s == t
  {
    if s < t {
      RankStrict(lens, s, t);
    } else if t < s {
      RankStrict(lens, t, s);
    }
  }

  lemma CodeInRange(lens: Lengths, s: nat)
    requires s < |lens| && 0 < lens[s]
    ensures NextCode(lens, lens[s]) <= Code(lens, s) < End(lens, lens[s])
    ensures Complies(lens) ==> Code(lens, s) < Pow2(lens[s])
  {
    RankStrict(lens, s, |lens|);
  }

  // ----- Which code is a prefix of a bit string -----

  /** The leading len bits of w stand below the end of the codes of that length. */
  predicate Below(lens: Lengths, w: seq<bit>, len: nat)
    requires len <= |w|
  {
    MsbVal(w[..len]) < End(lens, len)
  }

  lemma MsbStep(w: seq<bit>, len: nat)
    requires 0 < len <= |w|
    ensures MsbVal(w[..len]) == 2 * MsbVal(w[..len - 1]) + w[len - 1]
  {
    assert w[..len][..len - 1] == w[..len - 1];
  }

  lemma NextCodeIsTwiceEnd(lens: Lengths, len: nat)
    requires 0 < len
    ensures NextCode(lens, len) == 2 * End(lens, len - 1)
  {
  }

  lemma {:induction false} BelowStays(lens: Lengths, w: seq<bit>, m: nat, n: nat)
    requires m <= n <= |w| && Below(lens, w, m)
    ensures Below(lens, w, n)
  {
    if m < n {
      BelowStays(lens, w, m, n - 1);
      MsbStep(w, n);
      NextCodeIsTwiceEnd(lens, n);
    }
  }

  lemma PrefixIsFirstBelow(lens: Lengths, s: nat, w: seq<bit>)
    requires IsPrefix(lens, s, w)
    ensures Below(lens, w, lens[s]) && !Below(lens, w, lens[s] - 1)
  {
    CodeInRange(lens, s);
    MsbStep(w, lens[s]);
    NextCodeIsTwiceEnd(lens, lens[s]);
  }

  /** The shortest length at which w drops below the end names the symbol. */
  lemma FirstBelowIsPrefix(lens: Lengths, w: seq<bit>, len: nat) returns (s: nat)
    requires 0 < len <= |w| && Below(lens, w, len) && !Below(lens, w, len - 1)
    ensures s < |lens| && lens[s] == len && IsPrefix(lens, s, w)
    ensures Rank(lens, len, s) == MsbVal(w[..len]) - NextCode(lens, len)
  {
    MsbStep(w, len);
    NextCodeIsTwiceEnd(lens, len);
    s := SymbolOfRank(lens, len, MsbVal(w[..len]) - NextCode(lens, len), |lens|);
  }

  lemma {:induction false} FirstBelow(lens: Lengths, w: seq<bit>, len: nat) returns (first: nat)
    requires len <= |w| && Below(lens, w, len)
    ensures 0 < first <= len && Below(lens, w, first) && !Below(lens, w, first - 1)
  {
    if Below(lens, w, len - 1) {
      first := FirstBelow(lens, w, len - 1);
    } else {
      first := len;
    }
  }

  /** At most one symbol's code is a prefix of w. */
  lemma PrefixUnique(lens: Lengths, s: nat, t: nat, w: seq<bit>)
    requires IsPrefix(lens, s, w) && IsPrefix(lens, t, w)
    ensures s == t
  {
    PrefixIsFirstBelow(lens, s, w);
    PrefixIsFirstBelow(lens, t, w);
    if lens[s] < lens[t] {
      BelowStays(lens, w, lens[s], lens[t] - 1);
    } else if lens[t] < lens[s] {
      BelowStays(lens, w, lens[t], lens[s] - 1);
    }
    SameRankSameSymbol(lens, s, t);
  }

  /** A code in a compliant set is a prefix of any bit string that starts with its bits. */
  lemma CodeBitsArePrefix(lens: Lengths, s: nat, rest: seq<bit>)
    requires Complies(lens) && s < |lens| && 0 < lens[s]
    ensures IsPrefix(lens, s, CodeBits(lens, s) + rest)
  {
    CodeInRange(lens, s);
    MsbOfReversedBits(Code(lens, s), lens[s]);
    assert (CodeBits(lens, s) + rest)[..lens[s]] == CodeBits(lens, s);
  }

  /** The codes are prefix-free: none starts with the bits of another. */
  lemma PrefixFree(lens: Lengths, s: nat, t: nat)
    requires Complies(lens) && s < |lens| && t < |lens| && 0 < lens[s] && 0 < lens[t]
    requires CodeBits(lens, s) <= CodeBits(lens, t)
    ensures s == t
  {
    var rest := CodeBits(lens, t)[lens[s]..];
    CodeBitsArePrefix(lens, s, rest);
    CodeBitsArePrefix(lens, t, []);
    assert CodeBits(lens, s) + rest == CodeBits(lens, t) + [];
    PrefixUnique(lens, s, t, CodeBits(lens, t) + []);
  }

  // ----- The Kraft sum -----

  /** The sum of 2^(15 - length) over the symbols below n that have a code. */
  function KraftSum(lens: Lengths, n: nat): nat
    requires n <= |lens|
  {
    if n == 0 then 0
    else KraftSum(lens, n - 1) + (if lens[n - 1] == 0 then 0 else Pow2(15 - lens[n - 1]))
  }

  /** End, counting only the symbols below n. */
  function EndUpTo(lens: Lengths, len: nat, n: nat): nat
    requires n <= |lens|
  {
    if len == 0 then 0 else 2 * EndUpTo(lens, len - 1, n) + Rank(lens, len, n)
  }

  lemma {:induction false} EndIsEndUpTo(lens: Lengths, len: nat)
    ensures End(lens, len) == EndUpTo(lens, len, |lens|)
  {
    if len > 0 {
      EndIsEndUpTo(lens, len - 1);
    }
  }

  lemma {:induction false} EndUpToNone(lens: Lengths, len: nat)
    ensures EndUpTo(lens, len, 0) == 0
  {
    if len > 0 {
      EndUpToNone(lens, len - 1);
    }
  }

  /** One more symbol moves the end of every longer length by its own weight. */
  lemma {:induction false} EndUpToStep(lens: Lengths, len: nat, n: nat)
    requires n < |lens|
    ensures EndUpTo(lens, len, n + 1) ==
            EndUpTo(lens, len, n) + (if 1 <= lens[n] <= len then Pow2(len - lens[n]) else 0)
  {
    if len > 0 {
      EndUpToStep(lens, len - 1, n);
    }
  }

  lemma {:induction false} EndIsKraftSum(lens: Lengths, n: nat)
    requires n <= |lens|
    ensures EndUpTo(lens, MAX_LEN, n) == KraftSum(lens, n)
  {
    if n == 0 {
      EndUpToNone(lens, MAX_LEN);
    } else {
      EndIsKraftSum(lens, n - 1);
      EndUpToStep(lens, MAX_LEN, n - 1);
    }
  }

  lemma {:induction false} OverflowStays(lens: Lengths, m: nat, n: nat)
    requires 1 <= m <= n && End(lens, m) > Pow2(m)
    ensures End(lens, n) > Pow2(n)
  {
    if m < n {
      OverflowStays(lens, m, n - 1);
    }
  }

  /** The code lengths fit exactly when their Kraft sum is at most one. */
  lemma CompliesIffKraft(lens: Lengths)
    ensures Complies(lens) <==> KraftSum(lens, |lens|) <= Pow2(MAX_LEN)
  {
    EndIsEndUpTo(lens, MAX_LEN);
    EndIsKraftSum(lens, |lens|);
    if End(lens, MAX_LEN) <= Pow2(MAX_LEN) {
      forall len | 1 <= len <= MAX_LEN
        ensures End(lens, len) <= Pow2(len)
      {
        if End(lens, len) > Pow2(len) {
          OverflowStays(lens, len, MAX_LEN);
        }
      }
    }
  }

  // ----- SLOTS -----

  /** FirstSlot, counting only the symbols below n. */
  function FirstSlotUpTo(lens: Lengths, len: nat, n: nat): nat
    requires n <= |lens|
  {
    if len <= 1 then 0 else FirstSlotUpTo(lens, len - 1, n) + Rank(lens, len - 1, n)
  }

  lemma {:induction false} FirstSlotIsUpTo(lens: Lengths, len: nat)
    ensures FirstSlot(lens, len) == FirstSlotUpTo(lens, len, |lens|)
  {
    if len > 1 {
      FirstSlotIsUpTo(lens, len - 1);
    }
  }

  lemma {:induction false} FirstSlotUpToBound(lens: Lengths, len: nat, n: nat)
    requires n <= |lens|
    ensures FirstSlotUpTo(lens, len, n) <= n
    decreases n, 1
  {
    if n == 0 {
      FirstSlotUpToNone(lens, len);
    } else {
      FirstSlotUpToBound(lens, len, n - 1);
      FirstSlotUpToStep(lens, len, n - 1);
    }
  }

  lemma {:induction false} FirstSlotUpToNone(lens: Lengths, len: nat)
    ensures FirstSlotUpTo(lens, len, 0) == 0
  {
    if len > 1 {
      FirstSlotUpToNone(lens, len - 1);
    }
  }

  lemma {:induction false} FirstSlotUpToStep(lens: Lengths, len: nat, n: nat)
    requires n < |lens|
    ensures FirstSlotUpTo(lens, len, n + 1) ==
            FirstSlotUpTo(lens, len, n) + (if 1 <= lens[n] < len then 1 else 0)
  {
    if len > 1 {
      FirstSlotUpToStep(lens, len - 1, n);
    }
  }

  lemma {:induction false} FirstSlotMonotone(lens: Lengths, m: nat, n: nat)
    requires m <= n
    ensures FirstSlot(lens, m) <= FirstSlot(lens, n)
    ensures 1 <= m < n ==> FirstSlot(lens, m) + Count(lens, m) <= FirstSlot(lens, n)
  {
    if m < n {
      FirstSlotMonotone(lens, m, n - 1);
    }
  }

  /** SLOTS stay within the number of symbols. */
  lemma SlotInRange(lens: Lengths, s: nat)
    requires s < |lens| && 0 < lens[s]
    ensures Slot(lens, s) < FirstSlot(lens, lens[s] + 1) <= FirstSlot(lens, MAX_LEN + 1) <= |lens|
  {
    RankStrict(lens, s, |lens|);
    FirstSlotMonotone(lens, lens[s] + 1, MAX_LEN + 1);
    FirstSlotIsUpTo(lens, MAX_LEN + 1);
    FirstSlotUpToBound(lens, MAX_LEN + 1, |lens|);
  }

  /** No two symbols share a slot. */
  lemma SlotInjective(lens: Lengths, s: nat, t: nat)
    requires s < |lens| && t < |lens| && 0 < lens[s] && 0 < lens[t]
    requires Slot(lens, s) == Slot(lens, t)
    ensures s == t
  {
    RankStrict(lens, s, |lens|);
    RankStrict(lens, t, |lens|);
    if lens[s] < lens[t] {
      FirstSlotMonotone(lens, lens[s], lens[t]);
    } else if lens[t] < lens[s] {
      FirstSlotMonotone(lens, lens[t], lens[s]);
    }
    SameRankSameSymbol(lens, s, t);
  }

  /** Every slot below the number of codes is taken. */
  lemma {:induction false} SlotSurjective(lens: Lengths, c: nat, len: nat) returns (s: nat)
    requires c < FirstSlot(lens, len)
    ensures s < |lens| && 0 < lens[s] < len && Slot(lens, s) == c
  {
    if c < FirstSlot(lens, len - 1) {
      s := SlotSurjective(lens, c, len - 1);
    } else {
      s := SymbolOfRank(lens, len - 1, c - FirstSlot(lens, len - 1), |lens|);
    }
  }
}
