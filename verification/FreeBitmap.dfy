/**
 The two-level free bitmap: one bit for each frame slot, and one summary bit for
 each bitmap word that is not zero.
 */
module FreeBitmap {
  import opened Common
  import opened Bits

  predicate WordsFit(words: seq<nat>) {
    forall k :: 0 <= k < |words| ==> words[k] < Pow2(64)
  }

  /** A summary bit is set exactly when its word has a free slot. */
  ghost predicate Summarised(free: seq<nat>, summary: seq<nat>) {
    && WordsFit(free) && WordsFit(summary)
    && |free| <= 64 * |summary|
    && forall w :: 0 <= w < |free| ==> (SummaryBit(summary, w) <==> free[w] != 0)
  }

  predicate SummaryBit(summary: seq<nat>, w: nat) {
    w / 64 < |summary| && Bit(summary[w / 64], w % 64)
  }

  predicate IsFree(free: seq<nat>, slot: nat) {
    slot / 64 < |free| && Bit(free[slot / 64], slot % 64)
  }

  ghost predicate NoneFree(free: seq<nat>, low: nat, high: nat) {
    forall slot :: low <= slot < high ==> !IsFree(free, slot)
  }

  /** Keep bits `low` up to `high`, with the two shifted masks of the scan. */
  function Masked(word: nat, low: nat, high: nat): nat
    requires low <= 64
  {
    Pow2Monotone(low, 64);
    Pow2Monotone(0, high);
    var above := And(word, Pow2(64) - Pow2(low));
    if high < 64 then And(above, Pow2(high) - 1) else above
  }

  lemma {:induction false} BitOfMasked(word: nat, low: nat, high: nat, i: nat)
    requires low <= 64 && high <= 64 && i < 64
    ensures Bit(Masked(word, low, high), i) <==> Bit(word, i) && low <= i < high
  {
    hide And, Bit;
    Pow2Monotone(low, 64);
    Pow2Monotone(0, high);
    var above := And(word, Pow2(64) - Pow2(low));
    BitAnd(word, Pow2(64) - Pow2(low), i);
    BitOfRun(low, 64, i);
    if high < 64 {
      BitAnd(above, Pow2(high) - 1, i);
      BitOfRun(0, high, i);
    }
  }

  lemma MaskedFits(word: nat, low: nat, high: nat)
    requires low <= 64 && word < Pow2(64)
    ensures Masked(word, low, high) < Pow2(64)
  {
    hide And, Pow2;
    Pow2Monotone(low, 64);
    Pow2Monotone(0, high);
    AndShrinks(word, Pow2(64) - Pow2(low));
    AndShrinks(And(word, Pow2(64) - Pow2(low)), Pow2(high) - 1);
  }

  // --- Search -----------------------------------------------------------------

  /** No slot of word `w` that lies in `first..last` is free. */
  ghost predicate WordTaken(free: seq<nat>, w: nat, first: nat, last: nat)
    requires w < |free|
  {
    forall i :: 0 <= i < 64 && first <= w * 64 + i < last ==> !Bit(free[w], i)
  }

  lemma WordTakenSlot(free: seq<nat>, slot: nat, first: nat, last: nat)
    requires slot / 64 < |free| && first <= slot < last && WordTaken(free, slot / 64, first, last)
    ensures !IsFree(free, slot)
  {
    var w, i := slot / 64, slot % 64;
    assert slot == w * 64 + i;
  }

  lemma {:induction false} FreeSlotAt(free: seq<nat>, w: nat, i: nat)
    requires w < |free| && i < 64
    ensures IsFree(free, w * 64 + i) <==> Bit(free[w], i)
  {
    assert (w * 64 + i) / 64 == w && (w * 64 + i) % 64 == i;
  }

  /** The lowest free slot of one bitmap word within `first..last`. */
  method ScanWord(free: seq<nat>, w: nat, first: nat, last: nat) returns (r: Option<nat>)
    requires WordsFit(free) && w < |free|
    requires first / 64 <= w && first < last && w <= (last - 1) / 64
    ensures r.Some? ==> r.value / 64 == w && first <= r.value < last && IsFree(free, r.value)
                        && WordTaken(free, w, first, r.value)
    ensures r.None? ==> WordTaken(free, w, first, last)
  {
    hide Masked, And, Pow2, Bit, TrailingZeros;
    var low := if w == first / 64 then first % 64 else 0;
    var high := if w == (last - 1) / 64 && last % 64 != 0 then last % 64 else 64;
    var bits := Masked(free[w], low, high);
    MaskedFits(free[w], low, high);
    forall i | 0 <= i < 64
      ensures Bit(bits, i) <==> Bit(free[w], i) && first <= w * 64 + i < last
    {
      BitOfMasked(free[w], low, high, i);
    }
    if bits == 0 {
      forall i | 0 <= i < 64 && first <= w * 64 + i < last
        ensures !Bit(free[w], i)
      {
        BitOfZero(i);
      }
      return None;
    }
    TrailingZerosIsLowest(bits, 64);
    FreeSlotAt(free, w, TrailingZeros(bits));
    r := Some(w * 64 + TrailingZeros(bits));
  }

  /** The lowest free slot of the 64 words behind one summary word within `first..last`. */
  method ScanSummary(free: seq<nat>, summary: seq<nat>, s: nat, first: nat, last: nat) returns (r: Option<nat>)
    requires Summarised(free, summary) && s < |summary|
    requires first < last <= 64 * |free|
    requires first / 64 / 64 <= s <= (last - 1) / 64 / 64
    ensures r.Some? ==> first <= r.value < last && IsFree(free, r.value) && r.value / 64 / 64 == s
    ensures r.Some? ==> forall w :: s * 64 <= w < (s + 1) * 64 && first / 64 <= w <= (last - 1) / 64 && w < |free| ==>
            WordTaken(free, w, first, r.value)
    ensures r.None? ==> forall w :: s * 64 <= w < (s + 1) * 64 && first / 64 <= w <= (last - 1) / 64 && w < |free| ==>
            WordTaken(free, w, first, last)
  {
    hide Masked, And, Pow2, Bit, TrailingZeros, WordTaken, IsFree;
    var firstWord, lastWord := first / 64, (last - 1) / 64;
    var low := if s == firstWord / 64 then firstWord % 64 else 0;
    var high := if s == lastWord / 64 && lastWord % 64 != 63 then lastWord % 64 + 1 else 64;
    var words: nat := Masked(summary[s], low, high);
    MaskedFits(summary[s], low, high);
    forall b | 0 <= b < 64
      ensures Bit(words, b) ==> firstWord <= s * 64 + b <= lastWord
      ensures firstWord <= s * 64 + b <= lastWord && !Bit(words, b) ==> WordTaken(free, s * 64 + b, first, last)
    {
      MaskedSummary(free, summary, s, first, last, b, low, high);
    }
    while words != 0
      invariant words < Pow2(64)
      invariant forall b :: 0 <= b < 64 && Bit(words, b) ==> firstWord <= s * 64 + b <= lastWord
      invariant forall b :: 0 <= b < 64 && !Bit(words, b) && firstWord <= s * 64 + b <= lastWord ==>
                WordTaken(free, s * 64 + b, first, last)
      decreases words
    {
      var b := TrailingZeros(words);
      TrailingZerosIsLowest(words, 64);
      var found := ScanWord(free, s * 64 + b, first, last);
      if found.Some? {
        LowerWordsTaken(free, s, first, last, words, found.value);
        return found;
      }
      forall k | 0 <= k < 64
        ensures Bit(And(words, words - 1), k) == (Bit(words, k) && k != b)
      {
        BitAfterClearLowest(words, k);
      }
      AndShrinks(words, words - 1);
      ghost var scanned := words;
      words := And(words, words - 1);
      assert forall k :: 0 <= k < 64 ==> Bit(words, k) == (Bit(scanned, k) && k != b);
    }
    forall w | s * 64 <= w < (s + 1) * 64 && firstWord <= w <= lastWord && w < |free|
      ensures WordTaken(free, w, first, last)
    {
      BitOfZero(w - s * 64);
      assert w == s * 64 + (w - s * 64);
    }
    r := None;
  }

  lemma {:induction false} MaskedSummary(free: seq<nat>, summary: seq<nat>, s: nat, first: nat, last: nat, b: nat,
                                         low: nat, high: nat)
    requires Summarised(free, summary) && s < |summary| && b < 64
    requires first < last <= 64 * |free|
    requires first / 64 / 64 <= s <= (last - 1) / 64 / 64
    requires low == if s == first / 64 / 64 then first / 64 % 64 else 0
    requires high == if s == (last - 1) / 64 / 64 && (last - 1) / 64 % 64 != 63 then (last - 1) / 64 % 64 + 1 else 64
    ensures Bit(Masked(summary[s], low, high), b) ==> first / 64 <= s * 64 + b <= (last - 1) / 64
    ensures first / 64 <= s * 64 + b <= (last - 1) / 64 && !Bit(Masked(summary[s], low, high), b) ==>
            WordTaken(free, s * 64 + b, first, last)
  {
    BitOfMasked(summary[s], low, high, b);
    var w := s * 64 + b;
    assert w / 64 == s && w % 64 == b;
    assert low <= b < high <==> first / 64 <= w <= (last - 1) / 64;
    if first / 64 <= w <= (last - 1) / 64 && !Bit(summary[s], b) {
      assert !SummaryBit(summary, w);
      forall i | 0 <= i < 64
        ensures !Bit(free[w], i)
      {
        BitOfZero(i);
      }
    }
  }

  lemma {:induction false} LowerWordsTaken(free: seq<nat>, s: nat, first: nat, last: nat, words: nat, slot: nat)
    requires 0 < words < Pow2(64) && first < last <= 64 * |free|
    requires slot / 64 == s * 64 + TrailingZeros(words) && slot < last && slot / 64 < |free|
    requires forall b :: 0 <= b < 64 && !Bit(words, b) && first / 64 <= s * 64 + b <= (last - 1) / 64 ==>
             WordTaken(free, s * 64 + b, first, last)
    requires WordTaken(free, slot / 64, first, slot)
    ensures forall w :: s * 64 <= w < (s + 1) * 64 && first / 64 <= w <= (last - 1) / 64 && w < |free| ==>
            WordTaken(free, w, first, slot)
    ensures slot / 64 / 64 == s
  {
    TrailingZerosIsLowest(words, 64);
    forall w | s * 64 <= w < (s + 1) * 64 && first / 64 <= w <= (last - 1) / 64 && w < |free|
      ensures WordTaken(free, w, first, slot)
    {
      var b := w - s * 64;
      if b < TrailingZeros(words) {
        assert !Bit(words, b);
        assert WordTaken(free, s * 64 + b, first, last);
      }
    }
  }

  /** The lowest free slot in `first..last`, or none exactly when the range has none. */
  method FindFreeSlot(free: seq<nat>, summary: seq<nat>, first: nat, last: nat) returns (r: Option<nat>)
    requires Summarised(free, summary) && first <= last <= 64 * |free|
    ensures r.Some? ==> first <= r.value < last && IsFree(free, r.value) && NoneFree(free, first, r.value)
    ensures r.None? ==> NoneFree(free, first, last)
  {
    hide WordTaken, IsFree;
    if first == last {
      return None;
    }
    var firstWord, lastWord := first / 64, (last - 1) / 64;
    for s := firstWord / 64 to lastWord / 64 + 1
      invariant forall w :: firstWord <= w < s * 64 && w <= lastWord && w < |free| ==> WordTaken(free, w, first, last)
    {
      var found := ScanSummary(free, summary, s, first, last);
      if found.Some? {
        forall slot | first <= slot < found.value
          ensures !IsFree(free, slot)
        {
          var w := slot / 64;
          if w < s * 64 {
            WordTakenSlot(free, slot, first, last);
          } else {
            WordTakenSlot(free, slot, first, found.value);
          }
        }
        return found;
      }
    }
    forall slot | first <= slot < last
      ensures !IsFree(free, slot)
    {
      assert firstWord <= slot / 64 <= lastWord && slot / 64 < (lastWord / 64 + 1) * 64;
      WordTakenSlot(free, slot, first, last);
    }
    r := None;
  }

  // --- Updates ----------------------------------------------------------------

  function WithBit(words: seq<nat>, index: nat): seq<nat>
    requires index / 64 < |words|
  {
    words[index / 64 := Or(words[index / 64], Pow2(index % 64))]
  }

  function WithoutBit(words: seq<nat>, index: nat): seq<nat>
    requires index / 64 < |words|
  {
    Pow2Strict(index % 64);
    words[index / 64 := And(words[index / 64], Pow2(64) - 1 - Pow2(index % 64))]
  }

  lemma {:induction false} Pow2Strict(k: nat)
    requires k < 64
    ensures Pow2(k) < Pow2(64)
  {
    Pow2Monotone(k, 63);
  }

  /** Setting one bit of a word array sets that index and no other. */
  lemma WithBitSets(words: seq<nat>, index: nat, other: nat)
    requires WordsFit(words) && index / 64 < |words|
    ensures WordsFit(WithBit(words, index))
    ensures IsFree(WithBit(words, index), other) <==> IsFree(words, other) || other == index
  {
    hide Or, Bit, Pow2;
    Pow2Strict(index % 64);
    OrFits(words[index / 64], Pow2(index % 64), 64);
    if other / 64 == index / 64 {
      BitOr(words[index / 64], Pow2(index % 64), other % 64);
      BitOfOne(index % 64, other % 64);
    }
  }

  lemma WithoutBitClears(words: seq<nat>, index: nat, other: nat)
    requires WordsFit(words) && index / 64 < |words|
    ensures WordsFit(WithoutBit(words, index))
    ensures IsFree(WithoutBit(words, index), other) <==> IsFree(words, other) && other != index
  {
    hide And, Bit, Pow2;
    Pow2Strict(index % 64);
    AndShrinks(words[index / 64], Pow2(64) - 1 - Pow2(index % 64));
    if other / 64 == index / 64 {
      BitAnd(words[index / 64], Pow2(64) - 1 - Pow2(index % 64), other % 64);
      BitOfComplement(Pow2(index % 64), 64, other % 64);
      BitOfOne(index % 64, other % 64);
    }
  }

  /** Summary after a slot becomes free. */
  function SummaryWith(summary: seq<nat>, slot: nat): seq<nat>
    requires slot / 64 / 64 < |summary|
  {
    WithBit(summary, slot / 64)
  }

  /** Summary after a slot is taken: its bit goes only when the word emptied. */
  function SummaryWithout(free: seq<nat>, summary: seq<nat>, slot: nat): seq<nat>
    requires slot / 64 < |free| && slot / 64 / 64 < |summary|
  {
    if free[slot / 64] == 0 then WithoutBit(summary, slot / 64) else summary
  }

  lemma SetFreeSummarised(free: seq<nat>, summary: seq<nat>, slot: nat)
    requires Summarised(free, summary) && slot / 64 < |free|
    ensures Summarised(WithBit(free, slot), SummaryWith(summary, slot))
  {
    hide Bit, Or, Pow2;
    var free', summary' := WithBit(free, slot), SummaryWith(summary, slot);
    WithBitSets(free, slot, slot);
    WithBitSets(summary, slot / 64, 0);
    BitOfZero(slot % 64);
    forall w | 0 <= w < |free'|
      ensures SummaryBit(summary', w) <==> free'[w] != 0
    {
      WithBitSets(summary, slot / 64, w);
      assert SummaryBit(summary', w) == IsFree(summary', w) && SummaryBit(summary, w) == IsFree(summary, w);
    }
  }

  lemma ClearFreeSummarised(free: seq<nat>, summary: seq<nat>, slot: nat)
    requires Summarised(free, summary) && slot / 64 < |free| && IsFree(free, slot)
    ensures Summarised(WithoutBit(free, slot), SummaryWithout(WithoutBit(free, slot), summary, slot))
  {
    hide Bit, And, Pow2;
    var free' := WithoutBit(free, slot);
    var summary' := SummaryWithout(free', summary, slot);
    WithoutBitClears(free, slot, slot);
    BitOfZero(slot % 64);
    forall w | 0 <= w < |free'|
      ensures SummaryBit(summary', w) <==> free'[w] != 0
    {
      WithoutBitClears(summary, slot / 64, w);
      assert SummaryBit(summary', w) == IsFree(summary', w) && SummaryBit(summary, w) == IsFree(summary, w);
    }
    WithoutBitClears(summary, slot / 64, 0);
  }

  // --- Counting ---------------------------------------------------------------

  /** Free slots below `n`, one by one. */
  function FreeBelow(free: seq<nat>, n: nat): nat {
    if n == 0 then 0 else FreeBelow(free, n - 1) + (if IsFree(free, n - 1) then 1 else 0)
  }

  function OnesBelow(word: nat, n: nat): nat {
    if n == 0 then 0 else OnesBelow(word, n - 1) + (if Bit(word, n - 1) then 1 else 0)
  }

  function Available(free: seq<nat>): nat {
    if free == [] then 0 else Available(free[..|free| - 1]) + CountOnes(free[|free| - 1])
  }

  lemma {:induction false} OnesBelowShift(word: nat, n: nat)
    ensures OnesBelow(word, n + 1) == word % 2 + OnesBelow(word / 2, n)
  {
    if n > 0 {
      OnesBelowShift(word, n - 1);
    }
  }

  lemma {:induction false} CountOnesCounts(word: nat, n: nat)
    requires word < Pow2(n)
    ensures CountOnes(word) == OnesBelow(word, n)
  {
    if n > 0 {
      CountOnesCounts(word / 2, n - 1);
      OnesBelowShift(word, n - 1);
      if word == 0 {
        assert word / 2 == 0;
      }
    }
  }

  lemma {:induction false} FreeBelowWord(free: seq<nat>, w: nat, n: nat)
    requires w < |free| && n <= 64
    ensures FreeBelow(free, w * 64 + n) == FreeBelow(free, w * 64) + OnesBelow(free[w], n)
  {
    if n > 0 {
      FreeBelowWord(free, w, n - 1);
      FreeSlotAt(free, w, n - 1);
    }
  }

  lemma {:induction false} FreeBelowAgrees(left: seq<nat>, right: seq<nat>, n: nat)
    requires |left| <= |right| && n <= 64 * |left| && left == right[..|left|]
    ensures FreeBelow(left, n) == FreeBelow(right, n)
  {
    if n > 0 {
      FreeBelowAgrees(left, right, n - 1);
    }
  }

  /** Population counts of the words add up to the number of free slots. */
  lemma {:induction false} AvailableCounts(free: seq<nat>)
    requires WordsFit(free)
    ensures Available(free) == FreeBelow(free, 64 * |free|)
  {
    hide Pow2, CountOnes, OnesBelow;
    if free != [] {
      var front, w := free[..|free| - 1], |free| - 1;
      AvailableCounts(front);
      FreeBelowAgrees(front, free, 64 * w);
      CountOnesCounts(free[w], 64);
      FreeBelowWord(free, w, 64);
      assert w * 64 + 64 == 64 * |free|;
    }
  }
}
