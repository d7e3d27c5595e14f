/** Division by ten with shifts and a final correction: misc/div/div_16_10.c and misc/div/div_8_10.c. */
module ShiftDiv {
  import opened Words

  /** The seven-term estimate of i/10: shifts 3, -5, 8, 9, 11, -13, 16. */
  function Estimate16(i: Word): Word {
    Wrap(i / 8 - i / 32 + i / 256 + i / 512 + i / 2048 - i / 8192 + i / 65536)
  }

  /** The three-term estimate of i/10: shifts 4, 5, 7. */
  function Estimate8(i: Word): Word {
    Wrap(i / 16 + i / 32 + i / 128)
  }

  /** Ten times an estimate, computed as (s << 3) + (s << 1) in 32 bits. */
  function TimesTen(s: Word): Word {
    Wrap(Wrap(s * 8) + Wrap(s * 2))
  }

  /** The estimate is moved by what its error is worth, in 32 bits. */
  function Corrected(i: Word, s: Word): Word {
    var approx := TimesTen(s);
    if approx > i then Wrap(s - (approx - i - 1) / 10 - 1)
    else if approx < i then Wrap(s + (i - approx) / 10)
    else s
  }

  /** The correction repairs any estimate whose tenfold fits in a word, and no other:
      once ten times the estimate wraps around, the result is wrong. */
  lemma CorrectionExactIff(i: Word, s: Word)
    requires 10 * s < 2 * WORD && 10 * s <= i + WORD
    ensures Corrected(i, s) == i / 10 <==> 10 * s < WORD
  {
    if 10 * s < WORD {
      TimesTenIs(s, 0);
      hide TimesTen;
      CorrectionExact(i, s);
    } else {
      TimesTenIs(s, 1);
      hide TimesTen;
      CorrectionWrong(i, s);
    }
  }

  /** Ten times an estimate, when it wraps around `times` times. */
  lemma TimesTenIs(s: Word, times: nat)
    requires times <= 1 && 0 <= 10 * s - times * WORD < WORD
    ensures TimesTen(s) == 10 * s - times * WORD
  {
    hide Wrap;
    WrapSum(s * 8, Wrap(s * 2));
    WrapSum(s * 8, s * 2);
    assert Wrap(10 * s) == 10 * s - times * WORD by {
      WrapOnce(10 * s, times);
    }
  }

  lemma WrapOnce(x: nat, times: nat)
    requires times <= 1 && 0 <= x - times * WORD < WORD
    ensures Wrap(x) == x - times * WORD
  {
  }

  lemma CorrectionExact(i: Word, s: Word)
    requires 10 * s < WORD && TimesTen(s) == 10 * s
    ensures Corrected(i, s) == i / 10
  {
    hide TimesTen;
  }

  lemma CorrectionWrong(i: Word, s: Word)
    requires WORD <= 10 * s <= i + WORD && TimesTen(s) == 10 * s - WORD
    ensures Corrected(i, s) != i / 10
  {
    hide TimesTen;
    var e := i - TimesTen(s);
    assert i / 10 < s + e / 10 < WORD;
  }

  /** How far the seven-term estimate can be off, in both directions; it never leaves the word range. */
  lemma Estimate16Bounds(i: Word)
    ensures 10 * Estimate16(i) - i < 20
    ensures (i - 10 * Estimate16(i)) * 65536 < 6 * i + 50 * 65536
    ensures 10 * Estimate16(i) < WORD
  {
    hide Wrap;
    var s := i / 8 - i / 32 + i / 256 + i / 512 + i / 2048 - i / 8192 + i / 65536;
    assert 0 <= s <= i;
    assert Wrap(s) == s by { WrapSame(s); }
    assert 10 * s - i < 20;
    assert (i - 10 * s) * 65536 < 6 * i + 50 * 65536;
    assert 10 * s < WORD;
  }

  /** The seven-term division is exact on every 32-bit argument. */
  lemma Division16Exact(i: Word)
    ensures Corrected(i, Estimate16(i)) == i / 10
  {
    Estimate16Bounds(i);
    CorrectionExactIff(i, Estimate16(i));
  }

  lemma Estimate8Bounds(i: Word)
    ensures (10 * Estimate8(i) - i) * 64 <= i
    ensures i - 10 * Estimate8(i) < 30
  {
    hide Wrap;
    var s := i / 16 + i / 32 + i / 128;
    assert 0 <= s <= i;
    WrapSame(s);
    assert (10 * s - i) * 64 <= i;
    assert i - 10 * s < 30;
  }

  /** The three-term division is exact exactly while ten times its estimate fits in a word. */
  lemma Division8ExactIff(i: Word)
    ensures Corrected(i, Estimate8(i)) == i / 10 <==> 10 * Estimate8(i) < WORD
  {
    Estimate8Bounds(i);
    CorrectionExactIff(i, Estimate8(i));
  }

  function Over(i: Word, s: Word): nat {
    if TimesTen(s) > i then TimesTen(s) - i else 0
  }

  function Under(i: Word, s: Word): nat {
    if TimesTen(s) < i then i - TimesTen(s) else 0
  }

  /** The experiment both programs run: every argument up to `limit`, counting wrong quotients and
      keeping the worst error of the estimate in each direction. */
  method Survey(estimate: Word -> Word, limit: Word) returns (maxUnder: nat, maxOver: nat, wrong: nat)
    requires limit + 1 < WORD
    ensures wrong == 0 <==> forall i: Word :: i <= limit ==> Corrected(i, estimate(i)) == i / 10
    ensures forall i: Word :: i <= limit ==> Over(i, estimate(i)) <= maxOver && Under(i, estimate(i)) <= maxUnder
    ensures exists i: Word :: i <= limit && Over(i, estimate(i)) == maxOver
    ensures exists i: Word :: i <= limit && Under(i, estimate(i)) == maxUnder
  {
    hide Corrected, TimesTen;
    maxUnder, maxOver, wrong := 0, 0, 0;
    var i: Word := 0;
    ghost var worstOver: Word, worstUnder: Word := 0, 0;
    while i <= limit
      invariant i <= limit + 1
      invariant wrong == 0 <==> forall j: Word :: j < i ==> Corrected(j, estimate(j)) == j / 10
      invariant forall j: Word :: j < i ==> Over(j, estimate(j)) <= maxOver && Under(j, estimate(j)) <= maxUnder
      invariant i == 0 ==> maxOver == maxUnder == 0 && worstOver == worstUnder == 0
      invariant i > 0 ==> worstOver < i && Over(worstOver, estimate(worstOver)) == maxOver
      invariant i > 0 ==> worstUnder < i && Under(worstUnder, estimate(worstUnder)) == maxUnder
    {
      var s := estimate(i);
      var approx := TimesTen(s);
      if approx > i {
        var diff := approx - i;
        assert diff == Over(i, s);
        if diff > maxOver {
          maxOver, worstOver := diff, i;
        }
      } else if approx < i {
        var diff := i - approx;
        assert diff == Under(i, s);
        if diff > maxUnder {
          maxUnder, worstUnder := diff, i;
        }
      }
      if Corrected(i, s) != i / 10 {
        wrong := wrong + 1;
      }
      i := i + 1;
    }
  }

  /** The seven-term program over its range reports nothing and stays within the bounds above. */
  method Survey16() returns (maxUnder: nat, maxOver: nat, wrong: nat)
    ensures wrong == 0 && maxOver < 20 && maxUnder * 65536 < 6 * (65535 * 10000) + 50 * 65536
  {
    hide Corrected, Over, Under, Estimate16, Estimate8;
    var limit := 65535 * 10000;
    maxUnder, maxOver, wrong := Survey(Estimate16, limit);
    forall i: Word | i <= limit
      ensures Corrected(i, Estimate16(i)) == i / 10
    {
      Division16Exact(i);
    }
    ghost var over: Word :| over <= limit && Over(over, Estimate16(over)) == maxOver;
    ghost var under: Word :| under <= limit && Under(under, Estimate16(under)) == maxUnder;
    Errors16(over);
    Errors16(under);
  }

  lemma Errors16(i: Word)
    ensures Over(i, Estimate16(i)) < 20 && Under(i, Estimate16(i)) * 65536 < 6 * i + 50 * 65536
  {
    Estimate16Bounds(i);
    ErrorsOf(i, Estimate16(i));
    hide Estimate16, Over, Under, TimesTen;
  }

  lemma ErrorsOf(i: Word, s: Word)
    requires 10 * s < WORD
    ensures Over(i, s) == (if 10 * s > i then 10 * s - i else 0)
    ensures Under(i, s) == (if 10 * s < i then i - 10 * s else 0)
  {
    TimesTenIs(s, 0);
    hide TimesTen;
  }

  /** The three-term program over its range reports nothing either. */
  method Survey8() returns (maxUnder: nat, maxOver: nat, wrong: nat)
    ensures wrong == 0 && maxUnder < 30 && maxOver * 64 <= 65535 * 1000
  {
    hide Corrected, Over, Under, Estimate16, Estimate8;
    var limit := 65535 * 1000;
    maxUnder, maxOver, wrong := Survey(Estimate8, limit);
    forall i: Word | i <= limit
      ensures Corrected(i, Estimate8(i)) == i / 10
    {
      Errors8(i);
    }
    ghost var over: Word :| over <= limit && Over(over, Estimate8(over)) == maxOver;
    ghost var under: Word :| under <= limit && Under(under, Estimate8(under)) == maxUnder;
    Errors8(over);
    Errors8(under);
  }

  lemma Errors8(i: Word)
    requires i <= 65535 * 1000
    ensures Corrected(i, Estimate8(i)) == i / 10
    ensures Over(i, Estimate8(i)) * 64 <= i && Under(i, Estimate8(i)) < 30
  {
    Estimate8Bounds(i);
    SmallEstimate(i, Estimate8(i));
    Division8ExactIff(i);
    ErrorsOf(i, Estimate8(i));
    hide Corrected, Estimate8, Over, Under, TimesTen;
  }

  lemma SmallEstimate(i: Word, s: Word)
    requires i <= 65535 * 1000 && (10 * s - i) * 64 <= i
    ensures 10 * s < WORD
  {
  }
}
