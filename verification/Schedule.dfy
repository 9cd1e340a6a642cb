/** When rounds are open and when they execute. Times and durations are in nanoseconds; they are unbounded here, that
    is, no sum overflows 64 bits. */
module Schedule {

  datatype RoundConfig = RoundConfig(genesis: int, epochDuration: int, phaseShift: int, cycleGap: int)
  {
    function RoundStart(epoch: nat): int {
      genesis + phaseShift + epochDuration * epoch
    }

    function RoundEnd(epoch: nat): int {
      RoundStart(epoch) + epochDuration + -cycleGap
    }

    function OpenRoundId(when: int): nat
      requires epochDuration > 0
    {
      var sinceGenesis := when - genesis;
      if sinceGenesis < phaseShift then 0 else (sinceGenesis - phaseShift) / epochDuration + 1
    }

    /** The first round starts after the phase shift, and every other one an epoch after the one before it. */
    lemma RoundsAreEvenlySpaced(epoch: nat)
      ensures RoundStart(0) == genesis + phaseShift && RoundStart(epoch + 1) == RoundStart(epoch) + epochDuration
      ensures RoundEnd(epoch) == RoundStart(epoch + 1) - cycleGap
    {
      assert epochDuration * (epoch + 1) == epochDuration * epoch + epochDuration;
    }

    lemma {:induction false} StartsAreOrdered(a: nat, b: nat)
      requires epochDuration > 0 && a < b
      ensures RoundStart(a) + epochDuration <= RoundStart(b)
      decreases b
    {
      assert epochDuration * b == epochDuration * (b - 1) + epochDuration;
      if a + 1 < b {
        StartsAreOrdered(a, b - 1);
      }
    }

    /** The open round is the first one that has not started. */
    lemma OpenRoundIsNextToStart(when: int, epoch: nat)
      requires epochDuration > 0
      ensures RoundStart(epoch) > when <==> epoch >= OpenRoundId(when)
    {
      var open := OpenRoundId(when);
      if when - genesis >= phaseShift {
        var past := when - genesis - phaseShift;
        assert past == past / epochDuration * epochDuration + past % epochDuration;
        assert RoundStart(open - 1) == genesis + phaseShift + past / epochDuration * epochDuration;
        assert RoundStart(open) == RoundStart(open - 1) + epochDuration;
        if epoch > open {
          StartsAreOrdered(open, epoch);
        } else if epoch < open - 1 {
          StartsAreOrdered(epoch, open - 1);
        }
      } else {
        assert epochDuration * epoch >= 0;
      }
    }

    lemma OpenRoundIsMonotone(t: int, t': int)
      requires epochDuration > 0 && t <= t'
      ensures OpenRoundId(t) <= OpenRoundId(t')
    {
      OpenRoundIsNextToStart(t', OpenRoundId(t'));
      OpenRoundIsNextToStart(t, OpenRoundId(t'));
    }

    /** A round that closes at or after its start makes way for a later one. */
    lemma ClosingMovesOn(now: int, epoch: nat)
      requires epochDuration > 0 && now >= RoundStart(epoch)
      ensures OpenRoundId(now) > epoch
    {
      OpenRoundIsNextToStart(now, epoch);
    }

    /** Executions of different epochs do not overlap, and leave the gap between them, exactly if the gap is not
        negative. */
    lemma ExecutionsDoNotOverlap()
      requires epochDuration > 0
      ensures cycleGap >= 0 <==> forall a: nat, b: nat | a < b :: RoundEnd(a) <= RoundStart(b)
      ensures forall a: nat :: RoundStart(a + 1) - RoundEnd(a) == cycleGap
    {
      forall a: nat
        ensures RoundStart(a + 1) - RoundEnd(a) == cycleGap
      {
        assert epochDuration * (a + 1) == epochDuration * a + epochDuration;
      }
      if cycleGap >= 0 {
        forall a: nat, b: nat | a < b
          ensures RoundEnd(a) <= RoundStart(b)
        {
          StartsAreOrdered(a, b);
        }
      } else {
        assert RoundEnd(0) > RoundStart(0 + 1);
      }
    }
  }
}
