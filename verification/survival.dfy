/**
 * Which rows survive the fold, stated without the fold: the accepted rows that
 * are the first of their UTC day, in input order.
 */
module Survival {
  import opened Rows

  // ---------------------------------------------------------------------------
  // Which rows survive
  // ---------------------------------------------------------------------------

  lemma StepSeen(acc: Acc, o: Outcome, d: int)
    ensures d in Step(acc, o).seen <==> d in acc.seen || AcceptedOn(o, d)
  {
  }

  lemma StepOut(acc: Acc, o: Outcome)
    ensures Step(acc, o).out
         == acc.out + (if o.Accept? && DayOf(o.record) !in acc.seen then [o.record] else [])
  {
  }

  /** The `seen` set of the fold holds the days of all accepted rows. */
  lemma {:induction false} FoldSeenAllAcceptedDays(os: seq<Outcome>)
    ensures forall d :: d in Fold(os).seen <==> exists i | 0 <= i < |os| :: AcceptedOn(os[i], d)
  {
    if os != [] {
      var n := |os| - 1;
      var pre := os[..n];
      FoldSeenAllAcceptedDays(pre);
      forall d
        ensures d in Fold(os).seen <==> exists i | 0 <= i < |os| :: AcceptedOn(os[i], d)
      {
        assert Fold(os) == Step(Fold(pre), os[n]);
        StepSeen(Fold(pre), os[n], d);
        if exists i | 0 <= i < |os| :: AcceptedOn(os[i], d) {
          var i :| 0 <= i < |os| && AcceptedOn(os[i], d);
          if i < n {
            assert pre[i] == os[i];
          }
        }
        if exists i | 0 <= i < n :: AcceptedOn(pre[i], d) {
          var i :| 0 <= i < n && AcceptedOn(pre[i], d);
          assert pre[i] == os[i];
        }
      }
    }
  }

  /** An accepted last row is kept exactly when its day is not yet in `seen`. */
  lemma FirstIsUnseen(os: seq<Outcome>)
    requires os != [] && os[|os| - 1].Accept?
    ensures FirstOfDay(os, |os| - 1) <==> DayOf(os[|os| - 1].record) !in Fold(os[..|os| - 1]).seen
  {
    var n := |os| - 1;
    var pre := os[..n];
    var d := DayOf(os[n].record);
    FoldSeenAllAcceptedDays(pre);
    if d in Fold(pre).seen {
      var j :| 0 <= j < n && AcceptedOn(pre[j], d);
      assert pre[j] == os[j];
    } else {
      forall j | 0 <= j < n ensures !AcceptedOn(os[j], d) {
        assert pre[j] == os[j];
      }
    }
  }

  lemma KeptRowsStep(os: seq<Outcome>)
    requires os != []
    ensures KeptRows(os) == KeptRows(os[..|os| - 1]) + (if FirstOfDay(os, |os| - 1) then [|os| - 1] else [])
  {
  }

  lemma PickedPrefix(os: seq<Outcome>, n: nat, idx: seq<nat>)
    requires n <= |os|
    requires forall k | 0 <= k < |idx| :: idx[k] < n && os[idx[k]].Accept?
    ensures forall k | 0 <= k < |idx| :: os[..n][idx[k]].Accept?
    ensures Picked(os[..n], idx) == Picked(os, idx)
  {
  }

  lemma PickedAppend(os: seq<Outcome>, idx: seq<nat>, n: nat)
    requires forall k | 0 <= k < |idx| :: idx[k] < |os| && os[idx[k]].Accept?
    requires n < |os| && os[n].Accept?
    ensures Picked(os, idx + [n]) == Picked(os, idx) + [os[n].record]
  {
  }

  /** The inductive step when the last row is the first of its day: it is appended. */
  lemma KeptExtendFirst(os: seq<Outcome>)
    requires os != [] && FirstOfDay(os, |os| - 1)
    requires Fold(os[..|os| - 1]).out == Picked(os[..|os| - 1], KeptRows(os[..|os| - 1]))
    ensures Fold(os).out == Picked(os, KeptRows(os))
  {
    var n := |os| - 1;
    var pre := os[..n];
    var acc := Fold(pre);
    var idx := KeptRows(pre);
    assert Fold(os) == Step(acc, os[n]);
    StepOut(acc, os[n]);
    PickedPrefix(os, n, idx);
    KeptRowsStep(os);
    FirstIsUnseen(os);
    PickedAppend(os, idx, n);
  }

  /** A row that is not the first of its day leaves the fold's state alone. */
  lemma NotFirstIgnored(os: seq<Outcome>)
    requires os != [] && !FirstOfDay(os, |os| - 1)
    ensures Fold(os) == Fold(os[..|os| - 1])
  {
    var n := |os| - 1;
    if os[n].Accept? {
      FirstIsUnseen(os);
    }
    assert Fold(os) == Step(Fold(os[..n]), os[n]);
  }

  /** The inductive step when the last row is not kept: nothing changes. */
  lemma KeptExtendOther(os: seq<Outcome>)
    requires os != [] && !FirstOfDay(os, |os| - 1)
    requires Fold(os[..|os| - 1]).out == Picked(os[..|os| - 1], KeptRows(os[..|os| - 1]))
    ensures Fold(os).out == Picked(os, KeptRows(os))
  {
    var n := |os| - 1;
    var idx := KeptRows(os[..n]);
    NotFirstIgnored(os);
    assert KeptRows(os) == idx by {
      KeptRowsStep(os);
      assert idx + [] == idx;
    }
    PickedPrefix(os, n, idx);
  }

  /** The fold keeps exactly the first accepted row of each UTC day, in input order. */
  lemma {:induction false} FoldKeepsFirstOfEachDay(os: seq<Outcome>)
    ensures Fold(os).out == Picked(os, KeptRows(os))
  {
    if os != [] {
      FoldKeepsFirstOfEachDay(os[..|os| - 1]);
      if FirstOfDay(os, |os| - 1) {
        KeptExtendFirst(os);
      } else {
        KeptExtendOther(os);
      }
    }
  }

  // ---------------------------------------------------------------------------
  // Consequences
  // ---------------------------------------------------------------------------

  /** Every accepted row's UTC day appears among the records. */
  lemma EveryAcceptedDayKept(os: seq<Outcome>, i: nat)
    requires i < |os| && os[i].Accept?
    ensures exists k | 0 <= k < |Fold(os).out| :: DayOf(Fold(os).out[k]) == DayOf(os[i].record)
  {
    var d := DayOf(os[i].record);
    FoldConsistent(os);
    FoldSeenAllAcceptedDays(os);
    assert AcceptedOn(os[i], d);
    assert d in Fold(os).seen;
  }

  /** A skipped row never influences the result. */
  lemma RejectedRowIgnored(os: seq<Outcome>, o: Outcome)
    requires o.Reject?
    ensures Fold(os + [o]) == Fold(os)
  {
    assert (os + [o])[..|os|] == os;
  }

  /** A row accepted on a day some earlier row was accepted on never influences the result. */
  lemma RepeatedDayIgnored(os: seq<Outcome>, o: Outcome, i: nat)
    requires o.Accept? && i < |os| && AcceptedOn(os[i], DayOf(o.record))
    ensures Fold(os + [o]) == Fold(os)
  {
    assert (os + [o])[..|os|] == os;
    FoldSeenAllAcceptedDays(os);
  }

  /** The records are drawn from the accepted rows, so whatever every accepted
      record satisfies, every kept record satisfies. */
  lemma FoldRecordsWellFormed(os: seq<Outcome>)
    requires forall i | 0 <= i < |os| && os[i].Accept? :: WellFormed(os[i].record)
    ensures forall k | 0 <= k < |Fold(os).out| :: WellFormed(Fold(os).out[k])
  {
    FoldKeepsFirstOfEachDay(os);
    var idx := KeptRows(os);
    forall k | 0 <= k < |Fold(os).out| ensures WellFormed(Fold(os).out[k]) {
      assert Fold(os).out[k] == os[idx[k]].record;
    }
  }

  /** The fold produces no record exactly when no row was accepted. */
  lemma FoldEmptyIffNoneAccepted(os: seq<Outcome>)
    ensures Fold(os).out == [] <==> forall i | 0 <= i < |os| :: os[i].Reject?
  {
    FoldKeepsFirstOfEachDay(os);
    if exists i | 0 <= i < |os| :: os[i].Accept? {
      var i :| 0 <= i < |os| && os[i].Accept?;
      EveryAcceptedDayKept(os, i);
    }
  }
}
