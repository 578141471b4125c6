/** What the snapshot-building loops promise, stated on the specification
    functions of module Feed. */
module FeedProperties {
  import opened Wrappers
  import opened Feed

  /** Child `j` is the last child carrying its tag. */
  predicate LastWithTag(cs: Branch, j: int)
    requires 0 <= j < |cs|
  {
    forall k :: j < k < |cs| ==> cs[k].tag != cs[j].tag
  }

  /** A branch record is built exactly when every child converts. */
  lemma {:induction false} RecordSucceeds(cs: Branch)
    ensures RecordOf(cs).Success? <==> forall j :: 0 <= j < |cs| ==> ConvertChild(cs[j]).Success?
    decreases |cs|
  {
    if |cs| > 0 {
      var pre := cs[..|cs| - 1];
      RecordSucceeds(pre);
      assert forall j :: 0 <= j < |pre| ==> pre[j] == cs[j];
    }
  }

  /** The error reported for a branch is that of its first failing child. */
  lemma RecordFirstError(cs: Branch, j: nat)
    requires j < |cs| && ConvertChild(cs[j]).Failure?
    requires forall k :: 0 <= k < j ==> ConvertChild(cs[k]).Success?
    ensures RecordOf(cs) == Failure(ConvertChild(cs[j]).error)
  {
    var pre, upto := cs[..j], cs[..j + 1];
    assert RecordOf(pre).Success? by {
      assert forall k :: 0 <= k < |pre| ==> pre[k] == cs[k];
      RecordSucceeds(pre);
    }
    assert RecordOf(upto) == Failure(ConvertChild(cs[j]).error) by {
      assert upto[..|upto| - 1] == pre && upto[|upto| - 1] == cs[j];
    }
    RecordFailurePersists(cs, j + 1);
  }

  /** The distinct tags among the children. */
  function Tags(cs: Branch): set<string>
  {
    set j | 0 <= j < |cs| :: cs[j].tag
  }

  lemma TagsStep(cs: Branch)
    requires |cs| > 0
    ensures Tags(cs) == Tags(cs[..|cs| - 1]) + {cs[|cs| - 1].tag}
  {
    var pre := cs[..|cs| - 1];
    forall t | t in Tags(cs)
      ensures t in Tags(pre) + {cs[|cs| - 1].tag}
    {
      var j :| 0 <= j < |cs| && cs[j].tag == t;
      if j < |pre| {
        assert pre[j].tag == t;
      }
    }
    forall t | t in Tags(pre)
      ensures t in Tags(cs)
    {
      var j :| 0 <= j < |pre| && pre[j].tag == t;
      assert cs[j].tag == t;
    }
  }

  /** A record has exactly one entry per distinct tag among the children. */
  lemma {:induction false} RecordKeys(cs: Branch)
    requires RecordOf(cs).Success?
    ensures RecordOf(cs).value.Keys == Tags(cs)
    decreases |cs|
  {
    if |cs| > 0 {
      RecordKeys(cs[..|cs| - 1]);
      TagsStep(cs);
    }
  }

  /** A repeated tag keeps the converted value of its last child. */
  lemma {:induction false} RecordLastWins(cs: Branch)
    requires RecordOf(cs).Success?
    ensures forall j :: 0 <= j < |cs| && LastWithTag(cs, j) ==>
      cs[j].tag in RecordOf(cs).value && ConvertChild(cs[j]) == Success(RecordOf(cs).value[cs[j].tag])
    decreases |cs|
  {
    if |cs| > 0 {
      var n := |cs| - 1;
      var pre := cs[..n];
      var m := RecordOf(cs).value;
      RecordLastWins(pre);
      assert m == RecordOf(pre).value[cs[n].tag := ConvertChild(cs[n]).value];
      forall j | 0 <= j < |cs| && LastWithTag(cs, j)
        ensures cs[j].tag in m && ConvertChild(cs[j]) == Success(m[cs[j].tag])
      {
        if j < n {
          assert cs[n].tag != cs[j].tag;
          assert pre[j] == cs[j];
          assert LastWithTag(pre, j);
          RecordKeys(pre);
          assert cs[j].tag in Tags(pre);
        }
      }
    }
  }

  /** The text of a branch's last `town` child, if it has one. */
  function LastTown(cs: Branch): Option<ElementText>
    decreases |cs|
  {
    if |cs| == 0 then None
    else if cs[|cs| - 1].tag == "town" then Some(cs[|cs| - 1].text)
    else LastTown(cs[..|cs| - 1])
  }

  /** `branch_info['town']` exists exactly when the branch has a town child,
      and holds the raw text of the last one. */
  lemma {:induction false} RecordTown(cs: Branch)
    requires RecordOf(cs).Success?
    ensures "town" in RecordOf(cs).value <==> LastTown(cs).Some?
    ensures LastTown(cs).Some? ==> RecordOf(cs).value["town"] == Raw(LastTown(cs).value)
    decreases |cs|
  {
    if |cs| > 0 {
      RecordTown(cs[..|cs| - 1]);
    }
  }

  /** What goes wrong with one branch element, if anything. */
  function BranchError(b: Branch): Option<FeedError>
  {
    if RecordOf(b).Failure? then Some(RecordOf(b).error)
    else if LastTown(b).None? then Some(MissingTown)
    else None
  }

  /** Every branch converts and names its town. */
  predicate AllBranchesValid(bs: seq<Branch>)
  {
    forall j :: 0 <= j < |bs| ==> BranchError(bs[j]).None?
  }

  lemma AllBranchesValidStep(bs: seq<Branch>)
    requires |bs| > 0
    ensures AllBranchesValid(bs) <==>
      AllBranchesValid(bs[..|bs| - 1]) && BranchError(bs[|bs| - 1]).None?
  {
    var pre := bs[..|bs| - 1];
    if AllBranchesValid(pre) && BranchError(bs[|bs| - 1]).None? {
      forall j | 0 <= j < |bs|
        ensures BranchError(bs[j]).None?
      {
        if j < |pre| {
          assert pre[j] == bs[j];
        }
      }
    }
    if AllBranchesValid(bs) {
      forall j | 0 <= j < |pre|
        ensures BranchError(pre[j]).None?
      {
        assert pre[j] == bs[j];
      }
    }
  }

  /** The parse succeeds exactly when every branch converts and names its town. */
  lemma {:induction false} SnapshotSucceeds(bs: seq<Branch>)
    ensures SnapshotOf(bs).Success? <==> AllBranchesValid(bs)
    decreases |bs|
  {
    if |bs| > 0 {
      var pre, last := bs[..|bs| - 1], bs[|bs| - 1];
      SnapshotSucceeds(pre);
      AllBranchesValidStep(bs);
      if RecordOf(last).Success? {
        RecordTown(last);
      }
    }
  }

  /** The parse reports the error of the first faulty branch: a branch with no
      town child fails the whole parse with MissingTown instead of producing
      an entry. */
  lemma SnapshotFirstError(bs: seq<Branch>, j: nat)
    requires j < |bs| && BranchError(bs[j]).Some?
    requires forall k :: 0 <= k < j ==> BranchError(bs[k]).None?
    ensures SnapshotOf(bs) == Failure(BranchError(bs[j]).value)
  {
    var pre, upto := bs[..j], bs[..j + 1];
    assert SnapshotOf(pre).Success? by {
      assert forall k :: 0 <= k < |pre| ==> pre[k] == bs[k];
      SnapshotSucceeds(pre);
    }
    assert SnapshotOf(upto) == Failure(BranchError(bs[j]).value) by {
      assert upto[..|upto| - 1] == pre && upto[|upto| - 1] == bs[j];
      if RecordOf(bs[j]).Success? {
        RecordTown(bs[j]);
      }
    }
    SnapshotFailurePersists(bs, j + 1);
  }

  /** Branch `j` is the last branch naming its town. */
  predicate LastWithTown(bs: seq<Branch>, j: int)
    requires 0 <= j < |bs|
  {
    forall k :: j < k < |bs| ==> LastTown(bs[k]) != LastTown(bs[j])
  }

  /** The towns the branches name (every branch names one in a successful parse). */
  function Towns(bs: seq<Branch>): set<ElementText>
  {
    set j | 0 <= j < |bs| && LastTown(bs[j]).Some? :: LastTown(bs[j]).value
  }

  lemma TownsStep(bs: seq<Branch>)
    requires |bs| > 0 && LastTown(bs[|bs| - 1]).Some?
    ensures Towns(bs) == Towns(bs[..|bs| - 1]) + {LastTown(bs[|bs| - 1]).value}
  {
    var pre := bs[..|bs| - 1];
    forall t | t in Towns(bs)
      ensures t in Towns(pre) + {LastTown(bs[|bs| - 1]).value}
    {
      var j :| 0 <= j < |bs| && LastTown(bs[j]).Some? && LastTown(bs[j]).value == t;
      if j < |pre| {
        assert pre[j] == bs[j];
      }
    }
    forall t | t in Towns(pre)
      ensures t in Towns(bs)
    {
      var j :| 0 <= j < |pre| && LastTown(pre[j]).Some? && LastTown(pre[j]).value == t;
      assert bs[j] == pre[j];
    }
  }

  /** The snapshot has exactly one key per distinct town text. */
  lemma {:induction false} SnapshotKeys(bs: seq<Branch>)
    requires SnapshotOf(bs).Success?
    ensures SnapshotOf(bs).value.Keys == Towns(bs)
    decreases |bs|
  {
    if |bs| > 0 {
      var n := |bs| - 1;
      SnapshotKeys(bs[..n]);
      RecordTown(bs[n]);
      TownsStep(bs);
    }
  }

  /** One step of the outer loop: the last branch's record goes under its town. */
  lemma SnapshotStep(bs: seq<Branch>)
    requires |bs| > 0 && SnapshotOf(bs).Success?
    ensures SnapshotOf(bs[..|bs| - 1]).Success?
    ensures RecordOf(bs[|bs| - 1]).Success? && LastTown(bs[|bs| - 1]).Some?
    ensures SnapshotOf(bs).value
         == SnapshotOf(bs[..|bs| - 1]).value[LastTown(bs[|bs| - 1]).value := RecordOf(bs[|bs| - 1]).value]
  {
    RecordTown(bs[|bs| - 1]);
  }

  /** In a successful parse every branch converts and names its town. */
  lemma SnapshotBranchesValid(bs: seq<Branch>)
    requires SnapshotOf(bs).Success?
    ensures forall j :: 0 <= j < |bs| ==> LastTown(bs[j]).Some? && RecordOf(bs[j]).Success?
  {
    SnapshotSucceeds(bs);
    forall j | 0 <= j < |bs|
      ensures LastTown(bs[j]).Some? && RecordOf(bs[j]).Success?
    {
      assert BranchError(bs[j]).None?;
    }
  }

  /** Under each town the snapshot holds the record of the last branch naming
      that town: a later branch replaces an earlier one. */
  lemma {:induction false} SnapshotLastWins(bs: seq<Branch>, j: nat)
    requires SnapshotOf(bs).Success? && j < |bs| && LastWithTown(bs, j)
    ensures LastTown(bs[j]).Some? && RecordOf(bs[j]).Success?
    ensures LastTown(bs[j]).value in SnapshotOf(bs).value
    ensures SnapshotOf(bs).value[LastTown(bs[j]).value] == RecordOf(bs[j]).value
    decreases |bs|
  {
    var n := |bs| - 1;
    SnapshotStep(bs);
    if j < n {
      var pre := bs[..n];
      assert pre[j] == bs[j];
      assert LastWithTown(pre, j) by {
        forall k | j < k < n
          ensures LastTown(pre[k]) != LastTown(pre[j])
        {
          assert pre[k] == bs[k];
        }
      }
      SnapshotLastWins(pre, j);
      assert LastTown(bs[n]) != LastTown(bs[j]);
    }
  }

  /** In a record, each timed attribute holds a non-negative number of minutes. */
  lemma {:induction false} RecordTimedValues(cs: Branch)
    requires RecordOf(cs).Success?
    ensures forall tag :: tag in RecordOf(cs).value && IsTimed(tag) ==>
      RecordOf(cs).value[tag].Wait? && RecordOf(cs).value[tag].minutes >= 0.0
    decreases |cs|
  {
    if |cs| > 0 {
      RecordTimedValues(cs[..|cs| - 1]);
    }
  }

  /** Every record in the snapshot is the record of one of the branches. */
  lemma {:induction false} SnapshotRecordFromBranch(bs: seq<Branch>, t: ElementText)
    requires SnapshotOf(bs).Success? && t in SnapshotOf(bs).value
    ensures exists j :: 0 <= j < |bs| && RecordOf(bs[j]) == Success(SnapshotOf(bs).value[t])
    decreases |bs|
  {
    assert |bs| > 0;
    var n := |bs| - 1;
    SnapshotStep(bs);
    if t == LastTown(bs[n]).value {
      assert RecordOf(bs[n]) == Success(SnapshotOf(bs).value[t]);
    } else {
      var pre := bs[..n];
      SnapshotRecordFromBranch(pre, t);
      var j :| 0 <= j < |pre| && RecordOf(pre[j]) == Success(SnapshotOf(pre).value[t]);
      assert bs[j] == pre[j];
    }
  }
}
