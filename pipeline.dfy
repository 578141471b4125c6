/** One run of the script end to end, minus the I/O: the parsed feed is
    turned into a snapshot and the snapshot is published. */
module Pipeline {
  import opened Wrappers
  import opened Text
  import opened WaitTime
  import opened Feed
  import opened FeedProperties
  import opened Publisher
  import opened PublisherProperties

  /** The branch has a licensing child and a registration child. */
  predicate ReportsBothServices(b: Branch)
  {
    "licensing" in Tags(b) && "registration" in Tags(b)
  }

  /** The write carries a non-negative number of minutes rather than raw text. */
  predicate WritesMinutes(c: WriteCall)
  {
    && ReadBack(c.body).Some?
    && ReadBack(c.body).value.waitTime.Wait?
    && ReadBack(c.body).value.waitTime.minutes >= 0.0
  }

  /** Every record of a snapshot parsed from such a feed holds both services,
      each as a non-negative number of minutes. */
  lemma SnapshotServices(bs: seq<Branch>)
    requires SnapshotOf(bs).Success?
    requires forall j :: 0 <= j < |bs| ==> ReportsBothServices(bs[j])
    ensures forall t :: t in SnapshotOf(bs).value ==>
      && "licensing" in SnapshotOf(bs).value[t]
      && "registration" in SnapshotOf(bs).value[t]
      && SnapshotOf(bs).value[t]["licensing"].Wait?
      && SnapshotOf(bs).value[t]["licensing"].minutes >= 0.0
      && SnapshotOf(bs).value[t]["registration"].Wait?
      && SnapshotOf(bs).value[t]["registration"].minutes >= 0.0
  {
    var s: Snapshot := SnapshotOf(bs).value;
    forall t | t in s
      ensures "licensing" in s[t] && "registration" in s[t]
      ensures s[t]["licensing"].Wait? && s[t]["licensing"].minutes >= 0.0
      ensures s[t]["registration"].Wait? && s[t]["registration"].minutes >= 0.0
    {
      SnapshotRecordFromBranch(bs, t);
      var j :| 0 <= j < |bs| && RecordOf(bs[j]) == Success(s[t]);
      RecordKeys(bs[j]);
      RecordTimedValues(bs[j]);
      assert ReportsBothServices(bs[j]);
    }
  }

  /** Publishing a snapshot parsed from a feed whose every branch reports
      both services issues two writes per branch, in whatever order the
      snapshot is walked, and every write carries a non-negative number of
      minutes. */
  lemma FeedPublication(bs: seq<Branch>, order: seq<ElementText>, projectId: string,
                        timestamp: Timestamp, rejected: set<WriteBody>)
    requires SnapshotOf(bs).Success?
    requires forall j :: 0 <= j < |bs| ==> ReportsBothServices(bs[j])
    requires Keyed(order, SnapshotOf(bs).value)
    ensures var p := Publish(order, projectId, SnapshotOf(bs).value, timestamp, rejected);
      && p.error.None?
      && |p.calls| == 2 * |order|
      && forall k :: 0 <= k < |p.calls| ==> WritesMinutes(p.calls[k])
  {
    var s: Snapshot := SnapshotOf(bs).value;
    SnapshotServices(bs);
    assert HasBothServices(order, s);
    PublishLength(order, projectId, s, timestamp, rejected);
    var p := Publish(order, projectId, s, timestamp, rejected);
    forall k | 0 <= k < |p.calls|
      ensures WritesMinutes(p.calls[k])
    {
      var i := k / 2;
      PublishWrites(order, i, projectId, s, timestamp, rejected);
      if k % 2 == 0 {
        assert k == 2 * i;
      } else {
        assert k == 2 * i + 1;
      }
    }
  }

  /** The feed of one branch, Boston, with a fifteen-minute wait for
      licensing and registration closed. */
  const BostonFeed: seq<Branch> := [[
    Child("town", Some("Boston")),
    Child("licensing", Some("0:15:00")),
    Child("registration", Some("Closed"))]]

  /** "0:15:00" is fifteen minutes. */
  lemma FifteenMinutes()
    ensures ParseWaitTime("0:15:00") == Success(15.0)
  {
    FifteenMinutesText("0:15:00");
  }

  /** The proof of `FifteenMinutes`, on a string only known to equal the literal. */
  lemma FifteenMinutesText(t: string)
    requires t == "0:15:00"
    ensures ParseWaitTime(t) == Success(15.0)
  {
    var h, m, s := "0", "15", "00";
    assert DigitsValue(h) == 0 && DigitsValue(m) == 15 && DigitsValue(s) == 0;
    DecimalOfDigits(s);
    ParseFields(h, m, s);
    assert h + ":" + m + ":" + s == t;
  }

  /** The record the Boston branch should parse to. */
  const BostonRecord: Record :=
    map["town" := Raw(Some("Boston")), "licensing" := Wait(15.0), "registration" := Wait(0.0)]

  /** The Boston branch parsed child by child: first the town, then the
      licensing wait, then the closed registration. */
  lemma BostonTown()
    ensures RecordOf(BostonFeed[0][..1]) == Success(map["town" := Raw(Some("Boston"))])
  {
    var b := BostonFeed[0];
    assert b[..1][..0] == [];
    assert b[..1][0] == Child("town", Some("Boston"));
    assert !IsTimed("town");
  }

  lemma BostonLicensing()
    ensures RecordOf(BostonFeed[0][..2])
         == Success(map["town" := Raw(Some("Boston")), "licensing" := Wait(15.0)])
  {
    var b := BostonFeed[0];
    BostonTown();
    FifteenMinutes();
    assert b[..2][..1] == b[..1];
    assert b[..2][1] == Child("licensing", Some("0:15:00"));
  }

  lemma BostonRecordParses()
    ensures RecordOf(BostonFeed[0]) == Success(BostonRecord)
  {
    var b := BostonFeed[0];
    BostonLicensing();
    assert b[..2] == b[..|b| - 1];
    assert b[2] == Child("registration", Some("Closed"));
    assert IsToken("Closed");
  }

  /** The Boston feed parses to one entry, and publishing it issues exactly
      two writes: licensing at 15 minutes, then registration at 0. */
  lemma BostonExample(projectId: string, timestamp: Timestamp, rejected: set<WriteBody>)
    ensures SnapshotOf(BostonFeed) == Success(map[Some("Boston") := BostonRecord])
    ensures Publish([Some("Boston")], projectId, SnapshotOf(BostonFeed).value, timestamp, rejected)
         == Publication([WriteDataPoint(projectId, Some("Boston"), "licensing", timestamp, Wait(15.0), rejected),
                         WriteDataPoint(projectId, Some("Boston"), "registration", timestamp, Wait(0.0), rejected)],
                        None)
  {
    BostonRecordParses();
    assert "town" in BostonRecord && BostonRecord["town"].text == Some("Boston");
    assert BostonFeed[..0] == [];
    var s: Snapshot := map[Some("Boston") := BostonRecord];
    assert "licensing" in BostonRecord && "registration" in BostonRecord;
    PublishStep([Some("Boston")], projectId, s, timestamp, rejected);
  }
}
