/** What the publication loop promises, stated on the specification
    functions of module Publisher. */
module PublisherProperties {
  import opened Wrappers
  import opened Feed
  import opened Publisher

  /** Every branch in `order` is a key of the snapshot. */
  predicate Keyed(order: seq<ElementText>, waitTimes: Snapshot)
  {
    forall k :: 0 <= k < |order| ==> order[k] in waitTimes
  }

  /** Every branch in `order` has both services in its record. */
  predicate HasBothServices(order: seq<ElementText>, waitTimes: Snapshot)
    requires Keyed(order, waitTimes)
  {
    forall k :: 0 <= k < |order| ==>
      "licensing" in waitTimes[order[k]] && "registration" in waitTimes[order[k]]
  }

  /** A branch whose record has both services adds its licensing write and
      its registration write, in that order, and no error. */
  lemma PublishStep(order: seq<ElementText>, projectId: string, waitTimes: Snapshot,
                    timestamp: Timestamp, rejected: set<WriteBody>)
    requires Keyed(order, waitTimes) && |order| > 0
    requires Publish(order[..|order| - 1], projectId, waitTimes, timestamp, rejected).error.None?
    requires var info := waitTimes[order[|order| - 1]]; "licensing" in info && "registration" in info
    ensures var branch, info := order[|order| - 1], waitTimes[order[|order| - 1]];
      Publish(order, projectId, waitTimes, timestamp, rejected)
      == Publication(Publish(order[..|order| - 1], projectId, waitTimes, timestamp, rejected).calls
                       + [WriteDataPoint(projectId, branch, "licensing", timestamp, info["licensing"], rejected),
                          WriteDataPoint(projectId, branch, "registration", timestamp, info["registration"], rejected)],
                     None)
  {
    var info := waitTimes[order[|order| - 1]];
    assert FirstMissing(info, Services) == 2;
    assert Services[..2] == Services;
  }

  /** When every record has both services, publication issues two writes
      per branch and stops with no error. */
  lemma {:induction false} PublishLength(order: seq<ElementText>, projectId: string, waitTimes: Snapshot,
                                         timestamp: Timestamp, rejected: set<WriteBody>)
    requires Keyed(order, waitTimes) && HasBothServices(order, waitTimes)
    ensures var p := Publish(order, projectId, waitTimes, timestamp, rejected);
      p.error.None? && |p.calls| == 2 * |order|
    decreases |order|
  {
    if |order| > 0 {
      var pre := order[..|order| - 1];
      assert forall k :: 0 <= k < |pre| ==> pre[k] == order[k];
      PublishLength(pre, projectId, waitTimes, timestamp, rejected);
      PublishStep(order, projectId, waitTimes, timestamp, rejected);
    }
  }

  /** Write 2i is branch i's licensing value and write 2i+1 its registration
      value. */
  lemma PublishWrites(order: seq<ElementText>, i: nat, projectId: string, waitTimes: Snapshot,
                       timestamp: Timestamp, rejected: set<WriteBody>)
    requires Keyed(order, waitTimes) && HasBothServices(order, waitTimes) && i < |order|
    ensures var p := Publish(order, projectId, waitTimes, timestamp, rejected);
      && |p.calls| == 2 * |order|
      && p.calls[2 * i] == WriteDataPoint(projectId, order[i], "licensing", timestamp,
                                          waitTimes[order[i]]["licensing"], rejected)
      && p.calls[2 * i + 1] == WriteDataPoint(projectId, order[i], "registration", timestamp,
                                              waitTimes[order[i]]["registration"], rejected)
  {
    PublishLength(order, projectId, waitTimes, timestamp, rejected);
    var upto, pre := order[..i + 1], order[..i];
    assert upto[..i] == pre;
    assert forall k :: 0 <= k < i + 1 ==> upto[k] == order[k];
    PublishLength(pre, projectId, waitTimes, timestamp, rejected);
    PublishStep(upto, projectId, waitTimes, timestamp, rejected);
    PublishPrefix(order, i + 1, projectId, waitTimes, timestamp, rejected);
    PrefixAt(Publish(upto, projectId, waitTimes, timestamp, rejected).calls,
             Publish(order, projectId, waitTimes, timestamp, rejected).calls, 2 * i);
  }

  /** Publishing one more branch only appends writes. */
  lemma PublishExtends(order: seq<ElementText>, projectId: string, waitTimes: Snapshot,
                       timestamp: Timestamp, rejected: set<WriteBody>)
    requires Keyed(order, waitTimes) && |order| > 0
    ensures Publish(order[..|order| - 1], projectId, waitTimes, timestamp, rejected).calls
         <= Publish(order, projectId, waitTimes, timestamp, rejected).calls
  {
  }

  /** The writes for a prefix of the order are a prefix of the writes. */
  lemma {:induction false} PublishPrefix(order: seq<ElementText>, j: nat, projectId: string, waitTimes: Snapshot,
                                         timestamp: Timestamp, rejected: set<WriteBody>)
    requires Keyed(order, waitTimes) && j <= |order|
    ensures Publish(order[..j], projectId, waitTimes, timestamp, rejected).calls
         <= Publish(order, projectId, waitTimes, timestamp, rejected).calls
    decreases |order|
  {
    if j < |order| {
      var pre := order[..|order| - 1];
      assert pre[..j] == order[..j];
      assert forall k :: 0 <= k < |pre| ==> pre[k] == order[k];
      PublishPrefix(pre, j, projectId, waitTimes, timestamp, rejected);
      PublishExtends(order, projectId, waitTimes, timestamp, rejected);
    } else {
      assert order[..j] == order;
    }
  }

  /** A prefix of a list of writes agrees with it at two consecutive positions. */
  lemma PrefixAt(before: seq<WriteCall>, calls: seq<WriteCall>, k: nat)
    requires before <= calls && k + 1 < |before|
    ensures calls[k] == before[k] && calls[k + 1] == before[k + 1]
  {
    assert before == calls[..|before|];
  }

  /** When every record has both services, publication issues exactly two
      writes per branch: write 2i is branch i's licensing value and write
      2i+1 its registration value, all with the shared timestamp. */
  lemma PublishComplete(order: seq<ElementText>, projectId: string, waitTimes: Snapshot,
                        timestamp: Timestamp, rejected: set<WriteBody>)
    requires Keyed(order, waitTimes) && HasBothServices(order, waitTimes)
    ensures var p := Publish(order, projectId, waitTimes, timestamp, rejected);
      && p.error.None?
      && |p.calls| == 2 * |order|
      && (forall i :: 0 <= i < |order| ==>
           p.calls[2 * i] == WriteDataPoint(projectId, order[i], "licensing", timestamp,
                                            waitTimes[order[i]]["licensing"], rejected))
      && (forall i :: 0 <= i < |order| ==>
           p.calls[2 * i + 1] == WriteDataPoint(projectId, order[i], "registration", timestamp,
                                                waitTimes[order[i]]["registration"], rejected))
  {
    PublishLength(order, projectId, waitTimes, timestamp, rejected);
    forall i | 0 <= i < |order|
      ensures var p := Publish(order, projectId, waitTimes, timestamp, rejected);
        && p.calls[2 * i] == WriteDataPoint(projectId, order[i], "licensing", timestamp,
                                            waitTimes[order[i]]["licensing"], rejected)
        && p.calls[2 * i + 1] == WriteDataPoint(projectId, order[i], "registration", timestamp,
                                                waitTimes[order[i]]["registration"], rejected)
    {
      PublishWrites(order, i, projectId, waitTimes, timestamp, rejected);
    }
  }

  /** A branch lacking a service stops the publication there: the writes of
      every earlier branch are issued, then those of the failing branch up to
      the missing service, and nothing after. */
  lemma PublishStops(order: seq<ElementText>, i: nat, projectId: string, waitTimes: Snapshot,
                     timestamp: Timestamp, rejected: set<WriteBody>)
    requires Keyed(order, waitTimes) && i < |order|
    requires HasBothServices(order[..i], waitTimes)
    requires "licensing" !in waitTimes[order[i]] || "registration" !in waitTimes[order[i]]
    ensures var m := FirstMissing(waitTimes[order[i]], Services);
      && m < 2
      && Publish(order, projectId, waitTimes, timestamp, rejected)
         == Publication(Publish(order[..i], projectId, waitTimes, timestamp, rejected).calls
                          + ServiceCalls(projectId, order[i], waitTimes[order[i]], Services[..m], timestamp, rejected),
                        Some(MissingService(order[i], Services[m])))
  {
    var pre := order[..i];
    PublishComplete(pre, projectId, waitTimes, timestamp, rejected);
    assert order[..i + 1][..i] == pre;
    PublishErrorPersists(order, i + 1, projectId, waitTimes, timestamp, rejected);
  }

  /** Once a prefix of the branches stops with an error, so does the whole order. */
  lemma {:induction false} PublishErrorPersists(order: seq<ElementText>, i: nat, projectId: string,
                                                waitTimes: Snapshot, timestamp: Timestamp, rejected: set<WriteBody>)
    requires Keyed(order, waitTimes) && i <= |order|
    requires Publish(order[..i], projectId, waitTimes, timestamp, rejected).error.Some?
    ensures Publish(order, projectId, waitTimes, timestamp, rejected)
         == Publish(order[..i], projectId, waitTimes, timestamp, rejected)
    decreases |order| - i
  {
    if i < |order| {
      assert order[..i + 1][..i] == order[..i];
      PublishErrorPersists(order, i + 1, projectId, waitTimes, timestamp, rejected);
    } else {
      assert order[..i] == order;
    }
  }

  /** Two lists of writes issue the same requests in the same order, and
      the first marks a write failed exactly when `rejected` holds its body. */
  predicate SameRequests(c1: seq<WriteCall>, c2: seq<WriteCall>, rejected: set<WriteBody>)
  {
    && |c1| == |c2|
    && forall k :: 0 <= k < |c1| ==>
         c1[k].body == c2[k].body && c1[k].name == c2[k].name && (c1[k].failed <==> c1[k].body in rejected)
  }

  lemma SameRequestsAppend(c1: seq<WriteCall>, c2: seq<WriteCall>, d1: seq<WriteCall>, d2: seq<WriteCall>,
                           rejected: set<WriteBody>)
    requires SameRequests(c1, c2, rejected) && SameRequests(d1, d2, rejected)
    ensures SameRequests(c1 + d1, c2 + d2, rejected)
  {
    forall k | 0 <= k < |c1 + d1|
      ensures (c1 + d1)[k].body == (c2 + d2)[k].body && (c1 + d1)[k].name == (c2 + d2)[k].name
    {
      if k >= |c1| {
        assert (c1 + d1)[k] == d1[k - |c1|] && (c2 + d2)[k] == d2[k - |c2|];
      }
    }
  }

  /** One branch issues the same requests and stops the same way whatever
      the backend rejects. */
  lemma BranchIgnoresRejections(projectId: string, branch: ElementText, info: Record, timestamp: Timestamp,
                                rejected1: set<WriteBody>, rejected2: set<WriteBody>)
    ensures var b1 := BranchPublication(projectId, branch, info, timestamp, rejected1);
            var b2 := BranchPublication(projectId, branch, info, timestamp, rejected2);
      b1.error == b2.error && SameRequests(b1.calls, b2.calls, rejected1)
  {
  }

  /** A rejected write changes nothing but its own outcome: whatever the
      backend rejects, the same requests are issued and the same error, if
      any, stops them; a write is marked failed exactly when rejected. */
  lemma {:induction false} PublishIgnoresRejections(order: seq<ElementText>, projectId: string, waitTimes: Snapshot,
                                               timestamp: Timestamp, rejected1: set<WriteBody>, rejected2: set<WriteBody>)
    requires Keyed(order, waitTimes)
    ensures var p1 := Publish(order, projectId, waitTimes, timestamp, rejected1);
            var p2 := Publish(order, projectId, waitTimes, timestamp, rejected2);
      p1.error == p2.error && SameRequests(p1.calls, p2.calls, rejected1)
    decreases |order|
  {
    if |order| > 0 {
      var n := |order| - 1;
      var pre := order[..n];
      assert forall k :: 0 <= k < n ==> pre[k] == order[k];
      PublishIgnoresRejections(pre, projectId, waitTimes, timestamp, rejected1, rejected2);
      var q1 := Publish(pre, projectId, waitTimes, timestamp, rejected1);
      var q2 := Publish(pre, projectId, waitTimes, timestamp, rejected2);
      if q1.error.None? {
        var branch := order[n];
        var b1 := BranchPublication(projectId, branch, waitTimes[branch], timestamp, rejected1);
        var b2 := BranchPublication(projectId, branch, waitTimes[branch], timestamp, rejected2);
        BranchIgnoresRejections(projectId, branch, waitTimes[branch], timestamp, rejected1, rejected2);
        SameRequestsAppend(q1.calls, q2.calls, b1.calls, b2.calls, rejected1);
      }
    }
  }
}
