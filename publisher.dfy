/** Publication of a snapshot: `write_ma_rmv_wait_times` issues one
    time-series write per branch and service, and `write_data_point` builds
    each request body. The monitoring client is not modelled: a write is the
    request record it would send, and the backend's answer is given as the
    set of request bodies it rejects with an HTTP error. */
module Publisher {
  import opened Wrappers
  import opened Feed

  /** The custom metric every point is written to. */
  const MetricType: string := "custom.googleapis.com/ma_rmv_wait_time"

  /** The services written for every branch, in the order they are written. */
  const Services: seq<string> := ["licensing", "registration"]

  /** An RFC 3339 timestamp, kept as opaque text. */
  type Timestamp = string

  /** Metric labels map to Python values that are strings or None. */
  datatype Metric = Metric(metricType: string, labels: map<string, Option<string>>)
  datatype Resource = Resource(resourceType: string, labels: map<string, string>)
  datatype Point = Point(endTime: Timestamp, doubleValue: Value)
  datatype TimeSeries = TimeSeries(metric: Metric, resource: Resource, points: seq<Point>)

  /** The body of a `timeSeries().create` request. */
  datatype WriteBody = WriteBody(timeSeries: seq<TimeSeries>)

  /** One issued `timeSeries().create` request and whether it raised. */
  datatype WriteCall = WriteCall(name: string, body: WriteBody, failed: bool)

  /** What one write says: project, branch, service, time and wait time. */
  datatype DataPoint = DataPoint(
    projectId: string, branch: ElementText, service: string, timestamp: Timestamp, waitTime: Value)

  /** Reads the data point back from a body that has the shape of a single
      wait-time write: one series of the wait-time metric labelled exactly
      by branch and service, on the global resource labelled exactly by
      project, with one point. Any other body reads as None. */
  function ReadBack(body: WriteBody): Option<DataPoint>
  {
    if |body.timeSeries| != 1 then None
    else
      var ts := body.timeSeries[0];
      if && ts.metric.metricType == MetricType
         && ts.metric.labels.Keys == {"branch", "service"}
         && ts.metric.labels["service"].Some?
         && ts.resource.resourceType == "global"
         && ts.resource.labels.Keys == {"project_id"}
         && |ts.points| == 1
      then Some(DataPoint(ts.resource.labels["project_id"], ts.metric.labels["branch"],
                          ts.metric.labels["service"].value, ts.points[0].endTime,
                          ts.points[0].doubleValue))
      else None
  }

  /** The request body `write_data_point` builds: it reads back as exactly
      the point it was built from. */
  function DataPointBody(projectId: string, branch: ElementText, service: string,
                         timestamp: Timestamp, waitTime: Value): (body: WriteBody)
    ensures ReadBack(body) == Some(DataPoint(projectId, branch, service, timestamp, waitTime))
  {
    var labels := map["branch" := branch, "service" := Some(service)];
    var resourceLabels := map["project_id" := projectId];
    assert labels.Keys == {"branch", "service"};
    assert resourceLabels.Keys == {"project_id"};
    WriteBody([TimeSeries(
      Metric(MetricType, labels),
      Resource("global", resourceLabels),
      [Point(timestamp, waitTime)])])
  }

  /** Conversely, a body that reads back as a data point is exactly the body
      built for it: one series, one point, no other labels. */
  lemma ReadBackExact(body: WriteBody)
    requires ReadBack(body).Some?
    ensures var p := ReadBack(body).value;
      body == DataPointBody(p.projectId, p.branch, p.service, p.timestamp, p.waitTime)
  {
    var p := ReadBack(body).value;
    var ts := body.timeSeries[0];
    assert ts.metric.labels == map["branch" := p.branch, "service" := Some(p.service)];
    assert ts.resource.labels == map["project_id" := p.projectId];
    assert ts.points == [Point(p.timestamp, p.waitTime)];
    assert body.timeSeries == [ts];
  }

  /** `write_data_point`: the request it issues, marked failed when the
      backend rejects it. The error is caught, so the caller carries on. The
      write goes to the project's time series, carries exactly the given
      point, and fails exactly when the backend rejects its body. */
  function WriteDataPoint(projectId: string, branch: ElementText, service: string,
                          timestamp: Timestamp, waitTime: Value, rejected: set<WriteBody>): (c: WriteCall)
    ensures c.name == "projects/" + projectId
    ensures ReadBack(c.body) == Some(DataPoint(projectId, branch, service, timestamp, waitTime))
    ensures c.failed <==> c.body in rejected
  {
    var body := DataPointBody(projectId, branch, service, timestamp, waitTime);
    WriteCall("projects/" + projectId, body, body in rejected)
  }

  /** `branch_info[service]` raising KeyError, which aborts the publication. */
  datatype PublishError = MissingService(branch: ElementText, service: string)

  /** The writes issued and the error that stopped them, if any. */
  datatype Publication = Publication(calls: seq<WriteCall>, error: Option<PublishError>)

  /** The writes for one branch and the given services, all present in its record. */
  function ServiceCalls(projectId: string, branch: ElementText, info: Record, services: seq<string>,
                        timestamp: Timestamp, rejected: set<WriteBody>): (r: seq<WriteCall>)
    requires forall k :: 0 <= k < |services| ==> services[k] in info
    ensures |r| == |services|
  {
    seq(|services|, k requires 0 <= k < |services| =>
      WriteDataPoint(projectId, branch, services[k], timestamp, info[services[k]], rejected))
  }

  /** The position of the first service missing from a record (the length
      of the list when none is missing). */
  function FirstMissing(info: Record, services: seq<string>): (m: nat)
    ensures m <= |services|
    ensures forall k :: 0 <= k < m ==> services[k] in info
    ensures m < |services| ==> services[m] !in info
  {
    if |services| == 0 || services[0] !in info then 0 else 1 + FirstMissing(info, services[1..])
  }

  /** The inner loop for one branch: a write per service until the first
      service the record lacks, whose lookup raises. */
  function BranchPublication(projectId: string, branch: ElementText, info: Record,
                             timestamp: Timestamp, rejected: set<WriteBody>): (p: Publication)
    ensures |p.calls| <= |Services|
    ensures forall k {:trigger p.calls[k]} :: 0 <= k < |p.calls| ==>
      Services[k] in info
      && p.calls[k] == WriteDataPoint(projectId, branch, Services[k], timestamp, info[Services[k]], rejected)
    ensures p.error.None? <==> "licensing" in info && "registration" in info
    ensures p.error.Some? ==>
      |p.calls| < |Services| && p.error.value == MissingService(branch, Services[|p.calls|])
      && Services[|p.calls|] !in info
  {
    var m := FirstMissing(info, Services);
    assert Services[0] == "licensing" && Services[1] == "registration";
    Publication(ServiceCalls(projectId, branch, info, Services[..m], timestamp, rejected),
                if m < |Services| then Some(MissingService(branch, Services[m])) else None)
  }

  /** The writes the outer loop issues for the branches in the given order,
      stopping at the first error. */
  function Publish(order: seq<ElementText>, projectId: string, waitTimes: Snapshot,
                   timestamp: Timestamp, rejected: set<WriteBody>): (p: Publication)
    requires forall k :: 0 <= k < |order| ==> order[k] in waitTimes
    ensures |p.calls| <= |Services| * |order|
    ensures p.error.Some? ==>
      p.error.value.branch in order && p.error.value.service !in waitTimes[p.error.value.branch]
    decreases |order|
  {
    if |order| == 0 then Publication([], None)
    else
      var prev := Publish(order[..|order| - 1], projectId, waitTimes, timestamp, rejected);
      var branch := order[|order| - 1];
      if prev.error.Some? then prev
      else
        var b := BranchPublication(projectId, branch, waitTimes[branch], timestamp, rejected);
        Publication(prev.calls + b.calls, b.error)
  }

  /** The inner loop of `write_ma_rmv_wait_times` for one branch: a write
      per service, in order, until the record lacks a service. */
  method WriteBranch(projectId: string, branch: ElementText, branchInfo: Record,
                     timestamp: Timestamp, rejected: set<WriteBody>)
    returns (calls: seq<WriteCall>, error: Option<PublishError>)
    ensures Publication(calls, error) == BranchPublication(projectId, branch, branchInfo, timestamp, rejected)
  {
    calls, error := [], None;
    for j := 0 to |Services|
      invariant forall k :: 0 <= k < j ==> Services[k] in branchInfo
      invariant calls == ServiceCalls(projectId, branch, branchInfo, Services[..j], timestamp, rejected)
    {
      var service := Services[j];
      if service !in branchInfo {
        error := Some(MissingService(branch, service));
        assert FirstMissing(branchInfo, Services) == j;
        return;
      }
      calls := calls + [WriteDataPoint(projectId, branch, service, timestamp, branchInfo[service], rejected)];
      assert Services[..j + 1] == Services[..j] + [service];
    }
    assert FirstMissing(branchInfo, Services) == |Services|;
    assert Services[..|Services|] == Services;
  }

  /** `write_ma_rmv_wait_times`: for every branch of the snapshot, in the
      dictionary's iteration order (returned as `order`), and for each
      service, issue one write carrying that branch's value for the service
      and the shared timestamp. A rejected write does not stop the loop; a
      record lacking a service does. */
  method WriteWaitTimes(projectId: string, waitTimes: Snapshot, timestamp: Timestamp, rejected: set<WriteBody>)
    returns (order: seq<ElementText>, calls: seq<WriteCall>, error: Option<PublishError>)
    ensures forall k :: 0 <= k < |order| ==> order[k] in waitTimes
    ensures forall i, j :: 0 <= i < j < |order| ==> order[i] != order[j]
    ensures error.None? ==> forall b :: b in waitTimes ==> b in order
    ensures Publish(order, projectId, waitTimes, timestamp, rejected) == Publication(calls, error)
  {
    var remaining := waitTimes.Keys;
    order, calls, error := [], [], None;
    while remaining != {}
      invariant remaining <= waitTimes.Keys
      invariant forall k :: 0 <= k < |order| ==> order[k] in waitTimes && order[k] !in remaining
      invariant forall i, j :: 0 <= i < j < |order| ==> order[i] != order[j]
      invariant forall b :: b in waitTimes && b !in remaining ==> b in order
      invariant error.None?
      invariant Publish(order, projectId, waitTimes, timestamp, rejected) == Publication(calls, None)
      decreases remaining
    {
      var branch :| branch in remaining;
      remaining := remaining - {branch};
      ghost var before := order;
      order := order + [branch];
      assert order[..|order| - 1] == before;
      var branchCalls, branchError := WriteBranch(projectId, branch, waitTimes[branch], timestamp, rejected);
      calls := calls + branchCalls;
      if branchError.Some? {
        error := branchError;
        return;
      }
    }
  }
}
