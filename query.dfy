/** `query_wait_time`: the read-back query over the last hour of points,
    optionally narrowed to one branch and one service. Only the request is
    modelled; issuing it and logging the response are not. */
module Query {
  import opened Wrappers
  import Publisher

  /** One `field="value"` term of a Monitoring filter. */
  datatype Clause = Clause(field: string, value: string)

  function RenderClause(c: Clause): string
  {
    c.field + "=\"" + c.value + "\""
  }

  /** The clauses joined with " AND ". */
  function Render(cs: seq<Clause>): string
    requires |cs| >= 1
    decreases |cs|
  {
    if |cs| == 1 then RenderClause(cs[0]) else RenderClause(cs[0]) + " AND " + Render(cs[1..])
  }

  /** Appending a clause appends " AND " and its rendering. */
  lemma {:induction false} RenderAppend(cs: seq<Clause>, c: Clause)
    requires |cs| >= 1
    ensures Render(cs + [c]) == Render(cs) + " AND " + RenderClause(c)
    decreases |cs|
  {
    if |cs| == 1 {
      assert (cs + [c])[1..] == [c];
    } else {
      assert (cs + [c])[1..] == cs[1..] + [c];
      RenderAppend(cs[1..], c);
    }
  }

  /** The clauses every query has: the global resource and the wait-time metric. */
  const BaseClauses: seq<Clause> :=
    [Clause("resource.type", "global"), Clause("metric.type", Publisher.MetricType)]

  /** The clauses of the query for an optional branch and service. */
  function FilterClauses(branch: Option<string>, service: Option<string>): (cs: seq<Clause>)
    ensures |cs| >= 2 && cs[..2] == BaseClauses
    ensures |cs| == 2 + (if branch.Some? then 1 else 0) + (if service.Some? then 1 else 0)
  {
    BaseClauses
      + (if branch.Some? then [Clause("metric.label.branch", branch.value)] else [])
      + (if service.Some? then [Clause("metric.label.service", service.value)] else [])
  }

  /** The filter always starts with the two base clauses; the branch clause
      is present exactly when a branch is given and the service clause
      exactly when a service is given, and the service clause comes last. */
  lemma FilterClausesShape(branch: Option<string>, service: Option<string>)
    ensures var cs := FilterClauses(branch, service);
      && cs[..2] == BaseClauses
      && |cs| == 2 + (if branch.Some? then 1 else 0) + (if service.Some? then 1 else 0)
      && (forall b :: Clause("metric.label.branch", b) in cs <==> branch == Some(b))
      && (forall v :: Clause("metric.label.service", v) in cs <==> service == Some(v))
      && (service.Some? ==> cs[|cs| - 1] == Clause("metric.label.service", service.value))
  {
    var cs := FilterClauses(branch, service);
    forall b ensures Clause("metric.label.branch", b) in cs <==> branch == Some(b) {
      if Clause("metric.label.branch", b) in cs {
        var k :| 0 <= k < |cs| && cs[k] == Clause("metric.label.branch", b);
      }
    }
    forall v ensures Clause("metric.label.service", v) in cs <==> service == Some(v) {
      if Clause("metric.label.service", v) in cs {
        var k :| 0 <= k < |cs| && cs[k] == Clause("metric.label.service", v);
      }
    }
  }

  /** The filter string with the base clauses only. */
  const BaseFilter: string := "resource.type=\"global\"" + " AND metric.type=\"" + Publisher.MetricType + "\""

  /** The filter string the source builds by formatting the base clause and
      appending a label clause for each argument that is not None. It is the
      rendering of FilterClauses, and always starts with the base clauses. */
  function QueryFilter(branch: Option<string>, service: Option<string>): (f: string)
    ensures f == Render(FilterClauses(branch, service))
    ensures BaseFilter <= f
  {
    BaseRendering();
    var withBranch :=
      if branch.Some? then
        BranchClauseText(BaseFilter, branch.value);
        RenderAppend(BaseClauses, Clause("metric.label.branch", branch.value));
        BaseFilter + " AND metric.label.branch=\"" + branch.value + "\""
      else BaseFilter;
    assert FilterClauses(branch, None) == BaseClauses + (if branch.Some? then [Clause("metric.label.branch", branch.value)] else []);
    if service.Some? then
      ServiceClauseText(withBranch, service.value);
      RenderAppend(FilterClauses(branch, None), Clause("metric.label.service", service.value));
      withBranch + " AND metric.label.service=\"" + service.value + "\""
    else
      assert FilterClauses(branch, service) == FilterClauses(branch, None);
      withBranch
  }

  lemma BaseRendering()
    ensures Render(BaseClauses) == BaseFilter
  {
    assert BaseClauses[1..] == [BaseClauses[1]];
    var resource, lit, field := "resource.type=\"global\"", " AND metric.type=\"", "metric.type";
    assert resource == RenderClause(BaseClauses[0]);
    assert lit == " AND " + field + "=\"";
    ClauseGlue(resource, lit, field, Publisher.MetricType);
  }

  /** Text formatted as `prefix` + `lit` + value + quote, where `lit` is
      " AND " and a field name and "=\"" run together, is `prefix`, " AND "
      and the rendered clause. */
  lemma ClauseGlue(prefix: string, lit: string, field: string, value: string)
    requires lit == " AND " + field + "=\""
    ensures prefix + lit + value + "\"" == prefix + " AND " + RenderClause(Clause(field, value))
  {
  }

  /** The source's branch clause text is " AND " followed by the clause. */
  lemma BranchClauseText(prefix: string, value: string)
    ensures prefix + " AND metric.label.branch=\"" + value + "\""
         == prefix + " AND " + RenderClause(Clause("metric.label.branch", value))
  {
    var lit, field := " AND metric.label.branch=\"", "metric.label.branch";
    assert lit == " AND " + field + "=\"";
    ClauseGlue(prefix, lit, field, value);
  }

  /** The source's service clause text is " AND " followed by the clause. */
  lemma ServiceClauseText(prefix: string, value: string)
    ensures prefix + " AND metric.label.service=\"" + value + "\""
         == prefix + " AND " + RenderClause(Clause("metric.label.service", value))
  {
    var lit, field := " AND metric.label.service=\"", "metric.label.service";
    assert lit == " AND " + field + "=\"";
    ClauseGlue(prefix, lit, field, value);
  }

  /** A time interval in seconds since the epoch; the source renders both
      ends as RFC 3339 text. */
  datatype Interval = Interval(startTime: int, endTime: int)

  /** The trailing one-hour window ending now. */
  function QueryInterval(now: int): (iv: Interval)
    ensures iv.endTime == now
    ensures iv.endTime - iv.startTime == 3600
  {
    Interval(now - 60 * 60, now)
  }

  /** A `timeSeries().list` request. */
  datatype ListRequest = ListRequest(name: string, filter: string, interval: Interval)

  /** The request `query_wait_time` issues at time `now`. */
  function QueryWaitTime(projectId: string, branch: Option<string>, service: Option<string>, now: int): (r: ListRequest)
    ensures r.name == "projects/" + projectId
    ensures r.filter == Render(FilterClauses(branch, service))
    ensures r.interval.endTime == now && r.interval.endTime - r.interval.startTime == 3600
  {
    ListRequest("projects/" + projectId, QueryFilter(branch, service), QueryInterval(now))
  }
}
