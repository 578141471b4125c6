# MA RMV wait-time metrics, modelled in Dafny

`ma_rmv_stats.py` polls the Massachusetts RMV branch wait-time feed. It turns
each branch's licensing and registration wait times into minutes and writes
one custom-metric point per branch and service to Google Cloud Monitoring. It
then queries the last hour of points back. This project models the part of
the script that computes things:

- **Wait-time parsing.** `parse_wait_time` is modelled in `wait_time.dfy`.
  The pieces of Python's `string.split`, `int()` and `float()` it relies on
  are in `text.dfy`.
- **Snapshot building.** The nested loops of `get_ma_rmv_wait_times` become
  `Feed.GetWaitTimes` in `feed.dfy`. They turn the list of branch elements
  into the `rmv_waits` map, keyed by town. The method is proved against the
  specification function `Feed.SnapshotOf`. `feed_properties.dfy` then states
  what that function guarantees: which inputs succeed, the first error wins,
  the keys are the towns, and the last branch or child with a given name wins.
- **Publication.** `write_data_point` builds one request body;
  `write_ma_rmv_wait_times` issues one write per branch and service. Both are
  in `publisher.dfy`. A write is the request it would send. The backend's
  answer is a parameter: the set of bodies it rejects. The loop walks the
  dictionary in an unspecified order. `Publisher.WriteWaitTimes` returns the
  order it used and is proved against `Publisher.Publish`.
  `publisher_properties.dfy` proves what publication issues, where it stops,
  and that rejected writes change nothing else.
- **Query.** The filter string and the one-hour interval of
  `query_wait_time` are in `query.dfy`.
- **End to end.** `pipeline.dfy` connects the two halves: a feed whose
  branches all report both services publishes two writes per branch, each
  carrying minutes. It also holds the one-branch Boston run as an example.

Each exception the script raises while parsing the feed or looking up a
service becomes a `Failure` or an error value:

- `None.split` on an empty timed element is `NoText`.
- `ValueError` or `IndexError` in `parse_wait_time` is `BadWaitTime`, with
  the field that failed. Errors follow Python's left-to-right evaluation
  order.
- `KeyError` on `branch_info['town']` is `MissingTown`. A branch without a
  `town` child raises `KeyError` at line 156, which aborts the whole parse;
  the model fails with `MissingTown` (`FeedProperties.SnapshotFirstError`).
- `KeyError` on `branch_info[service]` is `MissingService`.

Exceptions from the monitoring client other than `HttpError`, and the
`OverflowError` of a wait time beyond the float range, are not modelled;
see "## Left out".

## Model

| member | source | states |
|---|---|---|
| Text.Split | ma_rmv_stats.py:142 | `split(s, d)` yields one more field than there are delimiters, and no field contains the delimiter |
| Text.SplitJoin | ma_rmv_stats.py:142 | splitting the join of delimiter-free fields gives back exactly those fields |
| Text.JoinSplit | ma_rmv_stats.py:142 | joining the fields of a split gives back the original string, so split loses nothing |
| Text.SplitAppend | ma_rmv_stats.py:142 | the fields of `t + d + x` are the fields of `t` followed by the fields of `x` |
| Text.ParseInt | ma_rmv_stats.py:143 | `int()` succeeds exactly on non-empty strings of decimal digits |
| Text.DigitsValueBound | ma_rmv_stats.py:143 | a string of n digits denotes a number below 10^n |
| Text.ParseShowNat | ma_rmv_stats.py:143 | `int()` reads back the decimal rendering of every natural number |
| Text.ParseDecimal | ma_rmv_stats.py:143 | a number accepted by `float()` is never negative |
| Text.DecimalOfDigits | ma_rmv_stats.py:143 | `float()` and `int()` agree on digit strings |
| Text.DecimalFraction | ma_rmv_stats.py:143 | `ip.fp` parses, and its value lies in [ip, ip + 1): the fractional digits add less than one |
| WaitTime.ParseWaitTime | ma_rmv_stats.py:139-143 | a successfully parsed wait time is never negative |
| WaitTime.TokensAreZero | ma_rmv_stats.py:140-142 | "Error" and "Closed" give 0; any other string without ':' fails |
| WaitTime.ParseWaitTimeSpec | ma_rmv_stats.py:142-143 | for other strings, parsing succeeds iff there are at least three fields, the first two integers and the third a number; the value is then H*60 + M + S/60; fewer than three fields always fail |
| WaitTime.ParseFields | ma_rmv_stats.py:142-143 | a string assembled as `H:M:S` from digit fields parses to H*60 + M + S/60 |
| WaitTime.SameFields | ma_rmv_stats.py:142-143 | two non-token strings whose first three fields agree parse to the same result |
| WaitTime.ExtraFieldsIgnored | ma_rmv_stats.py:142-143 | fields after the third never change the result |
| WaitTime.ExampleWaitTime | ma_rmv_stats.py:139-143 | "1:02:30" is 62.5 minutes |
| WaitTime.ExampleZeroWait | ma_rmv_stats.py:139-143 | "0:00:00" and "Closed" both give 0, so the result cannot tell a closed branch from an empty queue |
| Feed.ConvertChild | ma_rmv_stats.py:152-154 | an attribute becomes minutes exactly when its tag is licensing or registration; an empty timed element fails with `NoText`; otherwise the minutes are `ParseWaitTime` of its text, or its error as `BadWaitTime`; the minutes are non-negative; any other attribute keeps its text |
| Feed.RecordOf | ma_rmv_stats.py:150-155 | in a built record, every attribute that is not timed holds raw text |
| Feed.SnapshotOf | ma_rmv_stats.py:147-157 | a built snapshot has no more entries than there are branches |
| Feed.GetWaitTimes | ma_rmv_stats.py:147-157 | the nested loops return exactly `SnapshotOf(branches)`, including the error of the first failing element |
| Feed.RecordFailurePersists | ma_rmv_stats.py:151-155 | once a child raises, the branch fails with that error whatever follows |
| Feed.SnapshotFailurePersists | ma_rmv_stats.py:149-156 | once a branch raises, the parse fails with that error whatever follows |
| FeedProperties.RecordSucceeds | ma_rmv_stats.py:151-155 | a branch record is built iff every child converts |
| FeedProperties.RecordFirstError | ma_rmv_stats.py:151-155 | a failing branch reports the error of its first failing child |
| FeedProperties.RecordKeys | ma_rmv_stats.py:155 | the record's keys are exactly the distinct child tags |
| FeedProperties.RecordLastWins | ma_rmv_stats.py:155 | under each tag the record holds the converted value of the last child with that tag |
| FeedProperties.RecordTown | ma_rmv_stats.py:155-156 | `branch_info['town']` exists iff the branch has a town child, and holds the raw text of the last one |
| FeedProperties.RecordTimedValues | ma_rmv_stats.py:153-155 | every licensing and registration entry of a record is a non-negative number of minutes |
| FeedProperties.SnapshotSucceeds | ma_rmv_stats.py:149-156 | the parse succeeds iff every branch converts and has a town child |
| FeedProperties.SnapshotFirstError | ma_rmv_stats.py:149-156 | a failing parse reports the error of the first faulty branch; a branch without a town is `MissingTown` |
| FeedProperties.SnapshotBranchesValid | ma_rmv_stats.py:149-156 | in a successful parse every branch converts and names a town |
| FeedProperties.SnapshotKeys | ma_rmv_stats.py:156 | the snapshot's keys are exactly the town texts of the branches |
| FeedProperties.SnapshotLastWins | ma_rmv_stats.py:156 | under each town the snapshot holds the record of the last branch naming that town |
| FeedProperties.SnapshotRecordFromBranch | ma_rmv_stats.py:156 | every record in the snapshot is the record of some branch of the feed |
| Publisher.DataPointBody | ma_rmv_stats.py:79-104 | the body built for a data point reads back as exactly that metric type, branch and service labels, global resource, project, timestamp and value |
| Publisher.ReadBackExact | ma_rmv_stats.py:79-104 | a body that reads back as a data point is exactly the body built for it: one series, one point, no other labels |
| Publisher.WriteDataPoint | ma_rmv_stats.py:106-112 | a write is addressed to `projects/<id>`, its body reads back as exactly the given point, and it is marked failed iff the backend rejects that body; the `HttpError` is caught, so the caller carries on |
| Publisher.FirstMissing | ma_rmv_stats.py:163-165 | the index of the first service the record lacks: every earlier service is present |
| Publisher.BranchPublication | ma_rmv_stats.py:163-165 | one branch issues at most one write per service, write k being service k's value for that branch; it ends without error iff the record has both services, and otherwise stops with `MissingService` naming the first service it lacks |
| Publisher.Publish | ma_rmv_stats.py:160-165 | publication issues at most two writes per branch, and an error it stops with names a branch of the order whose record lacks the named service |
| Publisher.WriteBranch | ma_rmv_stats.py:163-165 | the inner loop issues one write per service, in order, until the first missing service, whose lookup stops publication |
| Publisher.WriteWaitTimes | ma_rmv_stats.py:160-165 | the outer loop visits each snapshot key at most once, all of them unless a lookup fails, and issues exactly `Publish` of the order it used |
| PublisherProperties.PublishStep | ma_rmv_stats.py:162-165 | a branch with both services adds its licensing write and then its registration write, with no error |
| PublisherProperties.PublishPrefix | ma_rmv_stats.py:162-165 | the writes issued for the first j branches of the order are a prefix of the writes issued for the whole order |
| PublisherProperties.PublishLength | ma_rmv_stats.py:160-165 | when every record has both services, publication ends without error after two writes per branch |
| PublisherProperties.PublishWrites | ma_rmv_stats.py:160-165 | write 2i carries branch i's licensing value and write 2i+1 its registration value, with the shared timestamp |
| PublisherProperties.PublishComplete | ma_rmv_stats.py:160-165 | the two facts above together, for every branch of the order |
| PublisherProperties.PublishStops | ma_rmv_stats.py:162-165 | a branch lacking a service stops publication after the earlier branches' writes and its own writes up to the missing service |
| PublisherProperties.PublishErrorPersists | ma_rmv_stats.py:162-165 | once publication stops with an error, later branches issue nothing |
| PublisherProperties.BranchIgnoresRejections | ma_rmv_stats.py:106-112 | for one branch, whatever the backend rejects, the same requests are issued in the same order with the same error; a write is failed iff rejected |
| PublisherProperties.PublishIgnoresRejections | ma_rmv_stats.py:106-112 | whatever the backend rejects, the same requests are issued in the same order with the same final error; a write is failed iff rejected |
| Query.FilterClauses | ma_rmv_stats.py:116-121 | the clause list starts with the resource and metric clauses and has one more clause for each of branch and service that is given |
| Query.RenderAppend | ma_rmv_stats.py:118-121 | appending a clause appends " AND " and the clause's text |
| Query.FilterClausesShape | ma_rmv_stats.py:116-121 | the filter starts with the resource and metric clauses; a branch clause appears iff a branch is given, a service clause iff a service is given, and the service clause comes last |
| Query.BaseRendering | ma_rmv_stats.py:116-117 | the source's base filter text is the rendering of the two base clauses |
| Query.BranchClauseText | ma_rmv_stats.py:118-119 | the source's branch suffix is " AND " followed by the rendered branch clause |
| Query.ServiceClauseText | ma_rmv_stats.py:120-121 | the source's service suffix is " AND " followed by the rendered service clause |
| Query.QueryFilter | ma_rmv_stats.py:116-121 | the filter the source formats is the rendering of `FilterClauses`, and always starts with the base filter |
| Query.QueryInterval | ma_rmv_stats.py:123-125 | the interval ends now and spans exactly one hour |
| Query.QueryWaitTime | ma_rmv_stats.py:127-129 | the list request names the project, uses the clause filter and covers the last hour |
| Pipeline.SnapshotServices | ma_rmv_stats.py:153-156 | if every branch reports both services, every snapshot record holds both as non-negative minutes |
| Pipeline.FeedPublication | ma_rmv_stats.py:178-186 | publishing such a snapshot in any key order ends without error, issues two writes per branch, and each write carries non-negative minutes |
| Pipeline.FifteenMinutes | ma_rmv_stats.py:139-143 | "0:15:00" is 15 minutes |
| Pipeline.BostonRecordParses | ma_rmv_stats.py:149-155 | the Boston branch (town, licensing "0:15:00", registration "Closed") parses to town text, 15.0 and 0.0 |
| Pipeline.BostonExample | ma_rmv_stats.py:178-186 | the one-branch Boston feed gives one snapshot entry; publishing it issues exactly two writes, licensing 15.0 then registration 0.0 |

## Left out

- Fetching the feed (`requests.get`, line 145) is not modelled. The input is the list of branch elements.
- XML parsing (`ET.fromstring`, line 148) is not modelled. A branch is its list of (tag, text) children, and text is `None` for an empty element.
- The credentials and the API client are not modelled (lines 22-26), nor is `request.execute()` at lines 107-109 and 127-131. A write is the request record it would send. The backend's answer is the `rejected` parameter.
- Printing the error of a failed write (lines 111-112) is not modelled. The write is only marked failed.
- Printing and logging of the query response (line 131) is not modelled.
- Getting and creating the metric descriptor is not modelled (lines 28-74 and 181-184). This covers the descriptor schema and the sleep after creation.
- The clock (`time.time()`, lines 123 and 174) is not modelled. Time is a parameter.
- RFC 3339 formatting (`strict_rfc3339`, lines 124-125 and 175) is not modelled. Interval ends are kept as integer seconds, and a write's timestamp is opaque text.
- Argument parsing and the `__main__` sequence (lines 168-188) are left out. `Pipeline.FeedPublication` composes parsing and publication as `__main__` does.
- Text.ParseInt: is weaker than Python's `int()`. It accepts only unsigned ASCII digit strings. `int()` also accepts surrounding whitespace and a sign, so strings such as " 1" or "-1" that Python reads (the latter as a negative wait) are failures here.
- Text.ParseDecimal: is weaker than Python's `float()`. It accepts only unsigned decimals with at most one '.'. `float()` also accepts whitespace, a sign, exponents, "inf" and "nan".
- WaitTime.ParseWaitTime: computes with exact reals, not IEEE doubles. Rounding of `float(vals[2])/60` is not modelled. The tokens give the integer 0 in the source; here they give 0.0.
- Exceptions from `request.execute()` other than `errors.HttpError` are not modelled (lines 107-110). A transport error or a failed token refresh would propagate and abort the remaining writes of `write_ma_rmv_wait_times` and the query at line 187. Every backend outcome is a rejection in `rejected`, which the loop survives.
- WaitTime.ParseWaitTime: succeeds on wait times beyond the float range. At line 143 Python converts the integer part to a float and raises `OverflowError` when it does not fit, and a huge seconds field gives `inf`. Exact reals have neither limit.
- The dictionary iteration order of `iteritems()` is not modelled. `Publisher.WriteWaitTimes` may pick any order and returns the one it used, and every property is proved for every order.
