/** The snapshot-building part of `get_ma_rmv_wait_times`: the parsed feed,
    one element per branch whose children are named attributes, becomes a
    map from each branch's town to a record of its attributes. The HTTP
    fetch and the XML parse are not modelled: the input is the list of
    branch elements as (tag, text) children. */
module Feed {
  import opened Wrappers
  import opened Text
  import opened WaitTime

  /** An element's text as ElementTree gives it: None when the element is empty. */
  type ElementText = Option<string>

  datatype Child = Child(tag: string, text: ElementText)

  /** A branch element: its attribute children in document order. */
  type Branch = seq<Child>

  /** A record value: the raw text, or a wait time converted to minutes. */
  datatype Value = Raw(text: ElementText) | Wait(minutes: real)

  /** `branch_info`: attribute name to value. */
  type Record = map<string, Value>

  /** `rmv_waits`: the town text of each branch to its record. */
  type Snapshot = map<ElementText, Record>

  /** The exceptions that abort the parse: `parse_wait_time` on an empty
      element (None has no split), `parse_wait_time` refusing the text, and
      the KeyError of a branch without a town child. */
  datatype FeedError =
    | NoText(tag: string)
    | BadWaitTime(tag: string, reason: WaitTimeError)
    | MissingTown

  /** The attributes that are converted to minutes. */
  predicate IsTimed(tag: string)
  {
    tag == "licensing" || tag == "registration"
  }

  /** One attribute child's value: converted to minutes for the two timed
      attributes, its raw text otherwise. Only timed attributes can fail:
      an empty element has no text to split, and otherwise the minutes and
      the error are those of `ParseWaitTime` on the element's text. */
  function ConvertChild(c: Child): (r: Result<Value, FeedError>)
    ensures r.Success? ==> (r.value.Wait? <==> IsTimed(c.tag))
    ensures r.Success? && r.value.Wait? ==> r.value.minutes >= 0.0
    ensures r.Failure? ==> IsTimed(c.tag)
    ensures !IsTimed(c.tag) ==> r.Success? && r.value.text == c.text
    ensures IsTimed(c.tag) && c.text.None? ==> r == Failure(NoText(c.tag))
    ensures IsTimed(c.tag) && c.text.Some? && ParseWaitTime(c.text.value).Success? ==>
      r == Success(Wait(ParseWaitTime(c.text.value).value))
    ensures IsTimed(c.tag) && c.text.Some? && ParseWaitTime(c.text.value).Failure? ==>
      r == Failure(BadWaitTime(c.tag, ParseWaitTime(c.text.value).error))
  {
    if IsTimed(c.tag) then
      match c.text
      case None => Failure(NoText(c.tag))
      case Some(t) =>
        match ParseWaitTime(t)
        case Success(m) => Success(Wait(m))
        case Failure(e) => Failure(BadWaitTime(c.tag, e))
    else Success(Raw(c.text))
  }

  /** The record the inner loop builds from a branch's children, child by
      child, the first failing conversion aborting it. Untimed attributes
      hold raw text. */
  function RecordOf(cs: Branch): (r: Result<Record, FeedError>)
    ensures r.Success? ==> forall tag :: tag in r.value && !IsTimed(tag) ==> r.value[tag].Raw?
    decreases |cs|
  {
    if |cs| == 0 then Success(map[])
    else
      match RecordOf(cs[..|cs| - 1])
      case Failure(e) => Failure(e)
      case Success(m) =>
        match ConvertChild(cs[|cs| - 1])
        case Failure(e) => Failure(e)
        case Success(v) => Success(m[cs[|cs| - 1].tag := v])
  }

  /** The snapshot the outer loop builds, branch by branch: each record is
      stored under the text of its town attribute, replacing an earlier
      branch of the same town. */
  function SnapshotOf(bs: seq<Branch>): (r: Result<Snapshot, FeedError>)
    ensures r.Success? ==> |r.value| <= |bs|
    decreases |bs|
  {
    if |bs| == 0 then Success(map[])
    else
      match SnapshotOf(bs[..|bs| - 1])
      case Failure(e) => Failure(e)
      case Success(snap) =>
        match RecordOf(bs[|bs| - 1])
        case Failure(e) => Failure(e)
        case Success(rec) =>
          if "town" in rec then Success(snap[rec["town"].text := rec]) else Failure(MissingTown)
  }

  /** `get_ma_rmv_wait_times` after the fetch and the XML parse: the nested
      loops filling `branch_info` and `rmv_waits`, returning early where
      Python raises. */
  method GetWaitTimes(branches: seq<Branch>) returns (r: Result<Snapshot, FeedError>)
    ensures r == SnapshotOf(branches)
  {
    var rmvWaits: Snapshot := map[];
    for i := 0 to |branches|
      invariant SnapshotOf(branches[..i]) == Success(rmvWaits)
    {
      var branch := branches[i];
      var branchInfo: Record := map[];
      for j := 0 to |branch|
        invariant RecordOf(branch[..j]) == Success(branchInfo)
      {
        var attr := branch[j];
        var attrValue := Raw(attr.text);
        assert branch[..j + 1][..j] == branch[..j];
        if IsTimed(attr.tag) {
          if attr.text.None? {
            RecordFailurePersists(branch, j + 1);
            assert branches[..i + 1][..i] == branches[..i];
            assert branches[..i + 1][i] == branch;
            SnapshotFailurePersists(branches, i + 1);
            return Failure(NoText(attr.tag));
          }
          var parsed := ParseWaitTime(attr.text.value);
          if parsed.Failure? {
            RecordFailurePersists(branch, j + 1);
            assert branches[..i + 1][..i] == branches[..i];
            assert branches[..i + 1][i] == branch;
            SnapshotFailurePersists(branches, i + 1);
            return Failure(BadWaitTime(attr.tag, parsed.error));
          }
          attrValue := Wait(parsed.value);
        }
        branchInfo := branchInfo[attr.tag := attrValue];
      }
      assert branch[..|branch|] == branch;
      assert branches[..i + 1][..i] == branches[..i];
      assert branches[..i + 1][i] == branch;
      if "town" !in branchInfo {
        SnapshotFailurePersists(branches, i + 1);
        return Failure(MissingTown);
      }
      rmvWaits := rmvWaits[branchInfo["town"].text := branchInfo];
    }
    assert branches[..|branches|] == branches;
    r := Success(rmvWaits);
  }

  /** Once a prefix of the children fails, the whole branch fails the same way. */
  lemma {:induction false} RecordFailurePersists(cs: Branch, j: nat)
    requires j <= |cs| && RecordOf(cs[..j]).Failure?
    ensures RecordOf(cs) == RecordOf(cs[..j])
    decreases |cs| - j
  {
    if j < |cs| {
      assert cs[..j + 1][..j] == cs[..j];
      RecordFailurePersists(cs, j + 1);
    } else {
      assert cs[..j] == cs;
    }
  }

  /** Once a prefix of the branches fails, the whole parse fails the same way. */
  lemma {:induction false} SnapshotFailurePersists(bs: seq<Branch>, i: nat)
    requires i <= |bs| && SnapshotOf(bs[..i]).Failure?
    ensures SnapshotOf(bs) == SnapshotOf(bs[..i])
    decreases |bs| - i
  {
    if i < |bs| {
      assert bs[..i + 1][..i] == bs[..i];
      SnapshotFailurePersists(bs, i + 1);
    } else {
      assert bs[..i] == bs;
    }
  }
}
