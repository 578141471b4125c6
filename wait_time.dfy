/** `parse_wait_time`: converts a feed wait-time string such as "1:02:30"
    into fractional minutes. */
module WaitTime {
  import opened Wrappers
  import opened Text

  /** Why a wait-time string was refused, in the order the Python expression
      `int(vals[0])*60 + int(vals[1]) + float(vals[2])/60` would raise:
      a ValueError from int() or float() on field `index`, or an IndexError
      when field `index` is missing. */
  datatype WaitTimeError =
    | BadInteger(index: nat)
    | BadNumber(index: nat)
    | MissingField(index: nat)

  /** The two words the feed uses instead of a time. */
  predicate IsToken(t: string)
  {
    t == "Error" || t == "Closed"
  }

  /** Minutes denoted by hours, minutes and seconds. */
  function Minutes(h: nat, m: nat, s: real): real
  {
    (h * 60 + m) as real + s / 60.0
  }

  /** `parse_wait_time(t)` for a string `t`. The result is never negative. */
  function ParseWaitTime(t: string): (r: Result<real, WaitTimeError>)
    ensures r.Success? ==> r.value >= 0.0
  {
    if IsToken(t) then Success(0.0)
    else
      var vals := Split(t, ':');
      match ParseInt(vals[0])
      case None => Failure(BadInteger(0))
      case Some(h) =>
        if |vals| < 2 then Failure(MissingField(1))
        else match ParseInt(vals[1])
          case None => Failure(BadInteger(1))
          case Some(m) =>
            if |vals| < 3 then Failure(MissingField(2))
            else match ParseDecimal(vals[2])
              case None => Failure(BadNumber(2))
              case Some(s) => Success(Minutes(h, m, s))
  }

  /** "Error" and "Closed" read as zero minutes; every other string is read
      field by field, so a string with no ':' (and not one of the two words)
      never reads as zero by the special case. */
  lemma TokensAreZero(t: string)
    ensures IsToken(t) ==> ParseWaitTime(t) == Success(0.0)
    ensures !IsToken(t) && ':' !in t ==> ParseWaitTime(t).Failure?
  {
    if !IsToken(t) && ':' !in t {
      SplitWithout(t, ':');
    }
  }

  /** The conversion succeeds exactly when the string is one of the two words,
      or has at least three fields whose first two are integers and whose
      third is a number; it then yields H*60 + M + S/60. */
  lemma ParseWaitTimeSpec(t: string)
    requires !IsToken(t)
    ensures var vals := Split(t, ':');
      ParseWaitTime(t).Success? <==>
        (|vals| >= 3 && ParseInt(vals[0]).Some? && ParseInt(vals[1]).Some? && ParseDecimal(vals[2]).Some?)
    ensures var vals := Split(t, ':');
      ParseWaitTime(t).Success? ==>
        ParseWaitTime(t).value == Minutes(ParseInt(vals[0]).value, ParseInt(vals[1]).value, ParseDecimal(vals[2]).value)
    ensures |Split(t, ':')| < 3 ==> ParseWaitTime(t).Failure?
  {
  }

  /** A string assembled from hour, minute and second fields reads back as
      H*60 + M + S/60. */
  lemma {:induction false} ParseFields(hs: string, ms: string, ss: string)
    requires |hs| > 0 && IsDigits(hs) && |ms| > 0 && IsDigits(ms)
    requires ':' !in ss && ParseDecimal(ss).Some?
    ensures ParseWaitTime(hs + ":" + ms + ":" + ss)
      == Success(Minutes(DigitsValue(hs), DigitsValue(ms), ParseDecimal(ss).value))
  {
    var t := hs + ":" + ms + ":" + ss;
    NoDelimiterInDigits(hs, ':');
    NoDelimiterInDigits(ms, ':');
    assert Join([hs, ms, ss], ':') == t by {
      assert [hs, ms, ss][1..] == [ms, ss];
      assert [ms, ss][1..] == [ss];
      assert Join([ms, ss], ':') == ms + ":" + ss;
      assert hs + ":" + (ms + ":" + ss) == t;
    }
    SplitJoin([hs, ms, ss], ':');
    assert t[|hs|] == ':';
  }

  /** Only the first three fields matter. */
  lemma SameFields(t: string, u: string)
    requires !IsToken(t) && !IsToken(u)
    requires |Split(t, ':')| >= 3 && |Split(u, ':')| >= 3
    requires Split(t, ':')[..3] == Split(u, ':')[..3]
    ensures ParseWaitTime(t) == ParseWaitTime(u)
  {
    var vt, vu := Split(t, ':'), Split(u, ':');
    assert vt[0] == vu[0] && vt[1] == vu[1] && vt[2] == vu[2] by {
      assert vt[..3][0] == vt[0] && vt[..3][1] == vt[1] && vt[..3][2] == vt[2];
      assert vu[..3][0] == vu[0] && vu[..3][1] == vu[1] && vu[..3][2] == vu[2];
    }
  }

  /** A string with three or more fields is not one of the two words. */
  lemma FieldsAreNotToken(t: string)
    requires |Split(t, ':')| >= 3
    ensures !IsToken(t)
  {
    if IsToken(t) {
      SplitWithout(t, ':');
    }
  }

  /** Fields after the third are ignored. */
  lemma ExtraFieldsIgnored(t: string, x: string)
    requires |Split(t, ':')| >= 3
    ensures ParseWaitTime(t + ":" + x) == ParseWaitTime(t)
  {
    var u := t + ":" + x;
    assert Split(u, ':') == Split(t, ':') + Split(x, ':') by {
      SplitAppend(t, x, ':');
    }
    assert Split(u, ':')[..3] == Split(t, ':')[..3];
    FieldsAreNotToken(t);
    FieldsAreNotToken(u);
    SameFields(u, t);
  }

  /** "1:02:30" is 62.5 minutes. */
  lemma ExampleWaitTime()
    ensures ParseWaitTime("1:02:30") == Success(62.5)
  {
    ExampleWaitTimeText("1:02:30");
  }

  /** The proof of `ExampleWaitTime`, on a string only known to equal the
      literal, so that the literal is not unfolded character by character. */
  lemma ExampleWaitTimeText(t: string)
    requires t == "1:02:30"
    ensures ParseWaitTime(t) == Success(62.5)
  {
    var h, m, s := "1", "02", "30";
    assert DigitsValue(h) == 1 && DigitsValue(m) == 2 && DigitsValue(s) == 30;
    DecimalOfDigits(s);
    ParseFields(h, m, s);
    assert h + ":" + m + ":" + s == t;
  }

  /** "0:00:00" reads as zero, the same value as "Closed": the result alone
      does not tell a closed branch from one with no wait. */
  lemma ExampleZeroWait()
    ensures ParseWaitTime("0:00:00") == ParseWaitTime("Closed") == Success(0.0)
  {
    ExampleZeroWaitText("0:00:00");
  }

  /** The proof of `ExampleZeroWait`, on a string only known to equal the literal. */
  lemma ExampleZeroWaitText(t: string)
    requires t == "0:00:00"
    ensures ParseWaitTime(t) == ParseWaitTime("Closed") == Success(0.0)
  {
    var h, m, s := "0", "00", "00";
    assert DigitsValue(h) == 0 && DigitsValue(m) == 0 && DigitsValue(s) == 0;
    DecimalOfDigits(s);
    ParseFields(h, m, s);
    assert h + ":" + m + ":" + s == t;
  }
}
