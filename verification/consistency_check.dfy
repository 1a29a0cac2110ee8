/** The consistency check a backup runs after copying a store: none, or a
    full check. The check is chosen by name, ignoring case. */
module ConsistencyCheck {
  import opened Results
  import opened Strings

  /** `NONE`, `FULL`, and the full check built by `full(reportDir, service)`
      that writes its report to `reportDir`. */
  datatype ConsistencyCheck =
    | NoCheck
    | FullCheck
    | ReportingFullCheck(reportDir: string)

  /** `name()`. */
  function Name(c: ConsistencyCheck): (r: string)
    ensures c.NoCheck? <==> r == "none"
    ensures !c.NoCheck? <==> r == "full"
  {
    match c
    case NoCheck => "none"
    case FullCheck => "full"
    case ReportingFullCheck(_) => "full"
  }

  /** The checks `fromString` looks through, in order. */
  const Candidates: seq<ConsistencyCheck> := [NoCheck, FullCheck]

  /** The first candidate whose name equals `name` ignoring case. */
  function FirstNamed(candidates: seq<ConsistencyCheck>, name: string): (r: Option<ConsistencyCheck>)
    ensures r.None? <==> forall i | 0 <= i < |candidates| :: !EqualsIgnoreCase(Name(candidates[i]), name)
    ensures r.Some? ==>
              exists i | 0 <= i < |candidates| ::
                && candidates[i] == r.value
                && EqualsIgnoreCase(Name(candidates[i]), name)
                && forall j | 0 <= j < i :: !EqualsIgnoreCase(Name(candidates[j]), name)
  {
    if candidates == [] then None
    else if EqualsIgnoreCase(Name(candidates[0]), name) then Some(candidates[0])
    else
      var r := FirstNamed(candidates[1..], name);
      if r.Some? then
        var i :| 0 <= i < |candidates[1..]|
          && candidates[1..][i] == r.value
          && EqualsIgnoreCase(Name(candidates[1..][i]), name)
          && forall j | 0 <= j < i :: !EqualsIgnoreCase(Name(candidates[1..][j]), name);
        assert candidates[i + 1] == r.value;
        assert forall j | 0 <= j < i + 1 :: !EqualsIgnoreCase(Name(candidates[j]), name) by {
          forall j | 0 <= j < i + 1 ensures !EqualsIgnoreCase(Name(candidates[j]), name) {
            if j > 0 { assert candidates[j] == candidates[1..][j - 1]; }
          }
        }
        r
      else
        assert forall i | 0 <= i < |candidates| :: !EqualsIgnoreCase(Name(candidates[i]), name) by {
          forall i | 0 <= i < |candidates| ensures !EqualsIgnoreCase(Name(candidates[i]), name) {
            if i > 0 { assert candidates[i] == candidates[1..][i - 1]; }
          }
        }
        r
  }

  /** The message of the `IllegalArgumentException` for an unknown name. */
  function UnknownNameMessage(name: string): string
  {
    "Unknown consistency check name: " + name + ". Supported values: NONE, FULL"
  }

  /** `fromString`: NONE for "none" and FULL for "full", in any case; any
      other name is an error. */
  function FromString(name: string): (r: Result<ConsistencyCheck, string>)
    ensures r == Success(NoCheck) <==> EqualsIgnoreCase("none", name)
    ensures r == Success(FullCheck) <==> EqualsIgnoreCase("full", name)
    ensures r.Failure? <==> !EqualsIgnoreCase("none", name) && !EqualsIgnoreCase("full", name)
    ensures r.Failure? ==> r.error == UnknownNameMessage(name)
  {
    assert |Candidates| == 2 && Candidates[0] == NoCheck && Candidates[1] == FullCheck;
    NamesDistinct(name);
    match FirstNamed(Candidates, name)
    case Some(c) => Success(c)
    case None => Failure(UnknownNameMessage(name))
  }

  /** A name that matches "none" ignoring case does not match "full". */
  lemma NamesDistinct(name: string)
    ensures !(EqualsIgnoreCase("none", name) && EqualsIgnoreCase("full", name))
  {
    if EqualsIgnoreCase("none", name) {
      assert LowerChar(name[0]) == LowerChar("none"[0]) == 'n';
      assert LowerChar("full"[0]) == 'f';
    }
  }

  /** The checks that have a name of their own are found by that name. */
  lemma FromStringOfName(c: ConsistencyCheck)
    requires c == NoCheck || c == FullCheck
    ensures FromString(Name(c)) == Success(c)
  {
    NamesDistinct(Name(c));
  }

  /** The names the error message lists as supported are accepted. */
  lemma SupportedValuesAccepted()
    ensures FromString("NONE") == Success(NoCheck)
    ensures FromString("FULL") == Success(FullCheck)
  {
    assert EqualsIgnoreCase("none", "NONE") by {
      assert LowerChar('N') == 'n' && LowerChar('O') == 'o' && LowerChar('E') == 'e';
    }
    assert EqualsIgnoreCase("full", "FULL") by {
      assert LowerChar('F') == 'f' && LowerChar('U') == 'u' && LowerChar('L') == 'l';
    }
  }

  /** How the consistency check service ended: with a report that is
      successful or not, or incomplete (`ConsistencyCheckIncompleteException`). */
  datatype ServiceOutcome = Completed(successful: bool) | Incomplete

  /** `ConsistencyCheckFailedException`, wrapping an incomplete check. */
  datatype CheckFailed = CheckFailed

  /** `runFull`, both overloads. The store and its configuration are fixed;
      `service` is what the check service would report when given the report
      directory (none for FULL, which uses the default). NONE succeeds
      without asking the service. */
  function RunFull(c: ConsistencyCheck, service: Option<string> -> ServiceOutcome): (r: Result<bool, CheckFailed>)
    ensures c.NoCheck? ==> r == Success(true)
    ensures !c.NoCheck? ==>
              var reportDir := if c.ReportingFullCheck? then Some(c.reportDir) else None;
              && (r.Failure? <==> service(reportDir).Incomplete?)
              && (r.Success? ==> r.value == service(reportDir).successful)
  {
    match c
    case NoCheck => Success(true)
    case FullCheck =>
      (match service(None)
       case Completed(ok) => Success(ok)
       case Incomplete => Failure(CheckFailed))
    case ReportingFullCheck(dir) =>
      (match service(Some(dir))
       case Completed(ok) => Success(ok)
       case Incomplete => Failure(CheckFailed))
  }

  /** NONE reports a consistent store whatever the service would say. */
  lemma NoneAlwaysPasses(service: Option<string> -> ServiceOutcome)
    ensures RunFull(NoCheck, service) == Success(true)
  {
  }

  /** `full(reportDir, service)` is named "full", like FULL, and is what
      FULL does with the report directory handed to the service. */
  lemma ReportingFullIsFull(reportDir: string, service: Option<string> -> ServiceOutcome)
    ensures Name(ReportingFullCheck(reportDir)) == Name(FullCheck) == "full"
    ensures RunFull(ReportingFullCheck(reportDir), service) == RunFull(FullCheck, d => service(Some(reportDir)))
  {
  }
}
