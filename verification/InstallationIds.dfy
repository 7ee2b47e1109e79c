/** The allowlist of GitHub App installation IDs: the configuration parser, the configuration
    validator, and the set the GitHub adapter builds from the same list. */
module InstallationIds {
  import opened Wrappers
  import opened GoText

  datatype IdError =
    | Required
    | EmptyPart
    | InvalidPart(part: string)
    | NotPositive(id: int64)
    | Duplicate(id: int64)

  /** What a usable allowlist is: non-empty, positive, without repetition. */
  ghost predicate IsAllowlist(ids: seq<int64>) {
    && ids != []
    && (forall i :: 0 <= i < |ids| ==> ids[i] > 0)
    && (forall i, j :: 0 <= i < j < |ids| ==> ids[i] != ids[j])
  }

  // ----- checking a list

  /** The complaint about the earliest element that is not positive or repeats an earlier one. */
  function FirstViolation(ids: seq<int64>): Option<IdError> {
    if ids == [] then None
    else
      var n := |ids| - 1;
      match FirstViolation(ids[..n])
      case Some(e) => Some(e)
      case None =>
        if ids[n] <= 0 then Some(NotPositive(ids[n]))
        else if ids[n] in ids[..n] then Some(Duplicate(ids[n]))
        else None
  }

  function CheckList(ids: seq<int64>): Option<IdError> {
    if ids == [] then Some(Required) else FirstViolation(ids)
  }

  lemma {:induction false} ViolationPersists(ids: seq<int64>, k: nat)
    requires k <= |ids| && FirstViolation(ids[..k]).Some?
    ensures FirstViolation(ids) == FirstViolation(ids[..k])
  {
    if k == |ids| {
      assert ids[..k] == ids;
    } else {
      var shorter := ids[..|ids| - 1];
      assert shorter[..k] == ids[..k];
      ViolationPersists(shorter, k);
    }
  }

  lemma {:induction false} NoViolation(ids: seq<int64>)
    ensures FirstViolation(ids) == None <==> ids == [] || IsAllowlist(ids)
  {
    if ids != [] {
      var n := |ids| - 1;
      var shorter := ids[..n];
      NoViolation(shorter);
      if FirstViolation(ids) == None {
        forall i | 0 <= i < n ensures ids[i] > 0 && ids[i] != ids[n] {
          assert shorter[i] == ids[i];
        }
        forall i, j | 0 <= i < j < n ensures ids[i] != ids[j] {
          assert shorter[i] == ids[i] && shorter[j] == ids[j];
        }
      }
    }
  }

  /** The list check passes exactly the usable allowlists. */
  lemma CheckListMeaning(ids: seq<int64>)
    ensures CheckList(ids) == None <==> IsAllowlist(ids)
  {
    NoViolation(ids);
  }

  /** ID i is the first at fault, and this is its fault. */
  ghost predicate IdAtFault(ids: seq<int64>, i: nat, error: IdError) {
    && i < |ids| && (i == 0 || IsAllowlist(ids[..i]))
    && match error
       case NotPositive(id) => id == ids[i] && id <= 0
       case Duplicate(id) => id == ids[i] && id > 0 && exists j :: 0 <= j < i && ids[j] == id
       case _ => false
  }

  lemma LastIdFault(ids: seq<int64>, error: IdError)
    requires ids != []
    ensures var n := |ids| - 1;
            FirstViolation(ids[..n]) == None ==> (FirstViolation(ids) == Some(error) <==> IdAtFault(ids, n, error))
  {
    NoViolation(ids[..|ids| - 1]);
  }

  lemma {:induction false} EarliestViolation(ids: seq<int64>, error: IdError)
    ensures FirstViolation(ids) == Some(error) <==> exists i: nat :: IdAtFault(ids, i, error)
  {
    if ids != [] {
      var n, front := |ids| - 1, ids[..|ids| - 1];
      EarliestViolation(front, error);
      NoViolation(front);
      LastIdFault(ids, error);
      forall i: nat | i < n ensures IdAtFault(ids, i, error) <==> IdAtFault(front, i, error) {
        assert front[..i] == ids[..i];
      }
      assert IdAtFault(ids, n, error) ==> front == [] || IsAllowlist(front);
      hide IdAtFault, IsAllowlist;
    }
  }

  /** The complaint about a list: that it is empty, or about its earliest ID at fault. */
  lemma EarliestId(ids: seq<int64>, error: IdError)
    ensures CheckList(ids) == Some(error) <==>
              (ids == [] && error == Required) || exists i: nat :: IdAtFault(ids, i, error)
  {
    EarliestViolation(ids, error);
    hide FirstViolation;
  }

  /** validateGitHubAllowedInstallationIDs: one pass with a set of the IDs seen so far. */
  method Validate(ids: seq<int64>) returns (error: Option<IdError>)
    ensures error == CheckList(ids)
    ensures error == None <==> IsAllowlist(ids)
  {
    CheckListMeaning(ids);
    if |ids| == 0 {
      return Some(Required);
    }
    var seen: set<int64> := {};
    for i := 0 to |ids|
      invariant FirstViolation(ids[..i]) == None
      invariant forall id :: id in seen <==> id in ids[..i]
    {
      var id := ids[i];
      assert ids[..i + 1][..i] == ids[..i];
      if id <= 0 || id in seen {
        ViolationPersists(ids, i + 1);
        return Some(if id <= 0 then NotPositive(id) else Duplicate(id));
      }
      seen := seen + {id};
    }
    assert ids[..|ids|] == ids;
    return None;
  }

  /** allowedInstallationIDSet: accepts exactly what Validate accepts, and returns the same
      members as a set. */
  method AllowedInstallationIDSet(ids: seq<int64>) returns (r: Result<set<int64>, IdError>)
    ensures r.Success? <==> IsAllowlist(ids)
    ensures r.Success? ==> r.value == set i | 0 <= i < |ids| :: ids[i]
    ensures r.Failure? ==> Some(r.error) == CheckList(ids)
  {
    CheckListMeaning(ids);
    if |ids| == 0 {
      return Failure(Required);
    }
    var allowed: set<int64> := {};
    for i := 0 to |ids|
      invariant FirstViolation(ids[..i]) == None
      invariant allowed == set j | 0 <= j < i :: ids[j]
    {
      var id := ids[i];
      assert ids[..i + 1][..i] == ids[..i];
      if id <= 0 || id in allowed {
        ViolationPersists(ids, i + 1);
        return Failure(if id <= 0 then NotPositive(id) else Duplicate(id));
      }
      allowed := allowed + {id};
    }
    assert ids[..|ids|] == ids;
    return Success(allowed);
  }

  // ----- parsing the environment variable

  function ReadPart(part: string): Result<int64, IdError> {
    var text := TrimSpace(part);
    if text == "" then Failure(EmptyPart)
    else
      match ParseInt(text)
      case Some(id) => if id > 0 then Success(id) else Failure(InvalidPart(text))
      case None => Failure(InvalidPart(text))
  }

  function ReadParts(parts: seq<string>): Result<seq<int64>, IdError> {
    if parts == [] then Success([])
    else
      match ReadParts(parts[..|parts| - 1])
      case Failure(e) => Failure(e)
      case Success(ids) =>
        match ReadPart(parts[|parts| - 1])
        case Failure(e) => Failure(e)
        case Success(id) => Success(ids + [id])
  }

  function ParseList(value: string): Result<seq<int64>, IdError> {
    if TrimSpace(value) == "" then Failure(Required)
    else
      match ReadParts(Split(value, ','))
      case Failure(e) => Failure(e)
      case Success(ids) =>
        match CheckList(ids)
        case Some(e) => Failure(e)
        case None => Success(ids)
  }

  lemma {:induction false} ReadFailurePersists(parts: seq<string>, k: nat)
    requires k <= |parts| && ReadParts(parts[..k]).Failure?
    ensures ReadParts(parts) == ReadParts(parts[..k])
  {
    if k == |parts| {
      assert parts[..k] == parts;
    } else {
      assert parts[..|parts| - 1][..k] == parts[..k];
      ReadFailurePersists(parts[..|parts| - 1], k);
    }
  }

  /** What reading one more part adds: an ID to the list, or the final answer of the whole read. */
  lemma ReadNext(parts: seq<string>, i: nat, ids: seq<int64>)
    requires i < |parts| && ReadParts(parts[..i]) == Success(ids)
    ensures match ReadPart(parts[i])
            case Success(id) => ReadParts(parts[..i + 1]) == Success(ids + [id])
            case Failure(e) => ReadParts(parts) == Failure(e)
  {
    assert parts[..i + 1][..i] == parts[..i];
    if ReadPart(parts[i]).Failure? {
      ReadFailurePersists(parts, i + 1);
    }
  }

  /** parseGitHubAllowedInstallationIDs. */
  method Parse(value: string) returns (r: Result<seq<int64>, IdError>)
    ensures r == ParseList(value)
    ensures r.Success? ==> IsAllowlist(r.value) && |r.value| == |Split(value, ',')|
  {
    if TrimSpace(value) == "" {
      return Failure(Required);
    }
    var parts := Split(value, ',');
    var ids: seq<int64> := [];
    for i := 0 to |parts|
      invariant ReadParts(parts[..i]) == Success(ids) && |ids| == i
    {
      ReadNext(parts, i, ids);
      var part := TrimSpace(parts[i]);
      if part == "" {
        return Failure(EmptyPart);
      }
      var id := ParseInt(part);
      if id == None || id.value <= 0 {
        return Failure(InvalidPart(part));
      }
      ids := ids + [id.value];
    }
    assert parts[..|parts|] == parts;
    var error := Validate(ids);
    if error.Some? {
      return Failure(error.value);
    }
    return Success(ids);
  }

  ghost predicate ReadOneByOne(parts: seq<string>, ids: seq<int64>) {
    |ids| == |parts| && forall i :: 0 <= i < |parts| ==> ReadPart(parts[i]) == Success(ids[i])
  }

  lemma {:induction false} ReadPartsYields(parts: seq<string>)
    ensures match ReadParts(parts)
            case Success(ids) => ReadOneByOne(parts, ids)
            case Failure(_) => exists i :: 0 <= i < |parts| && ReadPart(parts[i]).Failure?
  {
    hide ReadPart;
    if parts != [] {
      var n := |parts| - 1;
      ReadPartsYields(parts[..n]);
      if ReadParts(parts[..n]).Failure? {
        var i :| 0 <= i < n && ReadPart(parts[..n][i]).Failure?;
        assert ReadPart(parts[i]).Failure?;
      } else {
        assert forall i :: 0 <= i < n ==> parts[..n][i] == parts[i];
      }
    }
  }

  lemma ReadPartsMeaning(parts: seq<string>, ids: seq<int64>)
    ensures ReadParts(parts) == Success(ids) <==> ReadOneByOne(parts, ids)
  {
    hide ReadPart;
    ReadPartsYields(parts);
    if ReadOneByOne(parts, ids) && ReadParts(parts).Success? {
      var read := ReadParts(parts).value;
      assert forall i :: 0 <= i < |parts| ==> ReadPart(parts[i]).value == read[i] == ids[i];
      assert ids == read;
    }
  }

  lemma {:induction false} TrimsToNothing(s: string)
    requires TrimSpace(s) == ""
    ensures AllSpace(s)
  {
    if s != [] {
      if IsSpace(s[0]) {
        TrimsToNothing(s[1..]);
        assert s == [s[0]] + s[1..];
      } else {
        assert TrimLeft(s) == s;
        TrimRightKeepsHead(s);
      }
    }
  }

  lemma {:induction false} TrimRightKeepsHead(s: string)
    requires s != [] && !IsSpace(s[0])
    ensures TrimRight(s) != []
  {
    if IsSpace(s[|s| - 1]) {
      TrimRightKeepsHead(s[..|s| - 1]);
    }
  }

  lemma BlankHasOnePart(value: string)
    requires TrimSpace(value) == ""
    ensures Split(value, ',') == [value] && ParseInt(TrimSpace(value)) == None
  {
    TrimsToNothing(value);
    SplitAtFirst(value, [], ',');
  }

  lemma ReadPartMeaning(part: string, id: int64)
    requires id > 0
    ensures ReadPart(part) == Success(id) <==> ParseInt(TrimSpace(part)) == Some(id)
  {}

  /** Parsing succeeds with `ids` exactly when the comma-separated parts are, one for one and up to
      surrounding space, decimals of those IDs, and the IDs form an allowlist. */
  lemma ParseListMeaning(value: string, ids: seq<int64>)
    ensures ParseList(value) == Success(ids) <==>
            && IsAllowlist(ids)
            && |ids| == |Split(value, ',')|
            && forall i :: 0 <= i < |ids| ==> ParseInt(TrimSpace(Split(value, ',')[i])) == Some(ids[i])
  {
    var parts := Split(value, ',');
    CheckListMeaning(ids);
    ReadPartsMeaning(parts, ids);
    if TrimSpace(value) == "" {
      BlankHasOnePart(value);
    } else {
      forall i | 0 <= i < |ids| && |ids| == |parts| && ids[i] > 0
        ensures ReadPart(parts[i]) == Success(ids[i]) <==> ParseInt(TrimSpace(parts[i])) == Some(ids[i])
      {
        ReadPartMeaning(parts[i], ids[i]);
      }
    }
  }

  ghost predicate ReadsAs(part: string, id: int64) {
    id > 0 && ParseInt(TrimSpace(part)) == Some(id)
  }

  ghost predicate IsId(part: string) {
    exists id :: ReadsAs(part, id)
  }

  /** Part i is the first that is no positive decimal, and this is what is said of it. */
  ghost predicate PartAtFault(parts: seq<string>, i: nat, error: IdError) {
    && i < |parts| && (forall j :: 0 <= j < i ==> IsId(parts[j]))
    && match error
       case EmptyPart => TrimSpace(parts[i]) == ""
       case InvalidPart(text) =>
         text == TrimSpace(parts[i]) && text != "" && !IsId(parts[i])
       case _ => false
  }

  lemma PartFault(part: string, error: IdError)
    ensures ReadPart(part) == Failure(error)
       <==> || (error == EmptyPart && TrimSpace(part) == "")
            || (TrimSpace(part) != "" && error == InvalidPart(TrimSpace(part)) && !IsId(part))
    ensures ReadPart(part).Success? <==> IsId(part)
  {
    var text := TrimSpace(part);
    if ReadPart(part).Success? {
      assert ReadsAs(part, ReadPart(part).value);
    }
    assert text == "" ==> ParseInt(text) == None;
    hide ParseInt, TrimSpace;
  }

  lemma {:induction false} EarliestPart(parts: seq<string>, error: IdError)
    ensures ReadParts(parts) == Failure(error) <==> exists i: nat :: PartAtFault(parts, i, error)
    ensures ReadParts(parts).Success? <==> forall i :: 0 <= i < |parts| ==> IsId(parts[i])
  {
    hide ReadPart, TrimSpace, IsId;
    if parts != [] {
      var n, front := |parts| - 1, parts[..|parts| - 1];
      EarliestPart(front, error);
      PartFault(parts[n], error);
      forall i: nat | i < n ensures PartAtFault(parts, i, error) <==> PartAtFault(front, i, error) {
        FaultInFront(parts, i, error);
      }
      assert forall j :: 0 <= j < n ==> front[j] == parts[j];
      LastPartFault(parts, error);
      hide PartAtFault;
    }
  }

  lemma FaultInFront(parts: seq<string>, i: nat, error: IdError)
    requires i < |parts| - 1
    ensures PartAtFault(parts, i, error) <==> PartAtFault(parts[..|parts| - 1], i, error)
  {
    var front := parts[..|parts| - 1];
    assert forall j :: 0 <= j <= i ==> front[j] == parts[j];
    hide IsId, TrimSpace;
    assert (forall j :: 0 <= j < i ==> IsId(parts[j])) <==> (forall j :: 0 <= j < i ==> IsId(front[j]));
  }

  lemma LastPartFault(parts: seq<string>, error: IdError)
    requires parts != []
    ensures var n := |parts| - 1;
            PartAtFault(parts, n, error) <==>
              && (forall j :: 0 <= j < n ==> IsId(parts[..n][j]))
              && ReadPart(parts[n]) == Failure(error)
  {
    var n := |parts| - 1;
    PartFault(parts[n], error);
    assert forall j :: 0 <= j < n ==> parts[..n][j] == parts[j];
    hide ReadPart, TrimSpace, IsId;
    assert (forall j :: 0 <= j < n ==> IsId(parts[j])) <==> (forall j :: 0 <= j < n ==> IsId(parts[..n][j]));
  }

  /** Some part is at fault with this error, or all are positive decimals and one of them repeats. */
  ghost predicate ListAtFault(parts: seq<string>, error: IdError) {
    || (exists i: nat :: PartAtFault(parts, i, error))
    || (exists ids, i: nat :: ReadOneByOne(parts, ids) && IdAtFault(ids, i, error))
  }

  lemma ReadListFault(parts: seq<string>, ids: seq<int64>, error: IdError)
    requires parts != [] && ReadParts(parts) == Success(ids)
    ensures CheckList(ids) == Some(error) <==> ListAtFault(parts, error)
  {
    ReadPartsYields(parts);
    EarliestPart(parts, error);
    EarliestId(ids, error);
    assert ids != [];
    hide CheckList, IdAtFault, PartAtFault;
    if i: nat :| IdAtFault(ids, i, error) {
      assert ReadOneByOne(parts, ids) && IdAtFault(ids, i, error);
    }
    forall other: seq<int64> | ReadOneByOne(parts, other) ensures other == ids {
      ReadPartsMeaning(parts, other);
    }
    hide ReadParts;
  }

  lemma UnreadListFault(parts: seq<string>, error: IdError)
    requires ReadParts(parts).Failure?
    ensures ReadParts(parts) == Failure(error) <==> ListAtFault(parts, error)
  {
    EarliestPart(parts, error);
    forall ids: seq<int64> ensures !ReadOneByOne(parts, ids) {
      ReadPartsMeaning(parts, ids);
    }
    hide ReadParts, ReadOneByOne, PartAtFault;
  }

  /** What a list of IDs that is refused is refused for: that it is blank; its earliest part that is no
      positive decimal; or, when every part is one, its earliest repetition. */
  lemma RefusedFor(value: string, error: IdError)
    ensures ParseList(value) == Failure(error)
       <==> if TrimSpace(value) == "" then error == Required else ListAtFault(Split(value, ','), error)
  {
    var parts := Split(value, ',');
    hide ListAtFault, ReadParts, CheckList;
    if ReadParts(parts).Success? {
      ReadListFault(parts, ReadParts(parts).value, error);
    } else {
      UnreadListFault(parts, error);
    }
  }

  /** How an operator may write an allowlist: decimals between commas, each with any padding. */
  function Written(ids: seq<int64>, padding: seq<(string, string)>): (parts: seq<string>)
    requires |padding| == |ids|
    ensures |parts| == |ids|
  {
    seq(|ids|, i requires 0 <= i < |ids| => padding[i].0 + FormatInt(ids[i]) + padding[i].1)
  }

  lemma WrittenPart(id: int64, before: string, after: string)
    requires AllSpace(before) && AllSpace(after)
    ensures var part := before + FormatInt(id) + after;
            ',' !in part && ParseInt(TrimSpace(part)) == Some(id)
  {
    hide ParseInt, TrimSpace;
    var text := FormatInt(id);
    assert forall c <- text :: !IsSpace(c) && c != ',';
    assert text[0] in text && text[|text| - 1] in text;
    TrimPadded(before, text, after);
    ParseFormat(id);
  }

  /** Every allowlist, written with any padding, parses back to itself. */
  lemma ParseListRoundTrip(ids: seq<int64>, padding: seq<(string, string)>)
    requires IsAllowlist(ids) && |padding| == |ids|
    requires forall p <- padding :: AllSpace(p.0) && AllSpace(p.1)
    ensures ParseList(Join(Written(ids, padding), ',')) == Success(ids)
  {
    var parts := Written(ids, padding);
    forall i | 0 <= i < |ids|
      ensures ',' !in parts[i] && ParseInt(TrimSpace(parts[i])) == Some(ids[i])
    {
      assert padding[i] in padding;
      WrittenPart(ids[i], padding[i].0, padding[i].1);
    }
    hide ParseList, TrimSpace, ParseInt;
    SplitJoin(parts, ',');
    ParseListMeaning(Join(parts, ','), ids);
  }
}
