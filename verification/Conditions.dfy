/** The conditions of a resource: updateConditions and terminalAWSError
    (pkg/resource/resolver_query_log_config/sdk.go), onError and onSuccess (manager.go). */
module Conditions {
  import opened Wrappers

  datatype ConditionType = Terminal | Recoverable | ResourceSynced | OtherType(name: string)

  /** A new condition has no status until it is given one. */
  datatype ConditionStatus = Unset | IsTrue | IsFalse | Unknown

  datatype ConditionValue = ConditionValue(
    kind: ConditionType,
    status: ConditionStatus,
    message: Option<string>,
    reason: Option<string>)

  /** A condition is held by reference and written through it. */
  class Condition {
    var kind: ConditionType
    var status: ConditionStatus
    var message: Option<string>
    var reason: Option<string>

    constructor (kind: ConditionType)
      ensures Value() == ConditionValue(kind, Unset, None, None)
    {
      this.kind, status, message, reason := kind, Unset, None, None;
    }

    ghost function Value(): ConditionValue
      reads this
    {
      ConditionValue(kind, status, message, reason)
    }

    method DeepCopy() returns (out: Condition)
      ensures fresh(out) && out.Value() == Value()
      ensures out.kind == kind && out.status == status && out.message == message && out.reason == reason
    {
      out := new Condition(kind);
      out.status, out.message, out.reason := status, message, reason;
    }
  }

  class Resource {
    var conditions: seq<Condition>    // Status.Conditions

    constructor (conditions: seq<Condition>)
      ensures this.conditions == conditions
    {
      this.conditions := conditions;
    }
  }

  ghost function Values(cs: seq<Condition>): (vs: seq<ConditionValue>)
    reads set c | c in cs
    ensures |vs| == |cs| && forall i :: 0 <= i < |vs| ==> vs[i] == cs[i].Value()
  {
    seq(|cs|, i requires 0 <= i < |cs| reads set c | c in cs => cs[i].Value())
  }

  // ----- errors -----

  datatype ApiError = ApiError(code: string, text: string)

  /** An error: its text, the AWS API error it wraps if any, whether it is one of the two secret
      errors, and whether it wraps a TerminalError. */
  datatype Error = Error(text: string, aws: Option<ApiError>, isSecretError: bool, wrapsTerminal: bool)

  predicate TerminalAWSError(err: Option<Error>) {
    && err.Some?
    && err.value.aws.Some?
    && var code := err.value.aws.value.code;
       code == "InvalidParameterException" || code == "InvalidRequestException"
  }

  predicate IsTerminal(err: Option<Error>) {
    TerminalAWSError(err) || (err.Some? && (err.value.isSecretError || err.value.wrapsTerminal))
  }

  /** The message of a condition. Either condition prefers the text of the AWS error, but a secret
      error or a TerminalError comes with its own text when the error is terminal. */
  function MessageOf(err: Error, terminal: bool): string {
    if err.aws.None? || (terminal && (err.isSecretError || err.wrapsTerminal)) then err.text
    else err.aws.value.text
  }

  // ----- the update -----

  /** The position of the last condition of this kind, or -1. */
  ghost function LastOf(cs: seq<ConditionValue>, kind: ConditionType): (i: int)
    ensures -1 <= i < |cs|
    ensures i >= 0 ==> cs[i].kind == kind
    ensures forall j :: i < j < |cs| ==> cs[j].kind != kind
  {
    if cs == [] then -1
    else if cs[|cs| - 1].kind == kind then |cs| - 1
    else LastOf(cs[..|cs| - 1], kind)
  }

  /** Sets the last condition of this kind, adding one at the end if there is none. */
  ghost function Put(cs: seq<ConditionValue>, kind: ConditionType, message: string): seq<ConditionValue> {
    var i := LastOf(cs, kind);
    if i < 0 then cs + [ConditionValue(kind, IsTrue, Some(message), None)]
    else cs[i := cs[i].(status := IsTrue, message := Some(message))]
  }

  ghost function Clear(cs: seq<ConditionValue>, kind: ConditionType): seq<ConditionValue> {
    var i := LastOf(cs, kind);
    if i < 0 then cs else cs[i := cs[i].(status := IsFalse, message := None)]
  }

  ghost function Updated(cs: seq<ConditionValue>, err: Option<Error>): seq<ConditionValue> {
    if IsTerminal(err) then Put(cs, Terminal, MessageOf(err.value, true))
    else if err.Some? then Put(Clear(cs, Terminal), Recoverable, MessageOf(err.value, false))
    else Clear(Clear(cs, Terminal), Recoverable)
  }

  ghost predicate Concerned(cs: seq<ConditionValue>) {
    exists i :: 0 <= i < |cs| && (cs[i].kind == Terminal || cs[i].kind == Recoverable || cs[i].kind == ResourceSynced)
  }

  ghost predicate Distinct(cs: seq<Condition>) {
    forall i, j :: 0 <= i < j < |cs| ==> cs[i] != cs[j]
  }

  method DeepCopyConditions(r: Resource) returns (ko: Resource)
    ensures fresh(ko) && Distinct(ko.conditions) && forall c :: c in ko.conditions ==> fresh(c)
    ensures Values(ko.conditions) == Values(r.conditions)
  {
    ko := new Resource([]);
    for i := 0 to |r.conditions|
      invariant fresh(ko) && Distinct(ko.conditions) && |ko.conditions| == i
      invariant forall c :: c in ko.conditions ==> fresh(c)
      invariant forall j :: 0 <= j < i ==> ko.conditions[j].Value() == r.conditions[j].Value()
    {
      var c := r.conditions[i].DeepCopy();
      ko.conditions := ko.conditions + [c];
    }
  }

  lemma {:induction false} LastOfStep(vs: seq<ConditionValue>, i: nat, kind: ConditionType)
    requires i < |vs|
    ensures LastOf(vs[..i + 1], kind) == if vs[i].kind == kind then i else LastOf(vs[..i], kind)
  {
    assert vs[..i + 1][..i] == vs[..i];
  }

  ghost predicate IsAt(cs: seq<Condition>, i: int, c: Condition?) {
    if i < 0 then c == null else i < |cs| && c == cs[i]
  }

  /** The last condition of each kind that matters. */
  method FindConditions(cs: seq<Condition>) returns (terminal: Condition?, recoverable: Condition?, sync: Condition?)
    ensures IsAt(cs, LastOf(Values(cs), Terminal), terminal)
    ensures IsAt(cs, LastOf(Values(cs), Recoverable), recoverable)
    ensures IsAt(cs, LastOf(Values(cs), ResourceSynced), sync)
  {
    terminal, recoverable, sync := null, null, null;
    ghost var vs := Values(cs);
    for i := 0 to |cs|
      invariant IsAt(cs, LastOf(vs[..i], Terminal), terminal)
      invariant IsAt(cs, LastOf(vs[..i], Recoverable), recoverable)
      invariant IsAt(cs, LastOf(vs[..i], ResourceSynced), sync)
    {
      LastOfStep(vs, i, Terminal);
      LastOfStep(vs, i, Recoverable);
      LastOfStep(vs, i, ResourceSynced);
      var condition := cs[i];
      if condition.kind == Terminal {
        terminal := condition;
      }
      if condition.kind == Recoverable {
        recoverable := condition;
      }
      if condition.kind == ResourceSynced {
        sync := condition;
      }
    }
    assert vs[..|cs|] == vs;
  }

  /** Writes through a condition of the list. */
  method Write(ko: Resource, c: Condition, status: ConditionStatus, message: Option<string>, ghost i: nat)
    requires Distinct(ko.conditions) && i < |ko.conditions| && ko.conditions[i] == c
    modifies c
    ensures Values(ko.conditions)
        == old(Values(ko.conditions))[i := old(c.Value()).(status := status, message := message)]
  {
    c.status := status;
    c.message := message;
  }

  method Append(ko: Resource, kind: ConditionType) returns (c: Condition)
    requires Distinct(ko.conditions)
    modifies ko
    ensures fresh(c) && ko.conditions == old(ko.conditions) + [c] && Distinct(ko.conditions)
    ensures Values(ko.conditions) == old(Values(ko.conditions)) + [ConditionValue(kind, Unset, None, None)]
  {
    c := new Condition(kind);
    ko.conditions := ko.conditions + [c];
  }

  /** Where the source finds the condition missing, it appends one and then writes to it. */
  method PutCondition(ko: Resource, found: Condition?, kind: ConditionType, message: string)
    requires Distinct(ko.conditions) && IsAt(ko.conditions, LastOf(Values(ko.conditions), kind), found)
    modifies ko, found
    ensures Distinct(ko.conditions) && old(ko.conditions) <= ko.conditions
    ensures forall x :: x in ko.conditions ==> x in old(ko.conditions) || fresh(x)
    ensures Values(ko.conditions) == Put(old(Values(ko.conditions)), kind, message)
  {
    ghost var i := LastOf(Values(ko.conditions), kind);
    var c := found;
    if c == null {
      i := |ko.conditions|;
      c := Append(ko, kind);
    }
    Write(ko, c, IsTrue, Some(message), i);
  }

  method ClearCondition(ko: Resource, found: Condition?, kind: ConditionType)
    requires Distinct(ko.conditions) && IsAt(ko.conditions, LastOf(Values(ko.conditions), kind), found)
    modifies found
    ensures Values(ko.conditions) == Clear(old(Values(ko.conditions)), kind)
  {
    if found != null {
      Write(ko, found, IsFalse, None, LastOf(Values(ko.conditions), kind));
    }
  }

  lemma {:induction false} LastOfCleared(cs: seq<ConditionValue>, kind: ConditionType, other: ConditionType)
    ensures LastOf(Clear(cs, other), kind) == LastOf(cs, kind)
  {
    var cleared := Clear(cs, other);
    assert |cleared| == |cs| && forall i :: 0 <= i < |cs| ==> cleared[i].kind == cs[i].kind;
  }

  /** The part of updateConditions that writes: the terminal condition alone, or both. */
  method Record(ko: Resource, terminal: Condition?, recoverable: Condition?, err: Option<Error>)
    requires Distinct(ko.conditions)
    requires IsAt(ko.conditions, LastOf(Values(ko.conditions), Terminal), terminal)
    requires IsAt(ko.conditions, LastOf(Values(ko.conditions), Recoverable), recoverable)
    modifies ko, terminal, recoverable
    ensures forall x :: x in ko.conditions ==> x in old(ko.conditions) || fresh(x)
    ensures Values(ko.conditions) == Updated(old(Values(ko.conditions)), err)
  {
    if IsTerminal(err) {
      PutCondition(ko, terminal, Terminal, MessageOf(err.value, true));
    } else {
      LastOfCleared(Values(ko.conditions), Recoverable, Terminal);
      ClearCondition(ko, terminal, Terminal);
      if err.Some? {
        PutCondition(ko, recoverable, Recoverable, MessageOf(err.value, false));
      } else {
        ClearCondition(ko, recoverable, Recoverable);
      }
    }
  }

  lemma {:induction false} LastOfUnique(cs: seq<ConditionValue>, kind: ConditionType, i: int)
    requires -1 <= i < |cs| && (i >= 0 ==> cs[i].kind == kind)
    requires forall j :: i < j < |cs| ==> cs[j].kind != kind
    ensures LastOf(cs, kind) == i
  {
  }

  lemma {:induction false} LastOfPut(cs: seq<ConditionValue>, kind: ConditionType, message: string,
                                     other: ConditionType)
    ensures LastOf(Put(cs, kind, message), other) ==
      if other == kind && LastOf(cs, kind) < 0 then |cs| else LastOf(cs, other)
  {
    var i := if other == kind && LastOf(cs, kind) < 0 then |cs| else LastOf(cs, other);
    LastOfUnique(Put(cs, kind, message), other, i);
  }

  /** Only a success on a resource without any such condition is not worth recording. */
  lemma {:induction false} ConcernedIff(cs: seq<ConditionValue>, err: Option<Error>)
    ensures Concerned(Updated(cs, err)) <==>
      err.Some? || LastOf(cs, Terminal) >= 0 || LastOf(cs, Recoverable) >= 0 || LastOf(cs, ResourceSynced) >= 0
  {
    var now := Updated(cs, err);
    if err.None? {
      assert |now| == |cs| && forall i :: 0 <= i < |cs| ==> now[i].kind == cs[i].kind;
    } else if IsTerminal(err) {
      LastOfPut(cs, Terminal, MessageOf(err.value, true), Terminal);
      assert now[LastOf(now, Terminal)].kind == Terminal;
    } else {
      LastOfPut(Clear(cs, Terminal), Recoverable, MessageOf(err.value, false), Recoverable);
      assert now[LastOf(now, Recoverable)].kind == Recoverable;
    }
  }

  /** The body of updateConditions after the copy has been made. */
  method UpdateInPlace(ko: Resource, err: Option<Error>) returns (updated: bool)
    requires Distinct(ko.conditions)
    modifies ko, set c | c in ko.conditions
    ensures updated <==> Concerned(Values(ko.conditions))
    ensures forall x :: x in ko.conditions ==> x in old(ko.conditions) || fresh(x)
    ensures Values(ko.conditions) == Updated(old(Values(ko.conditions)), err)
  {
    var terminal, recoverable, sync := FindConditions(ko.conditions);
    ConcernedIff(Values(ko.conditions), err);
    assert terminal != null ==> terminal in ko.conditions;
    assert recoverable != null ==> recoverable in ko.conditions;
    Record(ko, terminal, recoverable, err);
    return err.Some? || terminal != null || recoverable != null || sync != null;
  }

  /** Works on a copy: the resource it was given, and the conditions of that resource, stay as they
      are, whoever else holds them. */
  method UpdateConditions(r: Resource, err: Option<Error>) returns (r1: Resource?)
    ensures r1 != null <==> Concerned(Updated(Values(r.conditions), err))
    ensures r1 != null ==> fresh(r1) && forall c :: c in r1.conditions ==> fresh(c)
    ensures r1 != null ==> Values(r1.conditions) == Updated(Values(r.conditions), err)
  {
    var ko := DeepCopyConditions(r);
    var updated := UpdateInPlace(ko, err);
    return if updated then ko else null;
  }

  // ----- outcomes -----

  datatype Returned = SameError | TerminalSentinel

  ghost predicate HasTrueTerminal(cs: seq<ConditionValue>) {
    exists i :: 0 <= i < |cs| && cs[i].kind == Terminal && cs[i].status == IsTrue
  }

  /** The condition of this kind says True, with this message. */
  ghost predicate Says(cs: seq<ConditionValue>, kind: ConditionType, message: string) {
    var i := LastOf(cs, kind);
    i >= 0 && cs[i].status == IsTrue && cs[i].message == Some(message)
  }

  /** The condition of this kind is missing or not True. */
  ghost predicate Silent(cs: seq<ConditionValue>, kind: ConditionType) {
    var i := LastOf(cs, kind);
    i >= 0 ==> cs[i].status != IsTrue
  }

  ghost predicate AtMostOne(cs: seq<ConditionValue>, kind: ConditionType) {
    forall i, j :: 0 <= i < j < |cs| ==> cs[i].kind != kind || cs[j].kind != kind
  }

  /** There is no condition of this kind, or the last one is False and has no message. */
  ghost predicate Cleared(cs: seq<ConditionValue>, kind: ConditionType) {
    var i := LastOf(cs, kind);
    i >= 0 ==> cs[i].status == IsFalse && cs[i].message == None
  }

  ghost predicate HasTerminalCode(err: Error) {
    err.aws.Some? && err.aws.value.code in {"InvalidParameterException", "InvalidRequestException"}
  }

  /** What is left of an error, by the fields of the error: secret errors and TerminalErrors are
      terminal with their own text, AWS errors with one of two codes are with the AWS text, and any
      other error is recoverable, with the AWS text if there is one. */
  ghost predicate TellsError(cs: seq<ConditionValue>, err: Error, sentinel: bool) {
    if err.isSecretError || err.wrapsTerminal then sentinel && Says(cs, Terminal, err.text)
    else if HasTerminalCode(err) then sentinel && Says(cs, Terminal, err.aws.value.text)
    else
      && !sentinel && Cleared(cs, Terminal)
      && Says(cs, Recoverable, if err.aws.Some? then err.aws.value.text else err.text)
  }

  /** The sentinel is returned for every terminal error, and else exactly when an earlier Terminal
      condition than the one that is kept up to date is left standing. */
  lemma {:induction false} SentinelIff(cs: seq<ConditionValue>, err: Error)
    ensures HasTrueTerminal(Updated(cs, Some(err))) <==>
      IsTerminal(Some(err)) || HasTrueTerminal(cs[..if LastOf(cs, Terminal) < 0 then 0 else LastOf(cs, Terminal)])
  {
    var last := LastOf(cs, Terminal);
    var now := Updated(cs, Some(err));
    if IsTerminal(Some(err)) {
      var i := if last < 0 then |cs| else last;
      assert now[i].kind == Terminal && now[i].status == IsTrue;
    } else {
      assert forall i :: 0 <= i < |cs| && i != last && cs[i].kind == Terminal ==> i < last && now[i] == cs[i];
      if HasTrueTerminal(now) {
        var i :| 0 <= i < |now| && now[i].kind == Terminal && now[i].status == IsTrue;
        assert i < |cs| && i != last && cs[..last][i] == cs[i];
      }
      if last >= 0 && HasTrueTerminal(cs[..last]) {
        var i :| 0 <= i < last && cs[..last][i].kind == Terminal && cs[..last][i].status == IsTrue;
        assert now[i] == cs[i];
      }
    }
  }

  lemma {:induction false} PutSays(cs: seq<ConditionValue>, kind: ConditionType, message: string,
                                   other: ConditionType, m: string)
    ensures Says(Put(cs, kind, message), kind, message)
    ensures other != kind ==> (Says(Put(cs, kind, message), other, m) <==> Says(cs, other, m))
    ensures other != kind ==> (Silent(Put(cs, kind, message), other) <==> Silent(cs, other))
  {
    LastOfPut(cs, kind, message, kind);
    LastOfPut(cs, kind, message, other);
  }

  lemma {:induction false} ClearSilent(cs: seq<ConditionValue>, kind: ConditionType, other: ConditionType, m: string)
    ensures Silent(Clear(cs, kind), kind)
    ensures other != kind ==> (Says(Clear(cs, kind), other, m) <==> Says(cs, other, m))
    ensures other != kind ==> (Silent(Clear(cs, kind), other) <==> Silent(cs, other))
  {
    LastOfCleared(cs, kind, kind);
    LastOfCleared(cs, other, kind);
  }

  /** What one outcome does to the two conditions. */
  lemma {:induction false} UpdateSays(cs: seq<ConditionValue>, err: Option<Error>, m: string)
    ensures IsTerminal(err) ==> Says(Updated(cs, err), Terminal, MessageOf(err.value, true))
    ensures !IsTerminal(err) ==> Silent(Updated(cs, err), Terminal)
    ensures IsTerminal(err) ==> (Says(Updated(cs, err), Recoverable, m) <==> Says(cs, Recoverable, m))
    ensures IsTerminal(err) ==> (Silent(Updated(cs, err), Recoverable) <==> Silent(cs, Recoverable))
    ensures !IsTerminal(err) && err.Some? ==> Says(Updated(cs, err), Recoverable, MessageOf(err.value, false))
    ensures err.None? ==> Silent(Updated(cs, err), Recoverable)
  {
    ClearSilent(cs, Terminal, Recoverable, m);
    if IsTerminal(err) {
      PutSays(cs, Terminal, MessageOf(err.value, true), Recoverable, m);
    } else if err.Some? {
      PutSays(Clear(cs, Terminal), Recoverable, MessageOf(err.value, false), Terminal, m);
    } else {
      ClearSilent(Clear(cs, Terminal), Recoverable, Terminal, m);
    }
  }

  lemma {:induction false} SentinelOfOne(cs: seq<ConditionValue>, err: Error)
    requires AtMostOne(cs, Terminal)
    ensures HasTrueTerminal(Updated(cs, Some(err))) <==> IsTerminal(Some(err))
  {
    SentinelIff(cs, err);
    var last := LastOf(cs, Terminal);
    assert last >= 0 ==> forall i :: 0 <= i < last ==> cs[..last][i].kind != Terminal;
  }

  lemma {:induction false} TerminalCleared(cs: seq<ConditionValue>, message: string)
    ensures Cleared(Put(Clear(cs, Terminal), Recoverable, message), Terminal)
  {
    LastOfCleared(cs, Terminal, Terminal);
    LastOfPut(Clear(cs, Terminal), Recoverable, message, Terminal);
  }

  lemma {:induction false} UpdateTellsError(cs: seq<ConditionValue>, err: Error)
    ensures AtMostOne(cs, Terminal) ==>
      TellsError(Updated(cs, Some(err)), err, HasTrueTerminal(Updated(cs, Some(err))))
  {
    if AtMostOne(cs, Terminal) {
      SentinelOfOne(cs, err);
      UpdateSays(cs, Some(err), "");
      TerminalCleared(cs, MessageOf(err, false));
    }
  }

  /** Only the last condition of either kind is touched, for a terminal error only that of its kind;
      kind and reason stay, and what is added comes last and has no reason. */
  lemma {:induction false} OnlyLastTouched(cs: seq<ConditionValue>, err: Option<Error>, i: nat)
    requires i < |Updated(cs, err)|
    ensures i < |cs| && Updated(cs, err)[i] != cs[i] ==>
      && (i == LastOf(cs, Terminal) || (i == LastOf(cs, Recoverable) && !IsTerminal(err)))
      && Updated(cs, err)[i].kind == cs[i].kind && Updated(cs, err)[i].reason == cs[i].reason
    ensures i >= |cs| ==>
      && i == |cs| && err.Some? && Updated(cs, err)[i].reason == None && Updated(cs, err)[i].status == IsTrue
      && Updated(cs, err)[i].kind == if IsTerminal(err) then Terminal else Recoverable
  {
    LastOfCleared(cs, Recoverable, Terminal);
  }

  /** The loop of onError. */
  method ShowsTerminal(conditions: seq<Condition>) returns (found: bool)
    ensures found <==> HasTrueTerminal(Values(conditions))
  {
    for i := 0 to |conditions|
      invariant forall j :: 0 <= j < i ==> conditions[j].kind != Terminal || conditions[j].status != IsTrue
    {
      var condition := conditions[i];
      if condition.kind == Terminal && condition.status == IsTrue {
        assert Values(conditions)[i] == condition.Value();
        return true;
      }
    }
    return false;
  }

  method OnError(r: Resource?, err: Error) returns (r1: Resource?, out: Returned)
    ensures r == null ==> r1 == null && out == SameError
    ensures r != null ==> r1 != null && fresh(r1) && Values(r1.conditions) == Updated(Values(r.conditions), Some(err))
    ensures r != null ==> (out == TerminalSentinel <==> HasTrueTerminal(Updated(Values(r.conditions), Some(err))))
    ensures r != null && AtMostOne(Values(r.conditions), Terminal) ==>
      TellsError(Values(r1.conditions), err, out == TerminalSentinel)
  {
    if r == null {
      return null, SameError;
    }
    r1 := UpdateConditions(r, Some(err));
    ConcernedIff(Values(r.conditions), Some(err));
    UpdateTellsError(Values(r.conditions), err);
    var terminal := ShowsTerminal(r1.conditions);
    return r1, if terminal then TerminalSentinel else SameError;
  }

  lemma {:induction false} SuccessClears(cs: seq<ConditionValue>)
    ensures Cleared(Updated(cs, None), Terminal) && Cleared(Updated(cs, None), Recoverable)
  {
    LastOfCleared(cs, Terminal, Terminal);
    LastOfCleared(Clear(cs, Terminal), Recoverable, Recoverable);
    LastOfCleared(Clear(cs, Terminal), Terminal, Recoverable);
  }

  method OnSuccess(r: Resource?) returns (r1: Resource?)
    ensures r == null ==> r1 == null
    ensures r != null ==> r1 != null && Values(r1.conditions) == Updated(Values(r.conditions), None)
    ensures r != null ==> Cleared(Values(r1.conditions), Terminal) && Cleared(Values(r1.conditions), Recoverable)
    ensures r != null ==> r1 == r || fresh(r1)
  {
    if r == null {
      return null;
    }
    r1 := UpdateConditions(r, None);
    SuccessClears(Values(r.conditions));
    if r1 == null {
      ConcernedIff(Values(r.conditions), None);
      return r;
    }
  }

  /** Two Terminal conditions, of which the first says True: any error becomes terminal. */
  lemma {:induction false} StaleTerminal(first: ConditionValue, second: ConditionValue, err: Error)
    requires first.kind == second.kind == Terminal && first.status == IsTrue
    ensures HasTrueTerminal(Updated([first, second], Some(err)))
  {
    assert LastOf([first, second], Terminal) == 1;
    assert [first, second][..1][0] == first;
    SentinelIff([first, second], err);
  }

  // ----- sequences of outcomes -----

  /** The conditions after these outcomes, a success being no error. */
  ghost function History(cs: seq<ConditionValue>, outcomes: seq<Option<Error>>): seq<ConditionValue> {
    if outcomes == [] then cs
    else Updated(History(cs, outcomes[..|outcomes| - 1]), outcomes[|outcomes| - 1])
  }

  /** `later` continues `earlier`: same conditions at the same positions, those of other types
      untouched. */
  ghost predicate Continues(earlier: seq<ConditionValue>, later: seq<ConditionValue>) {
    && |earlier| <= |later|
    && forall i :: 0 <= i < |earlier| ==>
         && later[i].kind == earlier[i].kind && later[i].reason == earlier[i].reason
         && (earlier[i].kind != Terminal && earlier[i].kind != Recoverable ==> later[i] == earlier[i])
  }

  lemma {:induction false} PutShape(cs: seq<ConditionValue>, kind: ConditionType, message: string, other: ConditionType)
    requires AtMostOne(cs, other) && (kind == Terminal || kind == Recoverable)
    ensures AtMostOne(Put(cs, kind, message), other) && Continues(cs, Put(cs, kind, message))
    ensures |Put(cs, kind, message)| <= |cs| + 1
  {
  }

  lemma {:induction false} ClearShape(cs: seq<ConditionValue>, kind: ConditionType, other: ConditionType)
    requires AtMostOne(cs, other) && (kind == Terminal || kind == Recoverable)
    ensures AtMostOne(Clear(cs, kind), other) && Continues(cs, Clear(cs, kind))
    ensures |Clear(cs, kind)| == |cs|
  {
  }

  lemma {:induction false} KindShape(cs: seq<ConditionValue>, err: Option<Error>, kind: ConditionType)
    requires AtMostOne(cs, kind)
    ensures AtMostOne(Updated(cs, err), kind) && Continues(cs, Updated(cs, err)) && |Updated(cs, err)| <= |cs| + 1
  {
    if IsTerminal(err) {
      PutShape(cs, Terminal, MessageOf(err.value, true), kind);
    } else {
      ClearShape(cs, Terminal, kind);
      if err.Some? {
        PutShape(Clear(cs, Terminal), Recoverable, MessageOf(err.value, false), kind);
      } else {
        ClearShape(Clear(cs, Terminal), Recoverable, kind);
      }
    }
  }

  lemma {:induction false} UpdateShape(cs: seq<ConditionValue>, err: Option<Error>)
    requires AtMostOne(cs, Terminal) && AtMostOne(cs, Recoverable)
    ensures AtMostOne(Updated(cs, err), Terminal) && AtMostOne(Updated(cs, err), Recoverable)
    ensures Continues(cs, Updated(cs, err))
    ensures |Updated(cs, err)| <= |cs| + 1
  {
    KindShape(cs, err, Terminal);
    KindShape(cs, err, Recoverable);
  }

  /** However many outcomes there are, each of the two conditions exists at most once, and what was
      there keeps its place. */
  lemma {:induction false} HistoryShape(cs: seq<ConditionValue>, outcomes: seq<Option<Error>>)
    requires AtMostOne(cs, Terminal) && AtMostOne(cs, Recoverable)
    ensures AtMostOne(History(cs, outcomes), Terminal) && AtMostOne(History(cs, outcomes), Recoverable)
    ensures Continues(cs, History(cs, outcomes))
  {
    if outcomes != [] {
      var before := outcomes[..|outcomes| - 1];
      HistoryShape(cs, before);
      UpdateShape(History(cs, before), outcomes[|outcomes| - 1]);
    }
  }

  /** The last outcome that is not a terminal error, or -1. */
  ghost function LastNonTerminal(outcomes: seq<Option<Error>>): (k: int)
    ensures -1 <= k < |outcomes|
    ensures k >= 0 ==> !IsTerminal(outcomes[k])
    ensures forall j :: k < j < |outcomes| ==> IsTerminal(outcomes[j])
  {
    if outcomes == [] then -1
    else if !IsTerminal(outcomes[|outcomes| - 1]) then |outcomes| - 1
    else LastNonTerminal(outcomes[..|outcomes| - 1])
  }

  /** Terminal is True exactly when the last outcome was a terminal error, and has its text. */
  lemma {:induction false} TerminalTellsLast(cs: seq<ConditionValue>, outcomes: seq<Option<Error>>)
    requires outcomes != []
    ensures var last := outcomes[|outcomes| - 1];
      if IsTerminal(last) then Says(History(cs, outcomes), Terminal, MessageOf(last.value, true))
      else Silent(History(cs, outcomes), Terminal)
  {
    UpdateSays(History(cs, outcomes[..|outcomes| - 1]), outcomes[|outcomes| - 1], "");
  }

  /** Recoverable is True exactly when the most recent outcome that is not a terminal error was an
      error, and has its text, no matter how many terminal errors came after it. If all outcomes were
      terminal errors, it says what it said at first. */
  lemma {:induction false} RecoverableTellsLastNonTerminal(cs: seq<ConditionValue>, outcomes: seq<Option<Error>>,
                                                           m: string)
    ensures var k := LastNonTerminal(outcomes);
      if k < 0 then
        && (Says(History(cs, outcomes), Recoverable, m) <==> Says(cs, Recoverable, m))
        && (Silent(History(cs, outcomes), Recoverable) <==> Silent(cs, Recoverable))
      else if outcomes[k].Some? then Says(History(cs, outcomes), Recoverable, MessageOf(outcomes[k].value, false))
      else Silent(History(cs, outcomes), Recoverable)
  {
    if outcomes != [] {
      var n := |outcomes| - 1;
      var k := LastNonTerminal(outcomes);
      RecoverableTellsLastNonTerminal(cs, outcomes[..n], m);
      UpdateSays(History(cs, outcomes[..n]), outcomes[n],
                 if k >= 0 && outcomes[k].Some? then MessageOf(outcomes[k].value, false) else m);
    }
  }

  /** From at most one condition of each kind, after any outcomes, every error leaves what its fields
      say. */
  lemma {:induction false} HistoryTellsError(cs: seq<ConditionValue>, outcomes: seq<Option<Error>>, err: Error)
    requires AtMostOne(cs, Terminal) && AtMostOne(cs, Recoverable)
    ensures var now := History(cs, outcomes + [Some(err)]); TellsError(now, err, HasTrueTerminal(now))
  {
    HistoryShape(cs, outcomes);
    UpdateTellsError(History(cs, outcomes), err);
    assert (outcomes + [Some(err)])[..|outcomes|] == outcomes;
  }

  /** Threaded through any outcomes from a resource with at most one Terminal condition, an error
      yields the sentinel exactly when it is terminal. */
  lemma {:induction false} SentinelTellsTerminal(cs: seq<ConditionValue>, outcomes: seq<Option<Error>>, err: Error)
    requires AtMostOne(cs, Terminal) && AtMostOne(cs, Recoverable)
    ensures HasTrueTerminal(Updated(History(cs, outcomes), Some(err))) <==> IsTerminal(Some(err))
  {
    HistoryShape(cs, outcomes);
    SentinelIff(History(cs, outcomes), err);
  }
}
