/** The decision logic of cmd/up.go: the yes/no prompt over a stream of
    runes, the change-set name, the operation kind, and the empty-stack
    overwrite path that runs before the change set is created. */
module Up {
  import opened Wrappers
  import opened Text
  import opened Cfn
  import opened Data

  // ---------------------------------------------------------------------
  // The yes/no prompt

  /** Standard input: the runes available, then the error `ReadRune` returns
      once they are used up (`io.EOF`, or a read failure). */
  datatype Stdin = Stdin(runes: seq<char>, endError: string)

  /** The prompt's answer and how many runes it read. */
  datatype Reply = Reply(answer: Result<bool, string>, consumed: nat)

  /** `unicode.ToLower(c) == 'y'`; only `y` and `Y` lower to `y`. */
  predicate IsYes(c: char) { LowerChar(c) == 'y' }

  /** `unicode.ToLower(c) == 'n'`; only `n` and `N` lower to `n`. */
  predicate IsNo(c: char) { LowerChar(c) == 'n' }

  predicate Decides(c: char) { IsYes(c) || IsNo(c) }

  /** `askYesNoQuestion`: reads runes until the first that lowers to `y`
      (yes) or `n` (no), re-prompting after each other rune; if the input
      ends first, the read error is returned. */
  function AskYesNo(input: Stdin): (r: Reply)
    ensures r.consumed <= |input.runes|
    ensures r.answer.Ok? <==> exists i :: 0 <= i < |input.runes| && Decides(input.runes[i])
    ensures r.answer.Ok? ==>
      && r.consumed > 0
      && Decides(input.runes[r.consumed - 1])
      && r.answer.value == IsYes(input.runes[r.consumed - 1])
      && forall i :: 0 <= i < r.consumed - 1 ==> !Decides(input.runes[i])
    ensures r.answer.Err? ==> r.answer.error == input.endError && r.consumed == |input.runes|
    decreases |input.runes|
  {
    if |input.runes| == 0 then Reply(Err(input.endError), 0)
    else if IsYes(input.runes[0]) then Reply(Ok(true), 1)
    else if IsNo(input.runes[0]) then Reply(Ok(false), 1)
    else
      var rest := AskYesNo(Stdin(input.runes[1..], input.endError));
      assert forall i :: 1 <= i < |input.runes| ==> input.runes[i] == input.runes[1..][i - 1];
      Reply(rest.answer, rest.consumed + 1)
  }

  /** Once a deciding rune has been read, nothing after it is consumed: the
      reply is the same whatever follows and however the input ends. */
  lemma {:induction false} AskYesNoIgnoresLaterInput(runes: seq<char>, more: seq<char>, err1: string, err2: string)
    requires exists i :: 0 <= i < |runes| && Decides(runes[i])
    ensures AskYesNo(Stdin(runes + more, err1)) == AskYesNo(Stdin(runes, err2))
    decreases |runes|
  {
    if !Decides(runes[0]) {
      assert (runes + more)[1..] == runes[1..] + more;
      var i :| 0 <= i < |runes| && Decides(runes[i]);
      assert runes[1..][i - 1] == runes[i];
      AskYesNoIgnoresLaterInput(runes[1..], more, err1, err2);
    }
  }

  /** Runes before the first y/n are skipped: the reply to them followed by
      `c` is the reply to `c`, shifted by how many were skipped. */
  lemma {:induction false} AskYesNoSkipsOthers(skipped: seq<char>, rest: seq<char>, err: string)
    requires forall i :: 0 <= i < |skipped| ==> !Decides(skipped[i])
    ensures var whole := AskYesNo(Stdin(skipped + rest, err));
            var tail := AskYesNo(Stdin(rest, err));
            whole.answer == tail.answer && whole.consumed == |skipped| + tail.consumed
    decreases |skipped|
  {
    if |skipped| > 0 {
      assert (skipped + rest)[0] == skipped[0];
      assert (skipped + rest)[1..] == skipped[1..] + rest;
      AskYesNoSkipsOthers(skipped[1..], rest, err);
    } else {
      assert skipped + rest == rest;
    }
  }

  // ---------------------------------------------------------------------
  // Names and operation kind

  /** The change-set name: the stack name, a dash, the Unix seconds in
      decimal. */
  function ChangeSetName(stackName: string, unixSeconds: int): string
  {
    stackName + "-" + IntToDecimal(unixSeconds)
  }

  /** The stack name and the time can be read back from a change-set name. */
  lemma ChangeSetNameReadsBack(stackName: string, unixSeconds: nat)
    ensures var name := ChangeSetName(stackName, unixSeconds);
            && |name| > |stackName| + 1
            && name[..|stackName|] == stackName
            && name[|stackName|] == '-'
            && (forall i :: |stackName| < i < |name| ==> IsDigit(name[i]))
            && DecimalValue(name[|stackName| + 1..]) == unixSeconds
  {
    var name := ChangeSetName(stackName, unixSeconds);
    var digits := NatToDecimal(unixSeconds);
    assert name == stackName + "-" + digits;
    assert name[|stackName| + 1..] == digits;
    forall i | |stackName| < i < |name| ensures IsDigit(name[i]) {
      assert name[i] == digits[i - |stackName| - 1];
    }
    DecimalRoundTrip(unixSeconds);
  }

  /** Update exactly when the stack exists, otherwise Create. */
  function OperationFor(stackExists: bool): (op: StackOperation)
    ensures op == Update <==> stackExists
    ensures op == Create <==> !stackExists
  {
    if stackExists then Update else Create
  }

  // ---------------------------------------------------------------------
  // The overwrite path, as written

  /** What `handleOverwrite` did: whether it asked, whether it requested the
      deletion, and the error it returned. */
  datatype OverwriteResult = OverwriteResult(asked: bool, deleteRequested: bool, err: Option<string>)

  /** `handleOverwrite`: with `overwrite` set, delete without asking;
      otherwise ask, and delete on yes. A read error or a deletion error is
      returned; declining returns no error. Its `exists = false` is a store
      to a parameter and reaches no caller, so it has no counterpart here. */
  function HandleOverwrite(overwrite: bool, input: Stdin, deleteErr: Option<string>): (r: OverwriteResult)
    ensures r.asked <==> !overwrite
    ensures r.deleteRequested <==> overwrite || AskYesNo(input).answer == Ok(true)
    ensures r.deleteRequested ==> r.err == deleteErr
    ensures !overwrite && AskYesNo(input).answer == Ok(false) ==> r.err == None
    ensures !overwrite && AskYesNo(input).answer.Err? ==> r.err == Some(input.endError)
  {
    if overwrite then OverwriteResult(false, true, deleteErr)
    else
      match AskYesNo(input).answer
      case Err(e) => OverwriteResult(true, false, Some(e))
      case Ok(yes) => if yes then OverwriteResult(true, true, deleteErr) else OverwriteResult(true, false, None)
  }

  /** The results of the remote calls `Up` makes before creating the change
      set. */
  datatype Remote = Remote(
    credentialsErr: Option<string>,
    stackExists: Result<bool, string>,
    stackEmpty: bool,
    deleteErr: Option<string>)

  /** The change set `Up` goes on to create and display. */
  datatype ChangeSetRequest = ChangeSetRequest(
    info: StackInfo,
    isUpdate: bool,
    operation: StackOperation,
    stackDeleted: bool)

  /** `Up` up to the creation of the change set, as written: after the
      overwrite path, whatever it did, the change set is requested with the
      `exists` value read before it. */
  function UpAsWritten(stackName: string, overwrite: bool, unixSeconds: int, remote: Remote, input: Stdin): (r: Result<ChangeSetRequest, string>)
    ensures remote.credentialsErr.Some? ==> r == Err(remote.credentialsErr.value)
    ensures remote.credentialsErr.None? && remote.stackExists.Err? ==> r == Err(remote.stackExists.error)
    ensures remote.credentialsErr.None? && remote.stackExists.Ok? && r.Err? ==>
      Some(r.error) == HandleOverwrite(overwrite, input, remote.deleteErr).err
    ensures r.Ok? <==>
      && remote.credentialsErr.None? && remote.stackExists.Ok?
      && !(remote.stackExists.value && remote.stackEmpty
           && HandleOverwrite(overwrite, input, remote.deleteErr).err.Some?)
    ensures r.Ok? ==>
      && r.value.info == StackInfo("", ChangeSetName(stackName, unixSeconds), stackName)
      && r.value.isUpdate == remote.stackExists.value
      && r.value.operation == OperationFor(remote.stackExists.value)
      && (r.value.stackDeleted <==>
            remote.stackExists.value && remote.stackEmpty
            && HandleOverwrite(overwrite, input, remote.deleteErr).deleteRequested)
  {
    var info := StackInfo("", ChangeSetName(stackName, unixSeconds), stackName);
    if remote.credentialsErr.Some? then Err(remote.credentialsErr.value)
    else if remote.stackExists.Err? then Err(remote.stackExists.error)
    else
      var stackExists := remote.stackExists.value;
      if stackExists && remote.stackEmpty then
        var o := HandleOverwrite(overwrite, input, remote.deleteErr);
        if o.err.Some? then Err(o.err.value)
        else Ok(ChangeSetRequest(info, stackExists, OperationFor(stackExists), o.deleteRequested))
      else Ok(ChangeSetRequest(info, stackExists, OperationFor(stackExists), false))
  }

  /** After deleting an empty stack, the change set is still requested as an
      update of it. */
  lemma UpdateAfterDeletion()
    ensures var r := UpAsWritten("app", true, 0, Remote(None, Ok(true), true, None), Stdin([], "EOF"));
            r.Ok? && r.value.stackDeleted && r.value.isUpdate && r.value.operation == Update
  {
  }

  /** After the user declines the deletion and "Terminating" is printed, the
      command still goes on to request the change set. */
  lemma ProceedsAfterDecline()
    ensures var r := UpAsWritten("app", false, 0, Remote(None, Ok(true), true, None), Stdin(['n'], "EOF"));
            r.Ok? && !r.value.stackDeleted && r.value.isUpdate
  {
  }

  // ---------------------------------------------------------------------
  // The overwrite path, as evidently intended

  /** What the command should do after the overwrite path. */
  datatype OverwriteDecision = Proceed(stackExists: bool) | Stop | Abort(err: string)

  /** The overwrite path returning its decision: after a deletion the stack
      no longer exists; a decline stops the command without an error. */
  function DecideOverwrite(overwrite: bool, input: Stdin, deleteErr: Option<string>): (d: OverwriteDecision)
    ensures d == Proceed(false) <==> HandleOverwrite(overwrite, input, deleteErr).deleteRequested && deleteErr.None?
    ensures d == Stop <==> !overwrite && AskYesNo(input).answer == Ok(false)
    ensures d.Abort? <==> HandleOverwrite(overwrite, input, deleteErr).err.Some?
    ensures d.Abort? ==> Some(d.err) == HandleOverwrite(overwrite, input, deleteErr).err
    ensures !d.Proceed? || d == Proceed(false)
  {
    var o := HandleOverwrite(overwrite, input, deleteErr);
    if o.err.Some? then Abort(o.err.value)
    else if o.deleteRequested then Proceed(false)
    else Stop
  }

  /** `Up` with the overwrite decision honoured: `Ok(None)` when the user
      declined the deletion. */
  function Up(stackName: string, overwrite: bool, unixSeconds: int, remote: Remote, input: Stdin): (r: Result<Option<ChangeSetRequest>, string>)
    ensures r.Ok? && r.value.Some? ==>
      var req := r.value.value;
      && req.info == StackInfo("", ChangeSetName(stackName, unixSeconds), stackName)
      && req.operation == OperationFor(req.isUpdate)
      && (req.stackDeleted ==> !req.isUpdate && req.operation == Create)
      && (req.isUpdate <==> remote.stackExists == Ok(true) && !req.stackDeleted)
    ensures r == Ok(None) <==>
      && remote.credentialsErr.None? && remote.stackExists == Ok(true) && remote.stackEmpty
      && !overwrite && AskYesNo(input).answer == Ok(false)
    ensures remote.credentialsErr.Some? ==> r == Err(remote.credentialsErr.value)
    ensures remote.credentialsErr.None? && remote.stackExists.Err? ==> r == Err(remote.stackExists.error)
    ensures r.Err? <==>
      || remote.credentialsErr.Some? || remote.stackExists.Err?
      || (remote.stackExists == Ok(true) && remote.stackEmpty
          && DecideOverwrite(overwrite, input, remote.deleteErr).Abort?)
    ensures remote.credentialsErr.None? && remote.stackExists.Ok? && r.Err? ==>
      Some(r.error) == HandleOverwrite(overwrite, input, remote.deleteErr).err
    ensures remote.credentialsErr.None? && remote.stackExists == Ok(true) && remote.stackEmpty
            && DecideOverwrite(overwrite, input, remote.deleteErr) == Proceed(false) ==>
      && r.Ok? && r.value.Some?
      && r.value.value.stackDeleted && r.value.value.operation == Create
    ensures r.Ok? && r.value.Some? ==>
      (r.value.value.stackDeleted <==> remote.stackExists == Ok(true) && remote.stackEmpty)
  {
    var info := StackInfo("", ChangeSetName(stackName, unixSeconds), stackName);
    if remote.credentialsErr.Some? then Err(remote.credentialsErr.value)
    else if remote.stackExists.Err? then Err(remote.stackExists.error)
    else
      var stackExists := remote.stackExists.value;
      if stackExists && remote.stackEmpty then
        match DecideOverwrite(overwrite, input, remote.deleteErr)
        case Abort(e) => Err(e)
        case Stop => Ok(None)
        case Proceed(stillExists) =>
          Ok(Some(ChangeSetRequest(info, stillExists, OperationFor(stillExists), true)))
      else Ok(Some(ChangeSetRequest(info, stackExists, OperationFor(stackExists), false)))
  }

  /** Where the code as written goes on, the intended version agrees with it
      except that a deleted stack is recreated rather than updated. */
  lemma UpAgreesWhenNothingDeleted(stackName: string, overwrite: bool, unixSeconds: int, remote: Remote, input: Stdin)
    requires UpAsWritten(stackName, overwrite, unixSeconds, remote, input).Ok?
    requires !UpAsWritten(stackName, overwrite, unixSeconds, remote, input).value.stackDeleted
    requires Up(stackName, overwrite, unixSeconds, remote, input) != Ok(None)
    ensures Up(stackName, overwrite, unixSeconds, remote, input)
         == Ok(Some(UpAsWritten(stackName, overwrite, unixSeconds, remote, input).value))
  {
  }
}
