/**
 * The poll-creation form of the frontend: editing the list of option
 * fields, the checks run when the form is submitted, and the condition
 * under which the submit button is enabled.
 */
module CreatePollForm {
  import opened Wrappers
  import Polls

  /** The characters `String.prototype.trim` removes: ECMAScript white space and line terminators. */
  predicate IsJsWhitespace(c: char) {
    var n := c as int;
    || n == 0x09 || n == 0x0A || n == 0x0B || n == 0x0C || n == 0x0D || n == 0x20
    || n == 0xA0 || n == 0x1680 || (0x2000 <= n <= 0x200A) || n == 0x2028 || n == 0x2029
    || n == 0x202F || n == 0x205F || n == 0x3000 || n == 0xFEFF
  }

  /** `!s.trim()`: the text is empty once surrounding white space is removed. */
  predicate IsBlank(s: string) {
    forall k :: 0 <= k < |s| ==> IsJsWhitespace(s[k])
  }

  /** The option fields the form starts with. */
  const InitialOptions: seq<string> := ["", ""]

  /** `handleOptionChange(index, value)`: the field at `index` takes the new text. */
  function EditOption(options: seq<string>, index: int, value: string): (r: seq<string>)
    requires 0 <= index < |options|
    ensures |r| == |options| && r[index] == value
    ensures forall k :: 0 <= k < |r| && k != index ==> r[k] == options[k]
  {
    options[index := value]
  }

  /** `addOption`: one empty field at the end. */
  function AddOption(options: seq<string>): (r: seq<string>)
    ensures |r| == |options| + 1 && r[|options|] == ""
    ensures r[..|options|] == options
  {
    options + [""]
  }

  /** `filter((_, i) => i !== index)`: every field except the one at `index`, in order. */
  function DropIndex(s: seq<string>, index: int): (r: seq<string>)
    ensures 0 <= index < |s| ==> r == s[..index] + s[index + 1..]
    ensures !(0 <= index < |s|) ==> r == s
  {
    if s == [] then []
    else (if index == 0 then [] else [s[0]]) + DropIndex(s[1..], index - 1)
  }

  /** `removeOption(index)`: a field is removed only while more than two remain. */
  function RemoveOption(options: seq<string>, index: int): (r: seq<string>)
    ensures |options| > 2 && 0 <= index < |options| ==> r == options[..index] + options[index + 1..]
    ensures !(|options| > 2 && 0 <= index < |options|) ==> r == options
    ensures |r| >= 2 || r == options
  {
    if |options| > 2 then DropIndex(options, index) else options
  }

  /** Removing the field just added restores the list. */
  lemma RemoveAddedOption(options: seq<string>)
    requires |options| >= 2
    ensures RemoveOption(AddOption(options), |options|) == options
  {
  }

  /** One user action on the option fields. */
  datatype FormEdit = Add | Remove(index: int) | Change(index: int, value: string)

  /**
   * The list after one action. The form renders one text field per existing
   * index, so a change is only issued for an index in range; any other is
   * taken to leave the list alone.
   */
  function ApplyEdit(options: seq<string>, e: FormEdit): (r: seq<string>)
    ensures |options| >= 2 ==> |r| >= 2
  {
    match e
    case Add => AddOption(options)
    case Remove(i) => RemoveOption(options, i)
    case Change(i, v) => if 0 <= i < |options| then EditOption(options, i, v) else options
  }

  function ApplyEdits(options: seq<string>, edits: seq<FormEdit>): seq<string>
    decreases |edits|
  {
    if edits == [] then options else ApplyEdits(ApplyEdit(options, edits[0]), edits[1..])
  }

  /** No sequence of actions takes a list of at least two fields below two. */
  lemma {:induction false} EditsKeepTwoOptions(options: seq<string>, edits: seq<FormEdit>)
    requires |options| >= 2
    ensures |ApplyEdits(options, edits)| >= 2
    decreases |edits|
  {
    if edits != [] {
      EditsKeepTwoOptions(ApplyEdit(options, edits[0]), edits[1..]);
    }
  }

  /** The body of the create request the form posts. */
  datatype CreateRequest = CreateRequest(question: string, options: seq<string>, expiresInMinutes: int)

  /** Why the form refused to submit. */
  datatype SubmitError = MissingQuestion | MissingOption | InvalidDuration

  /**
   * `handleSubmit`, up to the request: a blank question, then any blank
   * option, then a missing or non-positive duration (the parsed value of the
   * time field, `None` when it does not parse) stop it, in that order.
   */
  function Submit(question: string, options: seq<string>, minutes: Option<int>): (r: Result<CreateRequest, SubmitError>)
    ensures r == Err(MissingQuestion) <==> IsBlank(question)
    ensures r == Err(MissingOption) <==>
      !IsBlank(question) && exists k :: 0 <= k < |options| && IsBlank(options[k])
    ensures r == Err(InvalidDuration) <==>
      && !IsBlank(question)
      && (forall k :: 0 <= k < |options| ==> !IsBlank(options[k]))
      && !(minutes.Some? && minutes.value > 0)
    ensures r.Ok? ==> minutes.Some? && minutes.value > 0 && r.value == CreateRequest(question, options, minutes.value)
  {
    if IsBlank(question) then Err(MissingQuestion)
    else if exists k :: 0 <= k < |options| && IsBlank(options[k]) then Err(MissingOption)
    else if minutes.None? || minutes.value <= 0 then Err(InvalidDuration)
    else Ok(CreateRequest(question, options, minutes.value))
  }

  /**
   * A request the form submits from fields it built itself passes the
   * server's create check, and the new poll gets a deadline.
   */
  lemma {:induction false} SubmittedFormIsAccepted(question: string, edits: seq<FormEdit>, minutes: Option<int>, now: int)
    requires Submit(question, ApplyEdits(InitialOptions, edits), minutes).Ok?
    ensures var req := Submit(question, ApplyEdits(InitialOptions, edits), minutes).value;
      && Polls.CreateRequestValid(Some(req.question), Some(req.options))
      && Polls.ExpiryFor(now, Some(req.expiresInMinutes)).Some?
  {
    EditsKeepTwoOptions(InitialOptions, edits);
  }

  /** The indices of the option fields that are filled in. */
  function FilledIndices(options: seq<string>): set<int> {
    set k | 0 <= k < |options| && !IsBlank(options[k])
  }

  /** `options.filter((opt) => opt.trim()).length`: the number of filled option fields. */
  function CountFilled(options: seq<string>): (n: nat)
    ensures n == |FilledIndices(options)|
    ensures n <= |options|
    ensures n == |options| <==> forall k :: 0 <= k < |options| ==> !IsBlank(options[k])
  {
    if options == [] then 0
    else
      var prefix, last := options[..|options| - 1], |options| - 1;
      assert FilledIndices(options) == FilledIndices(prefix) + (if IsBlank(options[last]) then {} else {last});
      CountFilled(prefix) + (if IsBlank(options[last]) then 0 else 1)
  }

  /** A positive count has a filled field to show for it. */
  lemma {:induction false} OneFilled(options: seq<string>) returns (i: int)
    requires CountFilled(options) >= 1
    ensures 0 <= i < |options| && !IsBlank(options[i])
  {
    var prefix, last := options[..|options| - 1], |options| - 1;
    if IsBlank(options[last]) {
      i := OneFilled(prefix);
      assert options[i] == prefix[i];
    } else {
      i := last;
    }
  }

  /** A count of two or more has two different filled fields to show for it. */
  lemma {:induction false} PairOfFilled(options: seq<string>) returns (i: int, j: int)
    requires CountFilled(options) >= 2
    ensures 0 <= i < j < |options| && !IsBlank(options[i]) && !IsBlank(options[j])
  {
    var prefix, last := options[..|options| - 1], |options| - 1;
    if IsBlank(options[last]) {
      i, j := PairOfFilled(prefix);
      assert options[i] == prefix[i] && options[j] == prefix[j];
    } else {
      i := OneFilled(prefix);
      assert options[i] == prefix[i];
      j := last;
    }
  }

  /** Two filled fields make a count of at least two. */
  lemma FilledPairCounts(options: seq<string>, i: int, j: int)
    requires 0 <= i < j < |options| && !IsBlank(options[i]) && !IsBlank(options[j])
    ensures CountFilled(options) >= 2
  {
    var filled := FilledIndices(options);
    assert i in filled && j in filled;
    assert filled == {i, j} + (filled - {i, j});
  }

  /** The count reaches two exactly when two different fields are filled in. */
  lemma TwoFilled(options: seq<string>)
    ensures CountFilled(options) >= 2 <==>
      exists i, j :: 0 <= i < j < |options| && !IsBlank(options[i]) && !IsBlank(options[j])
  {
    if CountFilled(options) >= 2 {
      var i, j := PairOfFilled(options);
      assert 0 <= i < j < |options| && !IsBlank(options[i]) && !IsBlank(options[j]);
    }
    if exists i, j :: 0 <= i < j < |options| && !IsBlank(options[i]) && !IsBlank(options[j]) {
      var i, j :| 0 <= i < j < |options| && !IsBlank(options[i]) && !IsBlank(options[j]);
      FilledPairCounts(options, i, j);
    }
  }

  /** The `disabled` attribute of the submit button. */
  predicate SubmitDisabled(loading: bool, question: string, options: seq<string>, timeField: string) {
    loading || IsBlank(question) || CountFilled(options) < 2 || timeField == ""
  }

  /**
   * A form that would be submitted, with at least two fields, has its button
   * enabled while no request is in flight. `minutes` is `parseInt` of the
   * time field, and `parseInt("")` is `NaN`, so an empty field gives no
   * minutes.
   */
  lemma SubmittableIsEnabled(question: string, options: seq<string>, minutes: Option<int>, timeField: string)
    requires Submit(question, options, minutes).Ok? && |options| >= 2
    requires timeField == "" ==> minutes.None?
    ensures !SubmitDisabled(false, question, options, timeField)
  {
  }

  /**
   * The converse fails: the button only asks for two filled fields, so it is
   * enabled with a third, blank field, and the submit is then refused.
   */
  lemma EnabledButRefused()
    ensures !SubmitDisabled(false, "Q", ["a", "b", ""], "5")
    ensures Submit("Q", ["a", "b", ""], Some(5)) == Err(MissingOption)
  {
    assert IsBlank(["a", "b", ""][2]);
    assert !IsJsWhitespace('a') && !IsJsWhitespace('b') && !IsJsWhitespace('Q');
    assert !IsBlank("a") && !IsBlank("b") && !IsBlank("Q") by {
      assert "a"[0] == 'a' && "b"[0] == 'b' && "Q"[0] == 'Q';
    }
    assert CountFilled(["a", "b", ""]) == 2 by {
      assert ["a", "b", ""][..2] == ["a", "b"];
      assert ["a", "b"][..1] == ["a"];
      assert ["a"][..0] == [];
    }
  }
}
