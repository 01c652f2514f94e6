/** The error accumulator of src/errors.rs: an `ErrorGroup` is a message
    with the errors collected under it, and itself an error that can be
    added to another group. Errors are immutable values here; each mutating
    method returns the updated group. */
module Errors {
  import opened Common

  /** An `anyhow::Error`: some error with a message, or a whole group. */
  datatype Error = Message(text: string) | Grouped(group: ErrorGroup)

  /** `ErrorGroup`. */
  datatype ErrorGroup = ErrorGroup(msg: string, errors: seq<Error>)

  /** `ErrorGroup::has_content` (src/errors.rs:32-34). */
  predicate HasContent(g: ErrorGroup) {
    |g.errors| > 0
  }

  /** `ErrorGroup::add` (src/errors.rs:28-30): one error more, at the end. */
  function Add(g: ErrorGroup, e: Error): (r: ErrorGroup)
    ensures r.msg == g.msg
    ensures |r.errors| == |g.errors| + 1
    ensures r.errors[..|g.errors|] == g.errors && r.errors[|g.errors|] == e
    ensures HasContent(r)
  {
    g.(errors := g.errors + [e])
  }

  /** `ErrorGroup::add_error_to` (src/errors.rs:36-41): a group with content
      is nested into `group` as one more error; an empty one changes
      nothing. */
  function AddErrorTo(self: ErrorGroup, group: ErrorGroup): (r: ErrorGroup)
    ensures r.msg == group.msg
    ensures |r.errors| == |group.errors| + (if HasContent(self) then 1 else 0)
    ensures r.errors[..|group.errors|] == group.errors
    ensures HasContent(self) ==> r.errors[|group.errors|] == Grouped(self)
  {
    if HasContent(self) then Add(group, Grouped(self)) else group
  }

  /** `ErrorGroup::to_result` and its `Into<Result<(), ErrorGroup>>`
      (src/errors.rs:43-56): the group is the error exactly when it has
      content. */
  function ToResult(g: ErrorGroup): (r: Result<(), ErrorGroup>)
    ensures r.Err? <==> |g.errors| > 0
    ensures r.Err? ==> r.error == g
  {
    if HasContent(g) then Err(g) else Ok(())
  }

  /** `From<String>` and `From<&str>` (src/errors.rs:58-71). */
  function FromMessage(msg: string): (g: ErrorGroup)
    ensures g.msg == msg && !HasContent(g)
    ensures ToResult(g) == Ok(())
  {
    ErrorGroup(msg, [])
  }

  /** `AddErrorResult::add_error_to` (src/errors.rs:77-87): a success passes
      through and leaves the group alone; a failure is added to the group,
      and the updated group is the error. */
  function AddResultErrorTo<T>(res: Result<T, Error>, group: ErrorGroup): (r: (Result<T, ErrorGroup>, ErrorGroup))
    ensures res.Ok? ==> r.0 == Ok(res.value) && r.1 == group
    ensures res.Err? ==> r.1 == Add(group, res.error) && r.0 == Err(r.1)
  {
    match res
    case Ok(t) => (Ok(t), group)
    case Err(e) => var g := Add(group, e); (Err(g), g)
  }

  /** The failures among `results`, in order. */
  function Failures<T>(results: seq<Result<T, Error>>): seq<Error>
    decreases |results|
  {
    if |results| == 0 then []
    else (if results[0].Err? then [results[0].error] else []) + Failures(results[1..])
  }

  /** `add_error_to` applied to each result in turn, into one group. */
  function CollectInto<T>(results: seq<Result<T, Error>>, group: ErrorGroup): ErrorGroup
    decreases |results|
  {
    if |results| == 0 then group else CollectInto(results[1..], AddResultErrorTo(results[0], group).1)
  }

  /** Collecting keeps the message and appends exactly the failures, in
      order, so the group ends up an error exactly when it already had
      content or some result failed. */
  lemma {:induction false} CollectIntoMeaning<T>(results: seq<Result<T, Error>>, group: ErrorGroup)
    ensures CollectInto(results, group) == ErrorGroup(group.msg, group.errors + Failures(results))
    ensures ToResult(CollectInto(results, group)).Err? <==>
      HasContent(group) || exists i :: 0 <= i < |results| && results[i].Err?
    decreases |results|
  {
    if |results| > 0 {
      var next := AddResultErrorTo(results[0], group).1;
      CollectIntoMeaning(results[1..], next);
      if results[0].Err? {
        assert group.errors + [results[0].error] + Failures(results[1..])
            == group.errors + Failures(results);
      } else {
        assert Failures(results) == Failures(results[1..]);
      }
      FailuresEmpty(results);
    } else {
      assert group.errors + [] == group.errors;
    }
  }

  lemma {:induction false} FailuresEmpty<T>(results: seq<Result<T, Error>>)
    ensures |Failures(results)| == 0 <==> forall i :: 0 <= i < |results| ==> results[i].Ok?
    decreases |results|
  {
    if |results| > 0 {
      FailuresEmpty(results[1..]);
      assert forall i :: 1 <= i < |results| ==> results[i] == results[1..][i - 1];
    }
  }
}
