/**
 * The status record of the form page (`useFormState`): a status, a success
 * message and an error message, changed only through four setters. The
 * React state cells become an immutable record and each setter a pure
 * transition.
 */
module FormState {

  datatype Estado = Idle | Loading | Success | Error

  datatype State = State(estado: Estado, mensaje: string, error: string) {
    predicate IsLoading() { estado == Loading }
    predicate IsSuccess() { estado == Success }
    predicate IsError() { estado == Error }
  }

  const Initial := State(Idle, "", "")

  datatype Action =
    | ResetState
    | SetLoading
    | SetSuccess(message: string)
    | SetError(errorMessage: string)

  /**
   * The consistency the setters maintain: a message is shown only in the
   * success status and an error only in the error status, so the two are
   * never shown together.
   */
  predicate Coherent(s: State) {
    (s.mensaje != "" ==> s.estado == Success) && (s.error != "" ==> s.estado == Error)
  }

  /**
   * One setter call. Every setter writes all three fields, so the result
   * does not depend on the previous state; the status names the setter, and
   * only `setSuccess` and `setError` carry their argument into the record.
   */
  function Apply(s: State, a: Action): (s': State)
    ensures Coherent(s')
    ensures s'.IsLoading() <==> a.SetLoading?
    ensures s'.IsSuccess() <==> a.SetSuccess?
    ensures s'.IsError() <==> a.SetError?
    ensures s'.mensaje == (if a.SetSuccess? then a.message else "")
    ensures s'.error == (if a.SetError? then a.errorMessage else "")
  {
    match a
    case ResetState => State(Idle, "", "")
    case SetLoading => State(Loading, "", "")
    case SetSuccess(m) => s.(estado := Success, mensaje := m, error := "")
    case SetError(e) => s.(estado := Error, error := e, mensaje := "")
  }

  /** The state after a sequence of setter calls. */
  function Replay(s: State, actions: seq<Action>): State
    decreases |actions|
  {
    if actions == [] then s else Replay(Apply(s, actions[0]), actions[1..])
  }

  /** After at least one call, only the last call matters. */
  lemma {:induction false} LastSetterWins(s: State, actions: seq<Action>)
    requires actions != []
    ensures Replay(s, actions) == Apply(Initial, actions[|actions| - 1])
    decreases |actions|
  {
    if |actions| > 1 {
      LastSetterWins(Apply(s, actions[0]), actions[1..]);
      assert actions[1..][|actions[1..]| - 1] == actions[|actions| - 1];
    }
  }

  /** Every state the page can reach from the initial one is coherent. */
  lemma ReachableCoherent(actions: seq<Action>)
    ensures Coherent(Replay(Initial, actions))
  {
    if actions != [] {
      LastSetterWins(Initial, actions);
    }
  }
}
