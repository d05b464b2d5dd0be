/**
 * The loading-state holder returned by `useLoading`: a flag saying whether a
 * page is loading and the message shown while it is. One setter changes
 * them; two getters read them.
 *
 * `LoadingHolder` is the object itself, with its two cells as fields. The
 * value-level `State`, `Next` and `Run` describe the same behaviour as a
 * function of the calls made, so that properties of call sequences can be
 * stated and proved as lemmas.
 */
module Loading {
  import opened Options

  /** The message used at creation and when `setLoading` is given none. */
  const DefaultMessage: string := "Cargando..."

  datatype State = State(isLoading: bool, message: string)

  const Initial: State := State(false, DefaultMessage)

  /** One call `setLoading(loading, loadingMessage)`; `None` is an omitted message. */
  datatype Call = Call(loading: bool, loadingMessage: Option<string>)

  /** The message a call would show: its own, or the default when omitted. */
  function MessageOf(call: Call): (m: string)
    ensures call.loadingMessage.None? ==> m == DefaultMessage
    ensures call.loadingMessage.Some? ==> m == call.loadingMessage.value
  {
    call.loadingMessage.GetOr(DefaultMessage)
  }

  /** The state after one call: the flag is overwritten; the message only when loading starts. */
  function Next(s: State, call: Call): State {
    State(call.loading, if call.loading then MessageOf(call) else s.message)
  }

  /** The state after a sequence of calls, applied first to last. */
  function Run(s: State, calls: seq<Call>): State
    decreases |calls|
  {
    if calls == [] then s else Run(Next(s, calls[0]), calls[1..])
  }

  /**
   * The message of the last call that turned loading on, if any: an
   * independent description of what the message cell holds.
   */
  function LastShownMessage(calls: seq<Call>): Option<string>
    decreases |calls|
  {
    if calls == [] then None
    else if calls[|calls| - 1].loading then Some(MessageOf(calls[|calls| - 1]))
    else LastShownMessage(calls[..|calls| - 1])
  }

  /** Running a sequence and then one more call is one more step. */
  lemma {:induction false} RunSnoc(s: State, calls: seq<Call>, call: Call)
    ensures Run(s, calls + [call]) == Next(Run(s, calls), call)
    decreases |calls|
  {
    if calls != [] {
      assert (calls + [call])[1..] == calls[1..] + [call];
      RunSnoc(Next(s, calls[0]), calls[1..], call);
    }
  }

  /** After any non-empty sequence of calls the flag is the one the last call passed. */
  lemma {:induction false} LastWriteWins(s: State, calls: seq<Call>)
    requires calls != []
    ensures Run(s, calls).isLoading == calls[|calls| - 1].loading
  {
    var prefix := calls[..|calls| - 1];
    assert calls == prefix + [calls[|calls| - 1]];
    RunSnoc(s, prefix, calls[|calls| - 1]);
  }

  /**
   * After any sequence of calls the message is that of the last call that
   * turned loading on, or the message held before when no call did.
   */
  lemma {:induction false} MessageIsLastShown(s: State, calls: seq<Call>)
    ensures Run(s, calls).message == LastShownMessage(calls).GetOr(s.message)
    decreases |calls|
  {
    if calls != [] {
      var prefix := calls[..|calls| - 1];
      assert calls == prefix + [calls[|calls| - 1]];
      RunSnoc(s, prefix, calls[|calls| - 1]);
      MessageIsLastShown(s, prefix);
    }
  }

  /** Calls that keep loading off never change the message. */
  lemma {:induction false} StoppingKeepsMessage(s: State, calls: seq<Call>)
    requires forall i :: 0 <= i < |calls| ==> !calls[i].loading
    ensures Run(s, calls).message == s.message
    decreases |calls|
  {
    if calls != [] {
      StoppingKeepsMessage(Next(s, calls[0]), calls[1..]);
    }
  }

  /** Repeating a call changes nothing more. */
  lemma NextIdempotent(s: State, call: Call)
    ensures Next(Next(s, call), call) == Next(s, call)
  {
  }

  /**
   * The usage example: starting with a custom message and stopping without
   * one leaves loading off and the custom message in place.
   */
  lemma LoadDataExample(s: State)
    ensures Run(s, [Call(true, Some("Cargando datos...")), Call(false, None)])
      == State(false, "Cargando datos...")
  {
    var calls := [Call(true, Some("Cargando datos...")), Call(false, None)];
    assert calls[1..][1..] == [];
  }

  /** The object `useLoading()` returns, holding its two cells. */
  class LoadingHolder {
    var isLoading: bool
    var message: string

    function Current(): State
      reads this
    {
      State(isLoading, message)
    }

    /** `useLoading()`: not loading, with the default message. */
    constructor ()
      ensures isLoading == false && message == DefaultMessage
      ensures Current() == Initial
    {
      isLoading := false;
      message := DefaultMessage;
    }

    /**
     * `setLoading(loading, loadingMessage)`: the flag becomes `loading`;
     * the message becomes `loadingMessage` (or the default when it is
     * omitted) only when `loading` is true, and is kept otherwise.
     */
    method SetLoading(loading: bool, loadingMessage: Option<string>)
      modifies this
      ensures isLoading == loading
      ensures loading ==> message == loadingMessage.GetOr(DefaultMessage)
      ensures !loading ==> message == old(message)
      ensures Current() == Next(old(Current()), Call(loading, loadingMessage))
    {
      isLoading := loading;
      if loading {
        message := loadingMessage.GetOr(DefaultMessage);
      }
    }

    /** The `isLoading` getter: the current flag, changing nothing. */
    method IsLoading() returns (b: bool)
      ensures b == isLoading
    {
      b := isLoading;
    }

    /** The `message` getter: the current message, changing nothing. */
    method Message() returns (m: string)
      ensures m == message
    {
      m := message;
    }
  }

  /**
   * The usage example run on a fresh holder: `setLoading(true, 'Cargando
   * datos...')` and then `setLoading(false)`, read back through the getters.
   */
  method LoadData() returns (isLoading: bool, message: string)
    ensures !isLoading && message == "Cargando datos..."
  {
    var holder := new LoadingHolder();
    holder.SetLoading(true, Some("Cargando datos..."));
    holder.SetLoading(false, None);
    isLoading := holder.IsLoading();
    message := holder.Message();
  }
}
