/**
 * The states a pipeline's execution reports, each declared with a fixed flag saying whether
 * the job can no longer complete work.
 */
module PipelineResult {

  datatype State = Unknown | Stopped | Running | Done | Failed | Cancelled
  {
    /**
     * The flag the state is declared with: true for the states in which the job is over, which
     * are the three declared last.
     */
    predicate IsTerminal()
      ensures IsTerminal() <==> Ordinal(this) >= 3
    {
      match this
      case Unknown => false
      case Stopped => false
      case Running => false
      case Done => true
      case Failed => true
      case Cancelled => true
    }
  }

  /** The states in declaration order. */
  const Values: seq<State> := [Unknown, Stopped, Running, Done, Failed, Cancelled]

  /** The position of `s` in declaration order. */
  function Ordinal(s: State): (n: nat)
    ensures n < |Values| && Values[n] == s
  {
    match s
    case Unknown => 0
    case Stopped => 1
    case Running => 2
    case Done => 3
    case Failed => 4
    case Cancelled => 5
  }

  /** Each state appears exactly once among the six declared values. */
  lemma ExactlySixStates()
    ensures |Values| == 6
    ensures forall i, j :: 0 <= i < j < |Values| ==> Values[i] != Values[j]
    ensures forall s: State :: Ordinal(s) < |Values| && Values[Ordinal(s)] == s
  {
  }

  /** The states in which the job is over. */
  function TerminalStates(): (r: set<State>)
    ensures forall s: State :: s in r <==> s.IsTerminal()
  {
    ExactlySixStates();
    set s | s in Values && s.IsTerminal()
  }

  /** Done, failed and cancelled are terminal; unknown, stopped and running are not. */
  lemma ExactlyThreeTerminal()
    ensures TerminalStates() == {Done, Failed, Cancelled}
    ensures |TerminalStates()| == 3
    ensures !Unknown.IsTerminal() && !Stopped.IsTerminal() && !Running.IsTerminal()
  {
    assert TerminalStates() == {Done, Failed, Cancelled};
  }
}
