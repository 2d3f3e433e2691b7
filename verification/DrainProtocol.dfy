/** The protocol both hosts follow when they stop: calls enter while the core is held, stopping
    refuses new calls, and the core is let go only once the last call has left. */
module DrainProtocol {
  datatype Gate = Gate(held: bool, stopping: bool, calls: nat)

  ghost predicate Enter(g: Gate, g': Gate) {
    !g.stopping && (g.held || g.calls == 0) && g' == g.(calls := g.calls + 1)
  }

  ghost predicate Open(g: Gate, g': Gate) {
    !g.held && g.calls > 0 && g' == g.(held := true)
  }

  ghost predicate Leave(g: Gate, g': Gate) {
    g.calls > 0 && g' == g.(calls := g.calls - 1)
  }

  ghost predicate Stop(g: Gate, g': Gate) {
    g' == g.(stopping := true)
  }

  ghost predicate Release(g: Gate, g': Gate) {
    g.stopping && g.calls == 0 && g' == g.(held := false)
  }

  ghost predicate Next(g: Gate, g': Gate) {
    g == g' || Enter(g, g') || Open(g, g') || Leave(g, g') || Stop(g, g') || Release(g, g')
  }

  ghost predicate IsTrace(trace: seq<Gate>) {
    forall i | 0 <= i < |trace| - 1 :: Next(trace[i], trace[i + 1])
  }

  /** Stopping is for good and only lets calls leave; a core that was let go had no calls left and
      never sees one again. */
  lemma {:induction false} StopThenDrain(trace: seq<Gate>, i: nat, j: nat)
    requires IsTrace(trace) && i <= j < |trace|
    ensures trace[i].stopping ==> trace[j].stopping && trace[j].calls <= trace[i].calls
    ensures trace[i].held && !trace[j].held ==> trace[j].stopping && trace[j].calls == 0
  {
    if i < j {
      StopThenDrain(trace, i, j - 1);
      assert Next(trace[j - 1], trace[j]);
    }
  }
}
