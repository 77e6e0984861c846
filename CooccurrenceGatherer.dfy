/**
 * The one-shot co-occurrence gatherer (src/CooccurrenceAnalysisGatherer.java).
 *
 * The stream hands the integrator a mutable nested map as its state and a
 * downstream to push results into. On its first call the integrator sets the
 * `done` flag, adds the co-occurrence counts of the whole token sequence to the
 * state in place and pushes the state; on every later call it does nothing.
 * It always asks the stream to stop.
 */
module CooccurrenceGatherer {
  import opened CooccurrenceSpec

  /** The gatherer's state: the nested HashMap created by the initializer and updated in place. */
  class CountState {
    var entries: Table

    constructor ()
      ensures entries == map[]
    {
      entries := map[];
    }
  }

  /** The downstream of the gatherer: the elements pushed so far, in order. */
  class Downstream {
    var pushed: seq<Table>

    constructor ()
      ensures pushed == []
    {
      pushed := [];
    }

    method Push(element: Table)
      modifies this
      ensures pushed == old(pushed) + [element]
    {
      pushed := pushed + [element];
    }
  }

  class CooccurrenceAnalysisGatherer {
    const tokens: seq<string>
    const window: int
    var done: bool

    constructor (tokens: seq<string>, window: int)
      ensures this.tokens == tokens && this.window == window && !done
    {
      this.tokens := tokens;
      this.window := window;
      done := false;
    }

    /** initializer(): a fresh, empty nested map. */
    method Initializer() returns (state: CountState)
      ensures fresh(state) && state.entries == map[]
    {
      state := new CountState();
    }

    /**
     * integrator(): the element is ignored. The first call adds, for every
     * centre position, its neighbour counts to the state (creating the entry of
     * the centre token if absent) and pushes the state once; later calls leave
     * state and downstream alone. The result is always false.
     */
    method Integrate(state: CountState, element: string, downstream: Downstream) returns (more: bool)
      modifies this`done, state, downstream
      ensures done && !more
      ensures old(done) ==> state.entries == old(state.entries) && downstream.pushed == old(downstream.pushed)
      ensures !old(done) ==> state.entries == Integrated(old(state.entries), tokens, window, |tokens|)
      ensures !old(done) ==> downstream.pushed == old(downstream.pushed) + [state.entries]
    {
      if !done {
        done := true;
        AddAllCentres(state);
        downstream.Push(state.entries);
      }
      more := false;
    }

    /** The integrator's outer loop over every centre position of the token list. */
    method AddAllCentres(state: CountState)
      modifies state
      ensures state.entries == Integrated(old(state.entries), tokens, window, |tokens|)
    {
      ghost var init := state.entries;
      IntegratedZero(init, tokens, window);
      var i := 0;
      while i < |tokens|
        invariant 0 <= i <= |tokens|
        invariant state.entries == Integrated(init, tokens, window, i)
      {
        AddCentre(state, i);
        IntegratedStep(init, tokens, window, i);
        i := i + 1;
      }
    }

    /**
     * One pass of the integrator's outer loop: make sure the centre token at
     * position i has an entry (computeIfAbsent), then count its neighbours into
     * that entry.
     */
    method AddCentre(state: CountState, i: int)
      requires 0 <= i < |tokens|
      modifies state
      ensures state.entries == old(state.entries)[tokens[i] :=
                SumMaps(Row(old(state.entries), tokens[i]), NeighbourMap(tokens, window, i))]
    {
      var center := tokens[i];
      ghost var before := state.entries;
      if center !in state.entries {
        state.entries := state.entries[center := map[]];
      }
      ghost var started := state.entries;
      var centerMap := state.entries[center];
      centerMap := CountNeighbours(centerMap, i);
      // write the counted copy back; this gives the state the in-place update of the aliased map would have given
      state.entries := state.entries[center := centerMap];
      CentreOverwrite(before, started, center, centerMap);
    }

    /**
     * The inner loop of the integrator: for every offset j in
     * [i - window, i + window], a position inside the sequence other than i
     * adds one to the count of its token (merge with Long::sum).
     */
    method CountNeighbours(centerMap: Counts, i: int) returns (counted: Counts)
      requires 0 <= i < |tokens|
      ensures counted == SumMaps(centerMap, NeighbourMap(tokens, window, i))
    {
      counted := centerMap;
      ghost var lo := i - window;
      CentreStart(centerMap, tokens, i, lo);
      var j := i - window;
      while j <= i + window
        invariant lo <= j && (j <= i + window + 1 || j == lo)
        invariant counted == SumMaps(centerMap, WindowMap(tokens, i, lo, j))
      {
        ghost var current := counted;
        if !(j < 0 || j >= |tokens| || j == i) {
          var neighbor := tokens[j];
          counted := Bump(counted, neighbor);
        }
        CentreStep(centerMap, tokens, i, lo, j, current);
        j := j + 1;
      }
      CentreDone(tokens, window, i, j);
    }
  }

  // The steps of the integrator's inner loop, stated on values.

  lemma CentreStart(base: Counts, tokens: seq<string>, i: int, lo: int)
    ensures base == SumMaps(base, WindowMap(tokens, i, lo, lo))
  {
    WindowMapEmpty(tokens, i, lo, lo);
    SumMapsIdentity(base);
  }

  lemma CentreStep(base: Counts, tokens: seq<string>, i: int, lo: int, j: int, current: Counts)
    requires lo <= j
    requires current == SumMaps(base, WindowMap(tokens, i, lo, j))
    ensures (if Counted(tokens, i, j) then Bump(current, tokens[j]) else current)
         == SumMaps(base, WindowMap(tokens, i, lo, j + 1))
  {
    WindowMapStep(tokens, i, lo, j);
    if Counted(tokens, i, j) {
      SumMapsBump(base, WindowMap(tokens, i, lo, j), tokens[j]);
    }
  }

  lemma CentreDone(tokens: seq<string>, window: int, i: int, j: int)
    requires i - window <= j && (j == i + window + 1 || (j == i - window && j > i + window))
    ensures WindowMap(tokens, i, i - window, j) == NeighbourMap(tokens, window, i)
  {
    if j != i + window + 1 {
      WindowMapEmpty(tokens, i, i - window, j);
      WindowMapEmpty(tokens, i, i - window, i + window + 1);
    }
  }

  lemma CentreOverwrite(before: Table, started: Table, center: string, centerMap: Counts)
    requires started == if center in before then before else before[center := map[]]
    ensures started[center := centerMap] == before[center := centerMap]
  {
  }
}
