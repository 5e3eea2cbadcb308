/**
 * The state that travels with every frame, and the reducer that frames.js
 * applies to it when a button is pressed.
 */
module Session {
  import opened Wrappers

  datatype Phase = Start | Matching | Matched

  /** `fid` is the candidate currently on screen, when there is one. */
  datatype State = State(phase: Phase, fid: Option<int>)

  const INITIAL_STATE: State := State(Start, None)

  /** The reducer: `start` and `matched` both advance to `matching`; a
      `matching` state is copied as it is; the candidate is always carried over.
      The action argument is ignored by the page and is not modelled. */
  function Reduce(s: State): (r: State)
    ensures r.phase == Matching
    ensures r.fid == s.fid
    ensures s.phase == Matching ==> r == s
  {
    match s.phase
    case Start => s.(phase := Matching)
    case Matched => s.(phase := Matching)
    case Matching => s
  }

  /** Reducing twice is reducing once. */
  lemma ReduceIdempotent(s: State)
    ensures Reduce(Reduce(s)) == Reduce(s)
  {
  }
}
