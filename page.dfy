/**
 * One request to the page: check the frame message, decide what to look up
 * from the phase, the candidate on screen and the button pressed, do the
 * lookups, and pick the state to embed in the returned frame.
 */
module Page {
  import opened Wrappers
  import opened Profiles
  import opened Session
  import opened Finder

  /** The decoded frame message, reduced to the fields the page reads. */
  datatype Message = Message(isValid: bool, buttonIndex: int)

  /** What a request ends in: the thrown "Invalid frame payload" error, or a
      frame showing `shown` (the card drawn is `emitted.phase`) and carrying
      `emitted` as its state. */
  datatype Outcome = InvalidPayload | Rendered(shown: Option<User>, emitted: State)

  /** Which branch of the page a request takes. */
  datatype Plan =
    | Abort                // an invalid message: throw
    | Idle                 // no message, or the start card: no lookup
    | ConfirmMatch(fid: int) // "yay" on an even candidate: becomes matched
    | FreshCandidate       // matching otherwise: show a new random candidate
    | NextRound            // matched and a button pressed: show a new random candidate

  /** JavaScript truthiness of an optional fid: absent and 0 are falsy. */
  predicate IsTruthy(fid: Option<int>)
  {
    fid.Some? && fid.value != 0
  }

  /** The stand-in for a mutual like: an even candidate fid. (`%` differs from
      JavaScript's on negative operands, but evenness does not.) */
  predicate LikesBack(fid: int)
  {
    fid % 2 == 0
  }

  /** The branch the page takes for a state and a message. */
  function Decide(state: State, msg: Option<Message>): (p: Plan)
    ensures p.Abort? <==> msg.Some? && !msg.value.isValid
    ensures p.Idle? <==> msg.None? || (msg.value.isValid && state.phase == Start)
    ensures p.ConfirmMatch? <==>
              msg.Some? && msg.value.isValid && state.phase == Matching && IsTruthy(state.fid)
              && msg.value.buttonIndex == 2 && LikesBack(state.fid.value)
    ensures p.ConfirmMatch? ==> state.fid == Some(p.fid)
    ensures p.NextRound? <==> msg.Some? && msg.value.isValid && state.phase == Matched
  {
    match msg
    case None => Idle
    case Some(m) =>
      if !m.isValid then Abort
      else match state.phase
        case Start => Idle
        case Matching =>
          if IsTruthy(state.fid) && m.buttonIndex == 2 && LikesBack(state.fid.value)
          then ConfirmMatch(state.fid.value)
          else FreshCandidate
        case Matched => NextRound
  }

  /** The fid of the user on screen, `otherUser?.fid`. */
  function FidOf(shown: Option<User>): Option<int>
  {
    match shown
    case None => None
    case Some(u) => Some(u.fid)
  }

  /** The state embedded in the returned frame: in `matching` the candidate on
      screen replaces `fid`; `start` and `matched` pass the state on as it is. */
  function Emit(state: State, shown: Option<User>): State
  {
    if state.phase == Matching then state.(fid := FidOf(shown)) else state
  }

  /** A state is consistent when the start card carries no candidate. */
  predicate Consistent(s: State)
  {
    s.phase == Start ==> s.fid.None?
  }

  /** One request to the page. `lookups` counts the requests to the profile
      directory. Candidates come from the finder with the intended guard. */
  method Home(incoming: State, msg: Option<Message>, sample: nat -> FidSample, dir: int -> Response)
    returns (out: Outcome, lookups: nat)
    ensures Decide(incoming, msg).Abort? ==> out == InvalidPayload && lookups == 0
    ensures Decide(incoming, msg).Idle? ==> out == Rendered(None, Emit(incoming, None)) && lookups == 0
    ensures Decide(incoming, msg).ConfirmMatch? ==>
              lookups == 1 && out == Rendered(FindUserById(dir(incoming.fid.value)), incoming.(phase := Matched))
    ensures Decide(incoming, msg).FreshCandidate? ==>
              var c := Search(sample, dir, 0);
              lookups == c.lookups && out == Rendered(Some(c.user), State(Matching, Some(c.user.fid)))
    ensures Decide(incoming, msg).NextRound? ==>
              var c := Search(sample, dir, 0);
              lookups == c.lookups && out == Rendered(Some(c.user), incoming)
    ensures lookups <= MAX_USER_RETRY
    ensures out.Rendered? && out.emitted.phase == Matched ==>
              incoming.phase == Matched || (IsTruthy(incoming.fid) && LikesBack(incoming.fid.value))
    ensures out.Rendered? && Consistent(incoming) ==> Consistent(out.emitted)
  {
    if msg.Some? && !msg.value.isValid {
      return InvalidPayload, 0;
    }
    var state := incoming;
    var otherUser: Option<User> := None;
    lookups := 0;
    if msg.Some? {
      var buttonIndex := msg.value.buttonIndex;
      if state.phase == Matching {
        if IsTruthy(state.fid) {
          if buttonIndex == 2 && LikesBack(state.fid.value) {
            state := state.(phase := Matched);
            otherUser := FindUserById(dir(state.fid.value));
            lookups := 1;
          } else {
            var u, n := FindCandidate(sample, dir);
            otherUser, lookups := Some(u), n;
          }
        } else {
          var u, n := FindCandidate(sample, dir);
          otherUser, lookups := Some(u), n;
        }
      } else if state.phase == Matched {
        var u, n := FindCandidate(sample, dir);
        otherUser, lookups := Some(u), n;
      }
    }
    out := Rendered(otherUser, Emit(state, otherUser));
  }

  /** Without a message the state is the initial one: the page draws the
      start card, looks nothing up and embeds the initial state again. */
  lemma InitialStateIsIdle()
    ensures Decide(INITIAL_STATE, None) == Idle
    ensures Emit(INITIAL_STATE, None) == INITIAL_STATE && Consistent(INITIAL_STATE)
  {
  }

  /** Pressing "Start!" posts the initial state, which the reducer turns into
      `matching` without a candidate: the first press looks for a fresh one. */
  lemma FirstPressFetches(m: Message)
    requires m.isValid
    ensures Reduce(INITIAL_STATE) == State(Matching, None)
    ensures Decide(Reduce(INITIAL_STATE), Some(m)) == FreshCandidate
  {
  }

  /** The state written back in `matching` names the candidate on screen: the
      next request, after the reducer, judges exactly that candidate, and a
      press matches iff it is "yay" (button 2) on a truthy even fid. */
  lemma EmitRoundTrip(s: State, u: User, m: Message)
    requires s.phase == Matching && m.isValid
    ensures Reduce(Emit(s, Some(u))) == State(Matching, Some(u.fid))
    ensures Decide(Reduce(Emit(s, Some(u))), Some(m)).ConfirmMatch?
            <==> m.buttonIndex == 2 && u.fid != 0 && LikesBack(u.fid)
  {
  }

  /** A state the reducer produced never takes the `matched` branch: `matched`
      comes only from the assignment on a confirmed like within the request. */
  lemma ReducedNeverNextRound(prev: State, msg: Option<Message>)
    ensures Decide(Reduce(prev), msg) != NextRound
  {
  }

  /** On the candidate of a reduced state, a like matches exactly when the
      button is the second one and the fid is truthy and even. */
  lemma ReducedConfirmsIff(prev: State, m: Message)
    requires m.isValid
    ensures Decide(Reduce(prev), Some(m)).ConfirmMatch?
            <==> m.buttonIndex == 2 && IsTruthy(prev.fid) && LikesBack(prev.fid.value)
  {
  }

  /** The sentinel's fid is falsy: whichever button is pressed on it, the next
      request looks for a fresh candidate. */
  lemma SentinelRetries(buttonIndex: int)
    ensures Decide(Reduce(State(Matching, Some(SENTINEL.fid))), Some(Message(true, buttonIndex))) == FreshCandidate
  {
  }

  /** After a match the reducer brings the same candidate back in `matching`:
      a post with button 2 on it would match again. */
  lemma MatchSurvivesNextRequest(f: int)
    requires IsTruthy(Some(f)) && LikesBack(f)
    ensures Reduce(State(Matched, Some(f))) == State(Matching, Some(f))
    ensures Decide(Reduce(State(Matched, Some(f))), Some(Message(true, 2))) == ConfirmMatch(f)
  {
  }

  /** The matched card's own button, "meh" (button 1), goes through the reducer
      to a fresh candidate: the "continue" of a new round. */
  lemma MehAfterMatch(f: int)
    ensures Decide(Reduce(State(Matched, Some(f))), Some(Message(true, 1))) == FreshCandidate
  {
  }
}
