# Lovecaster match flow, modelled in Dafny

Lovecaster is a swipe-to-match frame: each press of a frame button is one
request. The request carries the previous state (`start`, `matching` or
`matched`, plus the fid of the candidate on screen). The page fetches a
candidate profile and returns a new frame whose state goes round again.
This project models the logic of `app/page.tsx`:

- `Session`: the frame state and the reducer frames.js applies to it.
- `Profiles`: the profile record, and the acceptance filter of `findUserById`.
  A record counts only with both an avatar and a display name.
- `Finder`: the random-candidate retry loop `findUser`. It is modelled twice:
  - `FindUser` keeps the guard as written;
  - `FindCandidate` uses the evidently intended guard, specified by the function `Search`.
  See "Findings".
- `Page`: one request (`Home`). It branches on the phase, the candidate and the button,
  does the lookups, and picks the state to embed (`Emit`). `Decide` is the branch
  function that `Home` is proved to follow.

Randomness and the network are parameters:
- `sample(i)` is the fid drawn on the i-th attempt, in `0..MAX_FID`;
- `dir(id)` is the directory's answer for `id`.

The only like check in the page is the parity test of `app/page.tsx:133`
(`LikesBack`: an even fid); storing a like is a comment at line 135. Drawn
fids are bounded by the constant `MAX_FID` (line 40).

## Model

| member | source | states |
|---|---|---|
| `Session.Reduce` | app/page.tsx:31-38 | every phase becomes `matching` (so the reducer never yields `matched` or `start`); the fid is carried over; a `matching` state comes back unchanged |
| `Session.ReduceIdempotent` | app/page.tsx:31-38 | reducing twice equals reducing once |
| `Profiles.FindUserById` | app/page.tsx:43-59 | a user comes back iff the answer is a success whose record has a non-empty avatar and display name (so a non-success answer is "not found"); the user then has the record's id, avatar, username and display name and is displayable |
| `Profiles.AcceptRoundTrip` | app/page.tsx:50-56 | fetching a user's own record gives that user back exactly when it is displayable, otherwise "not found" |
| `Finder.ExitCondition` | app/page.tsx:68-73 | the loop as written exits after n iterations iff n >= 5 and the n-th lookup hit |
| `Finder.NeverExitsWhenAllMiss` | app/page.tsx:70-73 | if every lookup misses, the guard as written holds forever: no termination |
| `Finder.FirstHitDoesNotStop` | app/page.tsx:70-73 | with a directory that always answers, the loop as written still runs exactly 5 lookups |
| `Finder.FindUser` | app/page.tsx:62-85 | as written: at least 5 lookups; the result is the last lookup, which is the first hit from the 5th attempt on; the sentinel branch is unreachable |
| `Finder.Search` | app/page.tsx:68-84 | intended loop: between 1 and 5 lookups; every attempt before the last missed; the result is the last attempt's user when it hit, else the sentinel after exactly 5 lookups |
| `Finder.SearchAllMiss` | app/page.tsx:79-84 | five misses give the sentinel after exactly 5 lookups |
| `Finder.SearchStopsAtFirstHit` | app/page.tsx:70-77 | the intended loop returns the first hit, after as many lookups as it took |
| `Finder.SearchResultDisplayable` | app/page.tsx:50-84 | the result is displayable, and it is the sentinel or the user the directory returned on the last attempt |
| `Finder.FindCandidate` | app/page.tsx:62-85 | the intended `&&` loop computes exactly `Search` from attempt 0 |
| `Page.Decide` | app/page.tsx:98-150 | invalid message: abort; no message or `start`: no lookup; `matching` with a truthy even fid and button 2: match that fid; other `matching`: new candidate; `matched`: new candidate (each case an iff) |
| `Page.InitialStateIsIdle` | app/page.tsx:29-106 | with no message the initial state takes the no-lookup branch and is embedded back unchanged as a consistent start state |
| `Page.FirstPressFetches` | app/page.tsx:141-145 | pressing "Start!" reduces the initial state to `matching` without a candidate, so any valid press fetches a fresh candidate |
| `Page.EmitRoundTrip` | app/page.tsx:176-180 | in `matching` the state written back carries the shown user's fid; after the reducer the next request judges that user, and matches iff button 2 is pressed on a truthy even fid |
| `Page.Home` | app/page.tsx:98-200 | per branch: invalid message throws with no lookup; an idle request does no lookup; a match re-fetches the same fid once and emits it as `matched`; a new candidate is the `Search` result, emitted with its fid in `matching`; `matched` is emitted unchanged; never more than 5 lookups; `matched` comes only from an incoming `matched` or a truthy even fid; a start card without a candidate stays so |
| `Page.ReducedNeverNextRound` | app/page.tsx:130-150 | a state the reducer produced never takes the `matched` branch |
| `Page.ReducedConfirmsIff` | app/page.tsx:130-140 | after the reducer, a valid message matches iff button 2 is pressed on a truthy even fid |
| `Page.SentinelRetries` | app/page.tsx:130-145 | the sentinel's fid 0 is falsy: any button on it fetches a fresh candidate |
| `Page.MatchSurvivesNextRequest` | app/page.tsx:130-137 | after a match the reducer brings the same fid back in `matching`, and a post with button 2 on it would match again |
| `Page.MehAfterMatch` | app/page.tsx:130-140 | the matched card's "meh" (button 1) goes through the reducer to a fresh candidate |

## Left out

- `Finder.FindUser`: requires that some lookup from the 5th on hits. Without that the loop as written does not terminate, which `Finder.NeverExitsWhenAllMiss` states.
- `Page.Home`: candidates come from the corrected finder (`FindCandidate`), not the loop as written; see "Findings".
- `Page.Home`: the incoming state is a parameter. How frames.js's `getPreviousFrame` and `useFramesReducer` produce it is library code not shown; the lemmas about reduced states take `Reduce(prev)`.
- `getFrameMessage` and the signature check are library code: the message is the record `{isValid, buttonIndex}`. The other decoded fields are unused by the page.
- `fetch` and `res.json()` are network I/O: a lookup is the oracle `dir`, assumed to answer the same for a fid within one request. An empty result array throws at `data[0].body`; that runtime error is not modelled (`Response` carries the first record). A missing field is modelled as the empty string.
- `Math.random()` and `Math.ceil` are floating point and nondeterministic: the drawn fid is the oracle `sample`, typed to `0..MAX_FID`.
- fids are integers; a non-integer or `NaN` fid is not modelled.
- The reducer's action argument is ignored by the page and is not a parameter.
- Rendering (cards, images, buttons, the profile link, the debug link, the host URL) and `console.log` are presentation only.

## Findings

| source | as written | input that shows it | evidently intended | confidence | as-written member | corrected member |
|---|---|---|---|---|---|---|
| app/page.tsx:70 | `while (!user \|\| i < MAX_USER_RETRY)`: continues until at least 5 lookups are done and the last hit; the sentinel at lines 79-84 is dead | a directory that never answers: the loop never ends; one that always answers: 5 lookups where 1 suffices | `while (!user && i < MAX_USER_RETRY)`: stop at the first hit, return the sentinel after 5 misses | not executed | `Finder.FindUser`, `Finder.NeverExitsWhenAllMiss`, `Finder.FirstHitDoesNotStop` | `Finder.FindCandidate` |
