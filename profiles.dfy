/**
 * Profiles as the page fetches them from the profile directory, and the
 * acceptance filter of `findUserById`: a record is shown only when it has
 * both an avatar and a display name.
 */
module Profiles {
  import opened Wrappers

  /** The `body` of one directory record. A field the directory leaves out is
      the empty string here: in the page both are falsy. */
  datatype ProfileBody = ProfileBody(id: int, avatarUrl: string, username: string, displayName: string)

  /** The directory's HTTP answer as the page reads it: a non-success status,
      or a success whose first record has the given body. */
  datatype Response = NotOk | Ok(body: ProfileBody)

  /** A candidate as the page shows it. */
  datatype User = User(fid: int, image: string, username: string, displayName: string)

  /** A user the page can draw: both the picture and the name are present. */
  predicate Displayable(u: User)
  {
    u.image != "" && u.displayName != ""
  }

  /** The body a user would be fetched from (the inverse of the field mapping). */
  function BodyOf(u: User): ProfileBody
  {
    ProfileBody(u.fid, u.image, u.username, u.displayName)
  }

  /** `findUserById` after the fetch: a success whose record has an avatar and
      a display name becomes a user with the record's fields; anything else is
      "not found". */
  function FindUserById(res: Response): (r: Option<User>)
    ensures r.Some? <==> res.Ok? && res.body.avatarUrl != "" && res.body.displayName != ""
    ensures r.Some? ==> Displayable(r.value) && BodyOf(r.value) == res.body
  {
    if res.Ok? && res.body.avatarUrl != "" && res.body.displayName != "" then
      Some(User(res.body.id, res.body.avatarUrl, res.body.username, res.body.displayName))
    else
      None
  }

  /** Fetching a user's own record gives that user back exactly when it is displayable. */
  lemma AcceptRoundTrip(u: User)
    ensures FindUserById(Ok(BodyOf(u))) == (if Displayable(u) then Some(u) else None)
  {
  }
}
