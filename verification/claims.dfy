/** The records exchanged by the claims feed: the remote `ClaimResponse`
    (every field nullable) and the local `ClaimEntity` (every field required),
    and the conversion of one response into one entity that the repository
    performs when it persists a fetched page of claims. */
module Claims {
  import opened Wrappers

  /** One element of the remote payload. `Raw` is the wire type of the
      creation date, which is converted by a caller-supplied function. */
  datatype ClaimResponse<Raw> = ClaimResponse(
    id: Option<int>,
    title: Option<string>,
    authorUsername: Option<string>,
    description: Option<string>,
    attachment: Option<seq<Option<string>>>,
    fake: Option<int>,
    upvote: Option<int>,
    downvote: Option<int>,
    dateCreated: Option<Raw>)

  /** The whole remote payload: an optional list of optional responses. */
  datatype ClaimsResponse<Raw> = ClaimsResponse(data: Option<seq<Option<ClaimResponse<Raw>>>>)

  /** The row stored locally. `D` is the converted date type. */
  datatype ClaimEntity<D> = ClaimEntity(
    id: int,
    title: string,
    authorUsername: string,
    description: string,
    attachment: string,
    fake: int,
    upvote: int,
    downvote: int,
    dateCreated: D)

  /** The required fields of a response, named after the entity argument
      they feed. */
  datatype Field = Id | Title | AuthorUsername | Description | Attachment | Fake | Upvote | Downvote

  /** The position of a field among the entity constructor's arguments,
      which is the order in which the casts are evaluated. */
  function Rank(f: Field): nat {
    match f
    case Id => 0
    case Title => 1
    case AuthorUsername => 2
    case Description => 3
    case Attachment => 4
    case Fake => 5
    case Upvote => 6
    case Downvote => 7
  }

  /** Why the conversion of one response aborted: a cast of an absent value
      to a non-null type, or reading the first attachment of an empty list. */
  datatype CastError = NullCast(field: Field) | IndexOutOfBounds {

    /** The field whose evaluation raised the error. */
    function Culprit(): Field {
      match this
      case NullCast(f) => f
      case IndexOutOfBounds => Attachment
    }
  }

  /** Whether a response carries a usable value for the given field; for the
      attachment that means a list whose first element is present. */
  predicate Present<Raw>(r: ClaimResponse<Raw>, f: Field) {
    match f
    case Id => r.id.Some?
    case Title => r.title.Some?
    case AuthorUsername => r.authorUsername.Some?
    case Description => r.description.Some?
    case Attachment =>
      r.attachment.Some? && |r.attachment.value| > 0 && r.attachment.value[0].Some?
    case Fake => r.fake.Some?
    case Upvote => r.upvote.Some?
    case Downvote => r.downvote.Some?
  }

  /** A response every required field of which is present. */
  predicate Complete<Raw>(r: ClaimResponse<Raw>) {
    && Present(r, Id) && Present(r, Title) && Present(r, AuthorUsername)
    && Present(r, Description) && Present(r, Attachment) && Present(r, Fake)
    && Present(r, Upvote) && Present(r, Downvote)
  }

  /** A response that the repository converts rather than skips: present and
      carrying a creation date. */
  predicate Kept<Raw>(r: Option<ClaimResponse<Raw>>) {
    r.Some? && r.value.dateCreated.Some?
  }

  /** Converts a kept response into an entity, evaluating the required
      fields in argument order and aborting at the first one that is absent. */
  function ToEntity<Raw, D>(r: ClaimResponse<Raw>, toDate: Raw -> D): (e: Result<ClaimEntity<D>, CastError>)
    requires r.dateCreated.Some?
    ensures e.Success? <==> Complete(r)
    ensures e.Success? ==>
      && e.value.id == r.id.value
      && e.value.title == r.title.value
      && e.value.authorUsername == r.authorUsername.value
      && e.value.description == r.description.value
      && e.value.attachment == r.attachment.value[0].value
      && e.value.fake == r.fake.value
      && e.value.upvote == r.upvote.value
      && e.value.downvote == r.downvote.value
      && e.value.dateCreated == toDate(r.dateCreated.value)
    ensures e.Failure? ==>
      && !Present(r, e.error.Culprit())
      && forall g: Field :: Rank(g) < Rank(e.error.Culprit()) ==> Present(r, g)
    ensures e.Failure? && e.error.Culprit() == Attachment ==>
      (e.error.IndexOutOfBounds? <==> r.attachment == Some([]))
  {
    if r.id.None? then Failure(NullCast(Id))
    else if r.title.None? then Failure(NullCast(Title))
    else if r.authorUsername.None? then Failure(NullCast(AuthorUsername))
    else if r.description.None? then Failure(NullCast(Description))
    else if r.attachment.None? then Failure(NullCast(Attachment))
    else if |r.attachment.value| == 0 then Failure(IndexOutOfBounds)
    else if r.attachment.value[0].None? then Failure(NullCast(Attachment))
    else if r.fake.None? then Failure(NullCast(Fake))
    else if r.upvote.None? then Failure(NullCast(Upvote))
    else if r.downvote.None? then Failure(NullCast(Downvote))
    else
      Success(ClaimEntity(
        r.id.value, r.title.value, r.authorUsername.value, r.description.value,
        r.attachment.value[0].value, r.fake.value, r.upvote.value, r.downvote.value,
        toDate(r.dateCreated.value)))
  }
}
