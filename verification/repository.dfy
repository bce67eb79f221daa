/** The two hooks that `getAllClaims` plugs into its cache-then-network
    helper: the fetch decision over the cached claim list, and the
    conversion of a fetched claims payload into the batch written to the
    local store. */
module TrueSightRepository {
  import opened Wrappers
  import opened Claims

  /** Why saving a payload aborted: the position in the payload of the
      offending response and the cast that failed on it. */
  datatype SaveError = Aborted(position: nat, cause: CastError)

  /** The local-store operations the save hook can perform. Insertion is the
      only one, so that no other kind of store operation happens holds by
      this type; what `SaveCallResult` proves is that exactly one insert
      happens on success and none on abort. */
  datatype StoreOp<D> = InsertClaims(claims: seq<ClaimEntity<D>>)

  /** Whether the cached claim list (absent until the first load) calls for
      a remote fetch. */
  function ShouldFetch<D>(cached: Option<seq<ClaimEntity<D>>>): (fetch: bool)
    ensures cached.None? ==> fetch
    ensures cached.Some? ==> (fetch <==> |cached.value| == 0)
  {
    cached.None? || |cached.value| == 0
  }

  /** The responses the save hook converts, in payload order. */
  function Keep<Raw>(body: seq<Option<ClaimResponse<Raw>>>): (kept: seq<ClaimResponse<Raw>>)
    ensures |kept| <= |body|
    ensures forall k :: 0 <= k < |kept| ==> kept[k].dateCreated.Some?
  {
    if |body| == 0 then []
    else (if Kept(body[0]) then [body[0].value] else []) + Keep(body[1..])
  }

  /** Every response the save hook keeps has all its required fields. */
  predicate AllKeptComplete<Raw>(body: seq<Option<ClaimResponse<Raw>>>) {
    forall j :: 0 <= j < |body| && Kept(body[j]) ==> Complete(body[j].value)
  }

  /** `e` is the error raised by the first kept, incomplete response of
      `body`, whose first element sits at payload position `start`. */
  predicate FirstAbort<Raw, D>(body: seq<Option<ClaimResponse<Raw>>>, toDate: Raw -> D, start: nat, e: SaveError) {
    && start <= e.position < start + |body|
    && Kept(body[e.position - start])
    && ToEntity(body[e.position - start].value, toDate) == Failure(e.cause)
    && AllKeptComplete(body[..e.position - start])
  }

  /** A response that converts does not hide a later abort: the first abort
      of the tail is the first abort of the whole. */
  lemma FirstAbortOfTail<Raw, D>(body: seq<Option<ClaimResponse<Raw>>>, toDate: Raw -> D, start: nat)
    requires |body| > 0
    requires Kept(body[0]) ==> Complete(body[0].value)
    ensures forall e :: FirstAbort(body[1..], toDate, start + 1, e) ==> FirstAbort(body, toDate, start, e)
  {
    forall e | FirstAbort(body[1..], toDate, start + 1, e) ensures FirstAbort(body, toDate, start, e) {
      var p := e.position - start;
      assert body[1..][p - 1] == body[p];
      assert body[..p] == [body[0]] + body[1..][..p - 1];
    }
  }

  /** The batch built from `body`, whose first element sits at payload
      position `start`: skipped responses contribute nothing, kept ones one
      entity each, and the first failing cast aborts the whole batch. */
  function ConvertFrom<Raw, D>(body: seq<Option<ClaimResponse<Raw>>>, toDate: Raw -> D, start: nat)
    : (r: Result<seq<ClaimEntity<D>>, SaveError>)
    ensures r.Success? <==> AllKeptComplete(body)
    ensures r.Success? ==> |r.value| <= |body|
    ensures r.Failure? ==> FirstAbort(body, toDate, start, r.error)
    decreases |body|
  {
    if |body| == 0 then Success([])
    else if !Kept(body[0]) then
      FirstAbortOfTail(body, toDate, start);
      ConvertFrom(body[1..], toDate, start + 1)
    else
      match ToEntity(body[0].value, toDate)
      case Failure(e) => Failure(Aborted(start, e))
      case Success(c) =>
        FirstAbortOfTail(body, toDate, start);
        match ConvertFrom(body[1..], toDate, start + 1)
        case Failure(e) => Failure(e)
        case Success(rest) => Success([c] + rest)
  }

  /** The response body the save hook iterates over; an absent body
      iterates over nothing. */
  function Body<Raw>(data: ClaimsResponse<Raw>): seq<Option<ClaimResponse<Raw>>> {
    data.data.GetOr([])
  }

  /** The batch the save hook writes for a payload, or the error that
      aborts it. */
  function ConvertClaims<Raw, D>(data: ClaimsResponse<Raw>, toDate: Raw -> D)
    : (r: Result<seq<ClaimEntity<D>>, SaveError>)
    ensures data.data.None? ==> r == Success([])
    ensures r.Success? <==> AllKeptComplete(Body(data))
    ensures r.Success? ==> |r.value| <= |Body(data)|
    ensures r.Failure? ==> FirstAbort(Body(data), toDate, 0, r.error)
  {
    ConvertFrom(Body(data), toDate, 0)
  }

  /** Prefixes the entities already built to the outcome of the rest. */
  function Prepend<D>(done: seq<ClaimEntity<D>>, rest: Result<seq<ClaimEntity<D>>, SaveError>)
    : Result<seq<ClaimEntity<D>>, SaveError>
  {
    match rest
    case Success(tail) => Success(done + tail)
    case Failure(e) => Failure(e)
  }

  /** Moving one entity from the outcome of the rest onto the entities
      already built does not change the combined outcome. */
  lemma AppendStep<D>(done: seq<ClaimEntity<D>>, c: ClaimEntity<D>, rest: Result<seq<ClaimEntity<D>>, SaveError>)
    ensures Prepend(done, Prepend([c], rest)) == Prepend(done + [c], rest)
  {
    if rest.Success? {
      assert done + ([c] + rest.value) == (done + [c]) + rest.value;
    }
  }

  /** The save hook: walks the payload, builds the batch, and on completion
      issues exactly one insert. An aborted walk issues no store operation. */
  method SaveCallResult<Raw, D>(data: ClaimsResponse<Raw>, toDate: Raw -> D)
    returns (outcome: Outcome<SaveError>, trace: seq<StoreOp<D>>)
    ensures data.data.None? ==> outcome.Pass? && trace == [InsertClaims([])]
    ensures outcome.Pass? <==> ConvertClaims(data, toDate).Success?
    ensures outcome.Pass? ==> trace == [InsertClaims(ConvertClaims(data, toDate).value)]
    ensures outcome.Fail? ==> trace == [] && outcome.error == ConvertClaims(data, toDate).error
  {
    var claimList: seq<ClaimEntity<D>> := [];
    if data.data.Some? {
      var body := data.data.value;
      assert body[0..] == body;
      var whole := ConvertFrom(body, toDate, 0);
      assert whole.Success? ==> [] + whole.value == whole.value;
      for i := 0 to |body|
        invariant ConvertFrom(body, toDate, 0) == Prepend(claimList, ConvertFrom(body[i..], toDate, i))
      {
        var response := body[i];
        assert body[i..][1..] == body[i + 1..];
        if Kept(response) {
          var claim := ToEntity(response.value, toDate);
          if claim.Failure? {
            return Fail(Aborted(i, claim.error)), [];
          }
          AppendStep(claimList, claim.value, ConvertFrom(body[i + 1..], toDate, i + 1));
          claimList := claimList + [claim.value];
        }
      }
      assert body[|body|..] == [];
      assert claimList + [] == claimList;
      assert ConvertClaims(data, toDate) == whole;
    }
    return Pass, [InsertClaims(claimList)];
  }

  /** The cached list after replaying a trace of writes; an insert adds its
      claims after those already stored. */
  function Replay<D>(store: seq<ClaimEntity<D>>, trace: seq<StoreOp<D>>): seq<ClaimEntity<D>>
    decreases |trace|
  {
    if |trace| == 0 then store else Replay(store + trace[0].claims, trace[1..])
  }
}
