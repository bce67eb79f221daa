/** Properties of the save hook and the fetch decision that relate several
    calls or compare the hooks with independent descriptions of them. */
module RepositoryProperties {
  import opened Wrappers
  import opened Claims
  import opened TrueSightRepository

  /** Filtering distributes over concatenation. */
  lemma {:induction false} KeepAppend<Raw>(a: seq<Option<ClaimResponse<Raw>>>, b: seq<Option<ClaimResponse<Raw>>>)
    ensures Keep(a + b) == Keep(a) + Keep(b)
    decreases |a|
  {
    if |a| == 0 {
      assert a + b == b;
    } else {
      assert (a + b)[0] == a[0];
      assert (a + b)[1..] == a[1..] + b;
      KeepAppend(a[1..], b);
    }
  }

  /** Nothing is kept exactly when every response is absent or undated. */
  lemma {:induction false} KeepEmptyIff<Raw>(body: seq<Option<ClaimResponse<Raw>>>)
    ensures Keep(body) == [] <==> forall j :: 0 <= j < |body| ==> !Kept(body[j])
    decreases |body|
  {
    if |body| > 0 {
      KeepEmptyIff(body[1..]);
      assert forall j :: 1 <= j < |body| ==> body[1..][j - 1] == body[j];
    }
  }

  /** Everything is kept exactly when every response is present and dated. */
  lemma {:induction false} KeepFullIff<Raw>(body: seq<Option<ClaimResponse<Raw>>>)
    ensures |Keep(body)| == |body| <==> forall j :: 0 <= j < |body| ==> Kept(body[j])
    decreases |body|
  {
    if |body| > 0 {
      KeepFullIff(body[1..]);
      assert forall j :: 1 <= j < |body| ==> body[1..][j - 1] == body[j];
    }
  }

  /** Every response of the list has all its required fields. */
  predicate EveryComplete<Raw>(rs: seq<ClaimResponse<Raw>>) {
    forall k :: 0 <= k < |rs| ==> Complete(rs[k])
  }

  /** A list headed by `r` is all complete exactly when `r` and the rest are. */
  lemma EveryCompleteCons<Raw>(r: ClaimResponse<Raw>, rs: seq<ClaimResponse<Raw>>)
    ensures EveryComplete([r] + rs) <==> Complete(r) && EveryComplete(rs)
  {
    var all := [r] + rs;
    assert all[0] == r;
    assert forall k :: 0 <= k < |rs| ==> all[k + 1] == rs[k];
    if Complete(r) && EveryComplete(rs) {
      forall k | 0 <= k < |all| ensures Complete(all[k]) {
        if k > 0 {
          assert all[k] == rs[k - 1];
        }
      }
    }
  }

  /** The save hook's success condition, stated on the kept responses
      alone: every one of them is complete. */
  lemma {:induction false} AllKeptCompleteIff<Raw>(body: seq<Option<ClaimResponse<Raw>>>)
    ensures AllKeptComplete(body) <==> EveryComplete(Keep(body))
    decreases |body|
  {
    if |body| > 0 {
      var rest := body[1..];
      AllKeptCompleteIff(rest);
      assert forall j :: 1 <= j < |body| ==> rest[j - 1] == body[j];
      assert AllKeptComplete(body) <==> (Kept(body[0]) ==> Complete(body[0].value)) && AllKeptComplete(rest);
      if Kept(body[0]) {
        assert Keep(body) == [body[0].value] + Keep(rest);
        EveryCompleteCons(body[0].value, Keep(rest));
      } else {
        assert Keep(body) == Keep(rest);
      }
    }
  }

  /** A successful batch holds one entity per kept response, in payload
      order, each converted from that response. */
  lemma {:induction false} BatchFollowsKept<Raw, D>(body: seq<Option<ClaimResponse<Raw>>>, toDate: Raw -> D, start: nat)
    requires ConvertFrom(body, toDate, start).Success?
    ensures |ConvertFrom(body, toDate, start).value| == |Keep(body)|
    ensures forall k :: 0 <= k < |Keep(body)| ==>
      ToEntity(Keep(body)[k], toDate) == Success(ConvertFrom(body, toDate, start).value[k])
    decreases |body|
  {
    if |body| > 0 {
      BatchFollowsKept(body[1..], toDate, start + 1);
    }
  }

  /** Stated in payload positions: a kept response at position j is the
      kept element that follows the ones kept before j, so together with
      `BatchFollowsKept` it lands in the batch at its turn. */
  lemma KeptLandsAtTurn<Raw>(body: seq<Option<ClaimResponse<Raw>>>, j: nat)
    requires j < |body| && Kept(body[j])
    ensures |Keep(body[..j])| < |Keep(body)|
    ensures Keep(body)[|Keep(body[..j])|] == body[j].value
  {
    assert body == body[..j] + ([body[j]] + body[j + 1..]);
    KeepAppend(body[..j], [body[j]] + body[j + 1..]);
    KeepAppend([body[j]], body[j + 1..]);
    assert Keep([body[j]]) == [body[j].value];
  }

  /** The outcome of the save hook depends on the payload only through the
      responses it keeps: equal kept lists give equal outcomes. */
  lemma ConvertDeterminedByKept<Raw, D>(a: seq<Option<ClaimResponse<Raw>>>, b: seq<Option<ClaimResponse<Raw>>>,
                                         toDate: Raw -> D, s: nat, t: nat)
    requires Keep(a) == Keep(b)
    ensures ConvertFrom(a, toDate, s).Success? <==> ConvertFrom(b, toDate, t).Success?
    ensures ConvertFrom(a, toDate, s).Success? ==> ConvertFrom(a, toDate, s).value == ConvertFrom(b, toDate, t).value
  {
    AllKeptCompleteIff(a);
    AllKeptCompleteIff(b);
    if ConvertFrom(a, toDate, s).Success? {
      BatchFollowsKept(a, toDate, s);
      BatchFollowsKept(b, toDate, t);
    }
  }

  /** An absent or undated response is skipped, not an error: removing it
      from the payload changes neither the success of the save nor the
      batch written. */
  lemma SkipIsNotError<Raw, D>(data: ClaimsResponse<Raw>, toDate: Raw -> D, j: nat)
    requires j < |Body(data)| && !Kept(Body(data)[j])
    ensures var without := ClaimsResponse(Some(Body(data)[..j] + Body(data)[j + 1..]));
      && (ConvertClaims(data, toDate).Success? <==> ConvertClaims(without, toDate).Success?)
      && (ConvertClaims(data, toDate).Success? ==>
            ConvertClaims(data, toDate).value == ConvertClaims(without, toDate).value)
  {
    var body := Body(data);
    assert body == body[..j] + ([body[j]] + body[j + 1..]);
    KeepAppend(body[..j], [body[j]] + body[j + 1..]);
    KeepAppend([body[j]], body[j + 1..]);
    assert Keep([body[j]]) == [];
    KeepAppend(body[..j], body[j + 1..]);
    ConvertDeterminedByKept(body, body[..j] + body[j + 1..], toDate, 0, 0);
  }

  /** A successful batch is never longer than the payload, and is exactly as
      long when every response is present and dated. */
  lemma BatchLength<Raw, D>(data: ClaimsResponse<Raw>, toDate: Raw -> D)
    requires ConvertClaims(data, toDate).Success?
    ensures |ConvertClaims(data, toDate).value| <= |Body(data)|
    ensures |ConvertClaims(data, toDate).value| == |Body(data)| <==>
      forall j :: 0 <= j < |Body(data)| ==> Kept(Body(data)[j])
  {
    BatchFollowsKept(Body(data), toDate, 0);
    KeepFullIff(Body(data));
  }

  /** Only one error can be the first abort of a payload. */
  lemma FirstAbortUnique<Raw, D>(body: seq<Option<ClaimResponse<Raw>>>, toDate: Raw -> D, start: nat, e: SaveError, e': SaveError)
    requires FirstAbort(body, toDate, start, e) && FirstAbort(body, toDate, start, e')
    ensures e == e'
  {
  }

  /** Conversely to the save hook's failure contract: when some kept
      response is incomplete, the save aborts with the error of the first
      such response. */
  lemma AbortAtFirstIncomplete<Raw, D>(data: ClaimsResponse<Raw>, toDate: Raw -> D, e: SaveError)
    requires FirstAbort(Body(data), toDate, 0, e)
    ensures ConvertClaims(data, toDate) == Failure(e)
  {
    var r := ConvertClaims(data, toDate);
    assert !AllKeptComplete(Body(data));
    FirstAbortUnique(Body(data), toDate, 0, r.error, e);
  }

  /** After a successful save into an empty cache, the next fetch decision
      on the cached list is true exactly when the payload held no present,
      dated response. */
  lemma RefetchAfterSaveIff<Raw, D>(data: ClaimsResponse<Raw>, toDate: Raw -> D)
    requires ConvertClaims(data, toDate).Success?
    ensures ShouldFetch(Some(Replay([], [InsertClaims(ConvertClaims(data, toDate).value)]))) <==>
      forall j :: 0 <= j < |Body(data)| ==> !Kept(Body(data)[j])
  {
    BatchFollowsKept(Body(data), toDate, 0);
    KeepEmptyIff(Body(data));
    var batch := ConvertClaims(data, toDate).value;
    assert Replay([], [InsertClaims(batch)]) == Replay([] + batch, []);
    assert [] + batch == batch;
  }

  /** Once the cache holds a claim, no sequence of writes brings the fetch
      decision back. */
  lemma {:induction false} NoFetchIsStable<D>(store: seq<ClaimEntity<D>>, trace: seq<StoreOp<D>>)
    requires !ShouldFetch(Some(store))
    ensures !ShouldFetch(Some(Replay(store, trace)))
    decreases |trace|
  {
    if |trace| > 0 {
      NoFetchIsStable(store + trace[0].claims, trace[1..]);
    }
  }
}
