# TrueSight claims repository: fetch decision and save hook

This project models, in Dafny, the two pieces of logic that
`TrueSightRepository.getAllClaims` plugs into its cache-then-network helper
(`NetworkBoundResource`):

- **`shouldFetch`** — given the cached claim list (absent before the first
  load), decide whether the remote claims feed must be fetched. The cached
  `PagedList` is modelled as `Option<seq<ClaimEntity>>`.
- **`saveCallResult`** — turn a fetched `ClaimsResponse` into a batch of
  `ClaimEntity` rows and hand it to `insertClaims`. A null body gives an empty
  batch. Null responses and responses without `dateCreated` are skipped.
  Every other response is converted field by field. The Kotlin casts
  (`as Int`, `as String`, `attachment?.get(0)`) make that conversion partial:
  a kept response with a missing required field throws, which aborts the
  whole save before `insertClaims` is reached.

Files:

- `wrappers.dfy` — `Option` (Kotlin's nullable types), `Result` and `Outcome`
  (a thrown exception).
- `claims.dfy` — module `Claims`: the response and entity records, the
  required fields in constructor-argument order, and `ToEntity`, the
  conversion of one kept response.
- `repository.dfy` — module `TrueSightRepository`: `ShouldFetch`, the batch
  conversion `ConvertFrom`/`ConvertClaims`, the imperative `SaveCallResult`
  that mirrors the Kotlin loop and records its store writes in a trace, and
  `Replay`, which applies a trace to a cached list.
- `repository_properties.dfy` — module `RepositoryProperties`: lemmas relating
  the batch to the kept responses, the skip rule, length bounds, the
  first-failure rule and the interplay of a save with the next fetch decision.

Modelling choices:

- A thrown exception is a value. `SaveError` records the payload position of
  the offending response and the cause. `NullCast(field)` is a cast of an
  absent value to a non-null type. `IndexOutOfBounds` is `get(0)` on an empty
  attachment list. A null attachment list, or a null first attachment, is a
  `NullCast(Attachment)`, because `null as String` is what fails there.
- The casts are evaluated in constructor-argument order: id, title,
  authorUsername, description, attachment, fake, upvote, downvote. The
  reported cause is the first failing field in that order.
- `dateCreated.toFloat()` is the caller-supplied total function
  `toDate: Raw -> D`, because the wire type of `dateCreated` is declared
  outside this file and is not modelled.
- The local store is observed only through the write trace
  (`seq<StoreOp>`). For the lemmas that connect a save with the next fetch
  decision, an insert appends its rows to the cached list (`Replay`).
- Integer fields are copied unchanged and never computed on, so Kotlin's
  32-bit `Int` needs no wrap-around modelling.

## Model

| member | source | states |
|---|---|---|
| TrueSightRepository.ShouldFetch | app/src/main/java/com/truesightid/data/TrueSightRepository.kt:70-71 | a fetch is requested for an absent cached list; for a present list, exactly when it is empty |
| RepositoryProperties.NoFetchIsStable | app/src/main/java/com/truesightid/data/TrueSightRepository.kt:70-71 | once the cached list holds a claim, no sequence of inserts makes the fetch decision true again |
| RepositoryProperties.RefetchAfterSaveIff | app/src/main/java/com/truesightid/data/TrueSightRepository.kt:70-100 | after a successful save into an empty cache, the next fetch decision on the cached list is true exactly when the payload had no non-null, dated response |
| Claims.ToEntity | app/src/main/java/com/truesightid/data/TrueSightRepository.kt:82-93 | a kept response converts exactly when all required fields (including a non-null first attachment) are present; each entity field is copied from its response field and the date is the converted dateCreated; on failure the culprit is the first absent field in argument order, and an empty attachment list gives the index error |
| TrueSightRepository.Keep | app/src/main/java/com/truesightid/data/TrueSightRepository.kt:81-97 | the kept responses are never more than the payload elements and all carry a creation date |
| TrueSightRepository.ConvertFrom | app/src/main/java/com/truesightid/data/TrueSightRepository.kt:81-98 | the batch succeeds exactly when every kept response is complete, is no longer than the payload, and a failure names the first kept incomplete response and its cast error |
| TrueSightRepository.ConvertClaims | app/src/main/java/com/truesightid/data/TrueSightRepository.kt:78-99 | a null body yields an empty batch; otherwise success exactly when every kept response is complete, and a failure is the first abort at its payload position |
| TrueSightRepository.SaveCallResult | app/src/main/java/com/truesightid/data/TrueSightRepository.kt:77-101 | the save completes exactly when the batch conversion succeeds, and then performs exactly one store write, inserting that batch; a null body inserts the empty batch once; an aborted save performs no store operation and reports the conversion's error |
| RepositoryProperties.AllKeptCompleteIff | app/src/main/java/com/truesightid/data/TrueSightRepository.kt:81-97 | the save's success condition holds exactly when every kept response, taken in order, is complete |
| RepositoryProperties.BatchFollowsKept | app/src/main/java/com/truesightid/data/TrueSightRepository.kt:79-97 | a successful batch has one entity per kept response, in payload order, each being that response's conversion |
| RepositoryProperties.KeptLandsAtTurn | app/src/main/java/com/truesightid/data/TrueSightRepository.kt:81-97 | a kept response at payload position j is the kept element whose index is the number of responses kept before j, so each kept response lands in the batch at its turn |
| RepositoryProperties.ConvertDeterminedByKept | app/src/main/java/com/truesightid/data/TrueSightRepository.kt:81-97 | two payloads with the same kept responses have the same success and the same batch |
| RepositoryProperties.SkipIsNotError | app/src/main/java/com/truesightid/data/TrueSightRepository.kt:82-97 | removing a null or undated response from the payload changes neither whether the save succeeds nor the batch it writes |
| RepositoryProperties.BatchLength | app/src/main/java/com/truesightid/data/TrueSightRepository.kt:81-97 | a successful batch is never longer than the payload, and equally long exactly when every element is non-null with a dateCreated |
| RepositoryProperties.AbortAtFirstIncomplete | app/src/main/java/com/truesightid/data/TrueSightRepository.kt:82-100 | when some kept response is incomplete, the save aborts with exactly the error of the first such response |

## Left out

- `getInstance` (lines 25-39): singleton construction with `@Volatile` and
  `synchronized`, a concurrency and lifetime concern.
- `upVoteClaimById`, `downVoteClaimById`, `loginRequest`, `postClaim`,
  `deleteLocalClaims` (lines 41-55): one-line delegations to
  `RemoteDataSource` and `LocalDataSource`, which are not part of this model.
- `createCall` (lines 74-75): the network request.
- `loadFromDB` (lines 60-67): Paging and Room plumbing (`PagedList.Config`,
  `LivePagedListBuilder`); the fetch decision receives the cached list as a
  plain optional sequence instead.
- `NetworkBoundResource` with its Loading/Success/Error sequencing, and
  `asLiveData()` (lines 59, 102): that class is not part of this model, so
  the two hooks are modelled standalone; `AppExecutors` threading and
  `LiveData` observation are left out with it.
- `toFloat()` on `dateCreated` (line 92): its input type is declared outside
  this file and is not modelled. It
  is the total parameter `toDate`, so a date that fails to parse (possible
  if the wire type is a string) is not modelled as a further abort.
- The DAO behind `insertClaims`: its conflict strategy is declared outside
  this file and is not modelled. A save
  is modelled as one recorded `InsertClaims` write, and `Replay` treats it
  as appending to the cached list.
- Claims.ToEntity: the response fields are taken to be declared `Int?`,
  `String?` and `List<String?>?` (the response class is declared outside this
  file), so a cast fails only on null; a `ClassCastException` raised by a
  present value of the wrong runtime type is not modelled.
