# Dating-app matching and like rules, modelled in Dafny

This project models the two backend rules of the dating application:

- **Candidate matching** (`backend/routes/profiles.ts`, `POST /`): the requester's
  stored Filter is turned into an ORM `where` object, the object is run over the
  profile store, the first three matches are kept, and each one's `birthday` is
  replaced by an `age`.
- **Like recording** (`backend/lib/likes/controller.ts`): `postLike` validates the
  request, checks whether the directed edge already exists, and only then creates
  it and sets status 201. `getLikedProfiles` answers with the repository lookup
  for the caller.

Files:

- `results.dfy`, module `Results`: `Option` (absent field / no reply) and `Result` (a store call's value or thrown error).
- `profiles.dfy`, module `ProfileMatching`: `Filter`, `Profile`, `Where`. It holds the
  builder `BuildWhere` and the ORM's reading of a `where` object, `Matches`. An absent
  field constrains nothing, `not` is inequality, `in` is membership, `gte`/`lte` are
  inclusive bounds, and `some: { OR }` means the tag lists share a name. This reading
  assumes exact string equality for `gender`, `in` and tag names (no collation or case
  folding) and non-null columns; the database provider, its collation and the schema's
  nullable fields are not part of this model. It also holds
  `Accepts`, an independent reading of what a filter admits, written directly over the
  filter, and the handler `PostProfiles`.
- `likes.dfy`, module `Likes`: the like table, `PostLike`, `Replay` (a batch of requests)
  and `GetLikedProfiles`.

Modelling choices:

- Dates are abstract integers. `calculateAge` and `convertAgetoDate` live in a utility
  file that is not part of this model. They enter as function parameters `ageOf` and
  `dateOfAge`, and nothing is assumed about them: no monotonicity and no relation between them.
- The profile store is a sequence in the ORM's result order, so `take: 3` is a prefix of
  the filtered sequence. The filters are a map from profile id, matching `findUnique` by `profileId`.
- The like repository is not part of this model. The like table is a sequence of rows.
  `exists` is read as membership of a row and `create` as appending one, so `create`
  makes `exists` true. A sequence is used rather than a set so that "at most one row per
  ordered pair" is a real invariant, and it is the guard that keeps it. `Edges` gives
  the set-of-pairs view.
- Request validity (express-validator) is a boolean input. The caller's `sub` (Auth0)
  is a plain string.
- A handler's thrown error, which goes to `next`, is `Rejected(msg)`. The status the
  handler sets is `Created(201)`. Each step records the repository calls it made, in
  order, so the order validate, then exists, then create can be stated.

## Model

| member | source | states |
|---|---|---|
| ProfileMatching.LookingForToGender | backend/routes/profiles.ts:9-18 | "Men" gives "Man" and only "Men" does; "Women" gives "Woman" and only "Women" does; every other string leaves gender unconstrained |
| ProfileMatching.LookingForToGenderInverse | backend/routes/profiles.ts:9-18 | the preference-to-gender mapping is one-to-one: the model's inverse `ShowMeFor` (which exists only in the model, not in the source) maps each gender back to the one preference that yields it |
| ProfileMatching.SomeOrSharesName | backend/routes/profiles.ts:77-86 | `some: { OR: alternatives }` over a tag relation holds iff the related tags and the alternatives share at least one name |
| ProfileMatching.PurposeTags | backend/routes/profiles.ts:83 | mapping purposes to `{ name }` objects keeps their number and order, each object carrying the corresponding purpose |
| ProfileMatching.BuildWhere | backend/routes/profiles.ts:64-87 | the id exclusion is unconditional; gender comes from the show-me mapping; the age range is present iff `isAgeFiltered`, with bounds `gte dateOfAge(maxAge)`, `lte dateOfAge(minAge)`; orientation membership, interest and purpose sharing are each present iff their own flag; and under the ORM's reading the object admits exactly the profiles the filter accepts |
| ProfileMatching.RequesterNeverMatches | backend/routes/profiles.ts:66 | the requester's own profile is never a candidate, whatever the filter |
| ProfileMatching.DisablingWidens | backend/routes/profiles.ts:68-86 | turning off any one of the age, orientation, interest or purpose flags never removes a candidate |
| ProfileMatching.DisabledValuesIgnored | backend/routes/profiles.ts:68-86 | filters that agree on flags, show-me and every enabled criterion select the same candidates, whatever is stored for disabled criteria (e.g. any min/max age when age filtering is off) |
| ProfileMatching.Select | backend/routes/profiles.ts:64-87 | the query result holds exactly the store profiles that satisfy the `where` object, and no more of them than the store has |
| ProfileMatching.SelectAppend | backend/routes/profiles.ts:64-87 | the query filters row by row: querying a concatenated store is concatenating the two results |
| ProfileMatching.Take | backend/routes/profiles.ts:92 | `take: n` keeps `min(n, length)` results and they are the leading ones |
| ProfileMatching.WithAge | backend/routes/profiles.ts:95-98 | the returned record's `age` is `calculateAge(birthday)` and putting the birthday back restores the stored profile, so no other field changes |
| ProfileMatching.PostProfiles | backend/routes/profiles.ts:51-101 | with no stored filter there is no candidate list; otherwise at most 3 profiles, exactly the first min(3, number of matches) store profiles the filter accepts, in store order, each with the age substitution, none of them the requester |
| ProfileMatching.ThirtyYearOldOnlyScenario | backend/routes/profiles.ts:64-87 | a women-aged-25-to-35 filter with every other criterion off admits only the 30-year-old of three women aged 20, 30 and 40 (on a year-granular clock) |
| Likes.PostLike | backend/lib/likes/controller.ts:21-42 | an invalid request is rejected with "Request body is invalid" before any repository call; an existing edge is rejected with "You already liked this person" after only the existence check; otherwise exists then create are called, exactly the edge (sub, like_to) is added and status is 201; a rejection leaves the table unchanged; no duplicate pair is ever introduced |
| Likes.RepeatIsRejected | backend/lib/likes/controller.ts:30-37 | repeating a request that succeeded is rejected as already liked and adds no second edge |
| Likes.Replay | backend/lib/likes/controller.ts:21-42 | after any batch of requests, existing rows are kept, every valid request's edge is stored, nothing else is added, and the table keeps at most one row per pair |
| Likes.ReplayAppend | backend/lib/likes/controller.ts:21-42 | handling two batches in a row is handling their concatenation |
| Likes.ReplaySaturated | backend/lib/likes/controller.ts:30-34 | requests whose edges are all stored already leave the table unchanged |
| Likes.ReplayIdempotent | backend/lib/likes/controller.ts:30-37 | handling the same batch twice leaves the table as handling it once |
| Likes.GetLikedProfiles | backend/lib/likes/controller.ts:7-19 | the response is the repository lookup for the caller's `sub` when it succeeds, and the lookup's error is forwarded to `next` when it fails |

## Left out

- The deprecated `POST /profileId` and the `GET /:userId` plain lookups: they are single `findUnique` calls with no logic of their own.
- Per-request `PrismaClient` construction and the ORM's result order: the store is given as a sequence already in that order.
- The internals of `calculateAge`, `convertAgetoDate` and the current-date clock: they are not in the modelled files. So whether a candidate aged exactly `minAge` or `maxAge` is admitted is not decided here.
- A configurable result limit or an optional age substitution: this handler fixes `take: 3` and always substitutes, and the model follows it.
- The HTTP transport: `res.json`, and the fact that `res.status(201)` sends no body. When no filter exists the handler never responds, which is modelled as `None`.
- The race between `exists` and `create` under concurrent requests: each request is handled alone.
- express-validator rules and Auth0 token verification: validity is a boolean input, and a missing `sub` claim is not modelled.
- ProfileMatching.PostProfiles: does not model a failing `filter.findUnique` or `profile.findMany`, or a throwing `convertAgetoDate`/`calculateAge`. The store and the utilities are not part of this model. In the source such an error is not caught: the handler has no `try`/`catch` and no `next`, so the request gets no reply.
- Likes.PostLike: does not model `exists` or `create` throwing a store error (which would also go to `next`), because the like repository is not part of this model.
- Likes.GetLikedProfiles: the lookup `fetchLikeProrilesByUserId` is a parameter, because the like repository is not part of this model. Which profiles it returns is not stated.
- The frontend files (account page, profile dialog, profile card layout): UI and network calls only.
