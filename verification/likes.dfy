/**
  The likes controller. `postLike` validates the request, asks the repository
  whether the directed edge (caller, target) exists, and only if it does not,
  creates it and sets status 201; every thrown error goes to `next`.
  `getLikedProfiles` answers with the repository lookup for the caller.

  The repository is not part of this model. The like table is a sequence of
  rows; `exists` is read as membership of the row and `create` as appending it,
  which is what makes `exists` true after `create`.
*/
module Likes {
  import opened Results

  /** A like row: `sentBy` likes `receivedBy`. */
  datatype Like = Like(sentBy: string, receivedBy: string)

  /** A `POST /likes` request: the validator's verdict, the token's `sub` and `like_to`. */
  datatype LikeRequest = LikeRequest(isValid: bool, sub: string, likeTo: string)

  /** What the handler hands on: an error thrown to `next`, or the status it set. */
  datatype Outcome = Rejected(msg: string) | Created(status: int)

  /** A repository call, in the order the handler made it. */
  datatype RepoCall = Exists(like: Like) | Create(like: Like)

  /** One handled request: its outcome, the table after it and the calls it made. */
  datatype Step = Step(outcome: Outcome, rows: seq<Like>, calls: seq<RepoCall>)

  const InvalidBody := "Request body is invalid"
  const AlreadyLiked := "You already liked this person"
  const StatusCreated := 201

  /** The table as a set of directed edges. */
  function Edges(rows: seq<Like>): set<(string, string)>
  {
    set l | l in rows :: (l.sentBy, l.receivedBy)
  }

  /** No ordered pair is stored twice. */
  predicate NoDuplicates(rows: seq<Like>)
  {
    forall i, j :: 0 <= i < j < |rows| ==> rows[i] != rows[j]
  }

  /** The edge a request asks for. */
  function Requested(req: LikeRequest): Like
  {
    Like(req.sub, req.likeTo)
  }

  /**
    The `postLike` handler over the like table. An invalid request is rejected
    before the repository is touched; an existing edge is rejected after the
    existence check and nothing is created; otherwise exactly the requested
    edge is added and the status is 201.
  */
  function PostLike(rows: seq<Like>, req: LikeRequest): (s: Step)
    ensures s.outcome.Created? <==> req.isValid && Requested(req) !in rows
    ensures s.outcome.Created? ==> s.outcome.status == StatusCreated
    ensures !req.isValid ==> s.outcome == Rejected(InvalidBody) && s.calls == []
    ensures req.isValid && Requested(req) in rows ==>
      s.outcome == Rejected(AlreadyLiked) && s.calls == [Exists(Requested(req))]
    ensures s.outcome.Created? ==> s.calls == [Exists(Requested(req)), Create(Requested(req))]
    ensures s.outcome.Rejected? ==> s.rows == rows
    ensures s.outcome.Created? ==> s.rows == rows + [Requested(req)]
    ensures Edges(s.rows) == Edges(rows) + (if s.outcome.Created? then {(req.sub, req.likeTo)} else {})
    ensures NoDuplicates(rows) ==> NoDuplicates(s.rows)
  {
    if !req.isValid then
      Step(Rejected(InvalidBody), rows, [])
    else
      var like := Requested(req);
      if like in rows then
        Step(Rejected(AlreadyLiked), rows, [Exists(like)])
      else
        Step(Created(StatusCreated), rows + [like], [Exists(like), Create(like)])
  }

  /** Repeating a request that succeeded is rejected and leaves the table as it was. */
  lemma RepeatIsRejected(rows: seq<Like>, req: LikeRequest)
    requires PostLike(rows, req).outcome.Created?
    ensures
      var again := PostLike(PostLike(rows, req).rows, req);
      again.outcome == Rejected(AlreadyLiked) && again.rows == PostLike(rows, req).rows
  {
  }

  /** The table after handling `reqs` one after another. */
  function Replay(rows: seq<Like>, reqs: seq<LikeRequest>): (r: seq<Like>)
    ensures NoDuplicates(rows) ==> NoDuplicates(r)
    ensures |rows| <= |r| && r[..|rows|] == rows
    ensures forall q :: q in reqs && q.isValid ==> Requested(q) in r
    ensures forall l :: l in r ==> l in rows || exists q :: q in reqs && q.isValid && Requested(q) == l
    decreases |reqs|
  {
    if reqs == [] then rows
    else Replay(PostLike(rows, reqs[0]).rows, reqs[1..])
  }

  lemma {:induction false} ReplayAppend(rows: seq<Like>, a: seq<LikeRequest>, b: seq<LikeRequest>)
    ensures Replay(rows, a + b) == Replay(Replay(rows, a), b)
    decreases |a|
  {
    if a == [] {
      assert a + b == b;
    } else {
      assert (a + b)[1..] == a[1..] + b;
      ReplayAppend(PostLike(rows, a[0]).rows, a[1..], b);
    }
  }

  /** Requests whose edges are all stored already change nothing. */
  lemma {:induction false} ReplaySaturated(rows: seq<Like>, reqs: seq<LikeRequest>)
    requires forall q :: q in reqs && q.isValid ==> Requested(q) in rows
    ensures Replay(rows, reqs) == rows
    decreases |reqs|
  {
    if reqs != [] {
      assert PostLike(rows, reqs[0]).rows == rows;
      ReplaySaturated(rows, reqs[1..]);
    }
  }

  /** Handling the same batch of requests twice leaves the table as handling it once. */
  lemma ReplayIdempotent(rows: seq<Like>, reqs: seq<LikeRequest>)
    ensures Replay(rows, reqs + reqs) == Replay(rows, reqs)
  {
    ReplayAppend(rows, reqs, reqs);
    ReplaySaturated(Replay(rows, reqs), reqs);
  }

  /** What `getLikedProfiles` does with the lookup: answer with it, or forward its error. */
  datatype Handled<+T, +E> = Responded(body: T) | Forwarded(error: E)

  /**
    The `getLikedProfiles` handler: the repository lookup is made for the
    caller's `sub`; its profiles become the response and its error goes to `next`.
  */
  function GetLikedProfiles<P, E>(sub: string, fetchLikedBy: string -> Result<seq<P>, E>): (h: Handled<seq<P>, E>)
    ensures h.Responded? <==> fetchLikedBy(sub).Success?
    ensures h.Responded? ==> h.body == fetchLikedBy(sub).value
    ensures h.Forwarded? ==> h.error == fetchLikedBy(sub).error
  {
    match fetchLikedBy(sub)
    case Success(profiles) => Responded(profiles)
    case Failure(err) => Forwarded(err)
  }
}
