/**
 * The vote ledger of user/schema.py (UpvotePDF.mutate, DownvotePDF.mutate)
 * as pure functions on one record. For each (user, document) pair the vote
 * state is NoVote, Up or Down; casting the same vote again retracts it, and
 * casting the opposite vote switches polarity.
 */
module Votes {
  import opened Models

  datatype Vote = NoVote | Up | Down

  datatype Ballot = Upvote | Downvote

  /**
   * The vote `u` holds on `p`, read off the two voter relations. On a
   * consistent record it is Up exactly for the members of `upvotes`, Down
   * exactly for the members of `downvotes`, and NoVote for everyone else.
   */
  function VoteOf(p: Pdf, u: UserId): (v: Vote)
    ensures Consistent(p) ==> (v == Up <==> u in p.upvotes) && (v == Down <==> u in p.downvotes)
    ensures v == NoVote <==> u !in p.upvotes && u !in p.downvotes
  {
    if u in p.upvotes then Up else if u in p.downvotes then Down else NoVote
  }

  /**
   * The transition table of one (user, document) pair. Every cast changes the
   * state, and it ends in NoVote exactly when it repeats the vote already held.
   */
  function Next(v: Vote, b: Ballot): (w: Vote)
    ensures w != v
    ensures w == NoVote <==> (v == Up && b == Upvote) || (v == Down && b == Downvote)
    ensures w != NoVote ==> (w == Up <==> b == Upvote)
  {
    match b
    case Upvote => if v == Up then NoVote else Up
    case Downvote => if v == Down then NoVote else Down
  }

  /** The record after a cast, and the boolean the mutation reports. */
  datatype Outcome = Outcome(pdf: Pdf, success: bool)

  /**
   * UpvotePDF.mutate on an existing record. The result reports true exactly
   * when the user ends up holding an up-vote; nobody else's vote and none of
   * the text fields change; on a consistent record the counters follow the
   * relations and the user's state follows the transition table.
   */
  function CastUp(p: Pdf, u: UserId): (r: Outcome)
    ensures SameMetadata(p, r.pdf)
    ensures r.success <==> VoteOf(r.pdf, u) == Up
    ensures forall v :: v != u ==> VoteOf(r.pdf, v) == VoteOf(p, v)
    ensures Consistent(p) ==> Consistent(r.pdf)
    ensures Consistent(p) ==> VoteOf(r.pdf, u) == Next(VoteOf(p, u), Upvote)
    ensures Consistent(p) ==>
      && r.pdf.upvote == p.upvote + (if VoteOf(p, u) == Up then -1 else 1)
      && r.pdf.downvote == p.downvote - (if VoteOf(p, u) == Down then 1 else 0)
  {
    if u in p.upvotes then
      Outcome(p.(upvotes := p.upvotes - {u}, upvote := p.upvote - 1), false)
    else
      var q := if u in p.downvotes then p.(downvotes := p.downvotes - {u}, downvote := p.downvote - 1) else p;
      Outcome(q.(upvotes := q.upvotes + {u}, upvote := q.upvote + 1), true)
  }

  /** DownvotePDF.mutate on an existing record: the mirror image of CastUp. */
  function CastDown(p: Pdf, u: UserId): (r: Outcome)
    ensures SameMetadata(p, r.pdf)
    ensures r.success <==> VoteOf(r.pdf, u) == Down
    ensures forall v :: v != u ==> VoteOf(r.pdf, v) == VoteOf(p, v)
    ensures Consistent(p) ==> Consistent(r.pdf)
    ensures Consistent(p) ==> VoteOf(r.pdf, u) == Next(VoteOf(p, u), Downvote)
    ensures Consistent(p) ==>
      && r.pdf.downvote == p.downvote + (if VoteOf(p, u) == Down then -1 else 1)
      && r.pdf.upvote == p.upvote - (if VoteOf(p, u) == Up then 1 else 0)
  {
    if u in p.downvotes then
      Outcome(p.(downvotes := p.downvotes - {u}, downvote := p.downvote - 1), false)
    else
      var q := if u in p.upvotes then p.(upvotes := p.upvotes - {u}, upvote := p.upvote - 1) else p;
      Outcome(q.(downvotes := q.downvotes + {u}, downvote := q.downvote + 1), true)
  }

  function Cast(p: Pdf, u: UserId, b: Ballot): Outcome {
    match b
    case Upvote => CastUp(p, u)
    case Downvote => CastDown(p, u)
  }

  /** One cast on a consistent record moves the score by the size of the state change. */
  lemma CastScore(p: Pdf, u: UserId, b: Ballot)
    requires Consistent(p)
    ensures Score(Cast(p, u, b).pdf) - Score(p) == Weight(Next(VoteOf(p, u), b)) - Weight(VoteOf(p, u))
  {
  }

  /** What one vote contributes to the score. */
  function Weight(v: Vote): int {
    match v
    case NoVote => 0
    case Up => 1
    case Down => -1
  }

  /** The record with the roles of up-votes and down-votes exchanged. */
  function Mirror(p: Pdf): (q: Pdf)
    ensures SameMetadata(p, q)
    ensures Score(q) == -Score(p)
    ensures Consistent(p) <==> Consistent(q)
  {
    p.(upvote := p.downvote, downvote := p.upvote, upvotes := p.downvotes, downvotes := p.upvotes)
  }

  /** castDown is castUp seen in the mirror. */
  lemma CastDownMirrorsCastUp(p: Pdf, u: UserId)
    ensures CastDown(p, u) == Outcome(Mirror(CastUp(Mirror(p), u).pdf), CastUp(Mirror(p), u).success)
  {
  }

  /**
   * Two successive up-votes by the same user. From an up-vote: false, then
   * true, and the record is back as it was. Otherwise: true, then false, no
   * vote left and the up-vote count back; the record is back as it was when
   * the user had not voted.
   */
  lemma UpvoteTwice(p: Pdf, u: UserId)
    requires Consistent(p)
    ensures var first := CastUp(p, u); var second := CastUp(first.pdf, u);
      && (VoteOf(p, u) == Up ==> !first.success && second.success && second.pdf == p)
      && (VoteOf(p, u) != Up ==>
            && first.success && !second.success
            && VoteOf(second.pdf, u) == NoVote
            && second.pdf.upvote == p.upvote)
      && (VoteOf(p, u) == NoVote ==> second.pdf == p)
  {
  }

  /**
   * An up-vote that takes effect, followed by a down-vote by the same user,
   * leaves a down-vote; the user never holds both at once.
   */
  lemma UpvoteThenDownvote(p: Pdf, u: UserId)
    requires Consistent(p) && VoteOf(p, u) != Up
    ensures var first := CastUp(p, u); var second := CastDown(first.pdf, u);
      && VoteOf(first.pdf, u) == Up && VoteOf(second.pdf, u) == Down
      && second.success
      && second.pdf.upvote == first.pdf.upvote - 1
      && second.pdf.downvote == first.pdf.downvote + 1
      && Consistent(first.pdf) && Consistent(second.pdf)
  {
  }

  /** One vote request: who votes, and which way. */
  datatype Request = Request(voter: UserId, ballot: Ballot)

  /** The record after a sequence of vote requests, applied in order. */
  function Replay(p: Pdf, rs: seq<Request>): Pdf
    decreases |rs|
  {
    if rs == [] then p else Replay(Cast(p, rs[0].voter, rs[0].ballot).pdf, rs[1..])
  }

  /** The ballots that `u` cast, in order. */
  function History(rs: seq<Request>, u: UserId): seq<Ballot>
    decreases |rs|
  {
    if rs == [] then []
    else (if rs[0].voter == u then [rs[0].ballot] else []) + History(rs[1..], u)
  }

  /** The state reached from `v` by running the transition table over `bs`. */
  function Run(v: Vote, bs: seq<Ballot>): Vote
    decreases |bs|
  {
    if bs == [] then v else Run(Next(v, bs[0]), bs[1..])
  }

  /**
   * Any sequence of votes keeps a record consistent (so the counters equal the
   * sizes of the voter relations and never go negative) and its metadata
   * intact, and each user's final vote depends on that user's ballots alone.
   */
  lemma {:induction false} ReplayPerVoter(p: Pdf, rs: seq<Request>, u: UserId)
    requires Consistent(p)
    ensures Consistent(Replay(p, rs))
    ensures SameMetadata(p, Replay(p, rs))
    ensures VoteOf(Replay(p, rs), u) == Run(VoteOf(p, u), History(rs, u))
    decreases |rs|
  {
    if rs != [] {
      var q := Cast(p, rs[0].voter, rs[0].ballot).pdf;
      ReplayPerVoter(q, rs[1..], u);
      if rs[0].voter == u {
        assert History(rs, u) == [rs[0].ballot] + History(rs[1..], u);
        assert VoteOf(q, u) == Next(VoteOf(p, u), rs[0].ballot);
      } else {
        assert History(rs, u) == History(rs[1..], u);
        assert VoteOf(q, u) == VoteOf(p, u);
      }
    }
  }
}
