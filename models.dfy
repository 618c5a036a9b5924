/**
 * The PDF record of user/models.py: an owner, six descriptive text fields,
 * two denormalised vote counters and the two many-to-many voter relations.
 */
module Models {
  import opened Wrappers

  /** A user, as resolved by the identity provider; this subsystem only compares users. */
  type UserId = nat

  /** The value `topic` takes when no topic is supplied. */
  const DefaultTopic: string := "NULL"

  datatype Pdf = Pdf(
    owner: UserId,
    title: string,
    description: string,
    link: string,
    author: string,
    institutionName: string,
    topic: string,
    upvote: int,
    downvote: int,
    upvotes: set<UserId>,
    downvotes: set<UserId>)

  /**
   * The record invariant: each counter caches the size of its voter relation,
   * and no user holds both an up-vote and a down-vote. A consistent record
   * therefore never has a negative counter.
   */
  predicate Consistent(p: Pdf)
    ensures Consistent(p) ==> p.upvote >= 0 && p.downvote >= 0
  {
    && p.upvote == |p.upvotes|
    && p.downvote == |p.downvotes|
    && p.upvotes !! p.downvotes
  }

  /**
   * The ranking score of a record (`vote_difference`): on a consistent record,
   * the number of up-voters less the number of down-voters.
   */
  function Score(p: Pdf): (s: int)
    ensures Consistent(p) ==> s == |p.upvotes| - |p.downvotes|
  {
    p.upvote - p.downvote
  }

  /**
   * A freshly constructed record: the given owner and fields, zero counters,
   * nobody in either voter relation, and `topic` falling back to "NULL".
   */
  function NewPdf(owner: UserId, title: string, description: string, link: string,
                  author: string, institutionName: string, topic: Option<string>): (p: Pdf)
    ensures Consistent(p) && Score(p) == 0
    ensures p.upvote == 0 && p.downvote == 0 && p.upvotes == {} && p.downvotes == {}
    ensures p.owner == owner
    ensures p.title == title && p.description == description && p.link == link
    ensures p.author == author && p.institutionName == institutionName
    ensures topic.None? ==> p.topic == DefaultTopic
    ensures topic.Some? ==> p.topic == topic.value
  {
    Pdf(owner, title, description, link, author, institutionName,
        topic.GetOr(DefaultTopic), 0, 0, {}, {})
  }

  /** The owner and the six text fields agree; the vote state may differ. */
  predicate SameMetadata(p: Pdf, q: Pdf) {
    && p.owner == q.owner
    && p.title == q.title
    && p.description == q.description
    && p.link == q.link
    && p.author == q.author
    && p.institutionName == q.institutionName
    && p.topic == q.topic
  }

  /** The owner, the counters and both voter relations agree; the text fields may differ. */
  predicate SameVotes(p: Pdf, q: Pdf) {
    && p.owner == q.owner
    && p.upvote == q.upvote
    && p.downvote == q.downvote
    && p.upvotes == q.upvotes
    && p.downvotes == q.downvotes
  }
}
