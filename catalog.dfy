/**
 * The mutations of user/schema.py (CreatePDF, UpvotePDF, DownvotePDF,
 * DeletePDF, EditPDF) as methods on an in-memory store of PDF records keyed
 * by id. The signed-in user of each request is passed in explicitly.
 */
module Catalog {
  import opened Wrappers
  import opened Models
  import opened Votes

  /** The optional arguments of an edit; a field is changed only by a non-empty value. */
  datatype EditFields = EditFields(
    title: Option<string>,
    description: Option<string>,
    link: Option<string>,
    author: Option<string>,
    institutionName: Option<string>,
    topic: Option<string>)

  /** An argument counts as given when Python would find it truthy: present and non-empty. */
  predicate Given(arg: Option<string>) {
    arg.Some? && arg.value != ""
  }

  /** The edit that supplies nothing. */
  const NoEdit := EditFields(None, None, None, None, None, None)

  /**
   * The record after an edit: each text field takes the value given for it, if
   * any, and keeps its old value otherwise; owner, counters and voter
   * relations are untouched.
   */
  function ApplyEdit(p: Pdf, e: EditFields): (q: Pdf)
    ensures SameVotes(p, q)
    ensures Consistent(p) ==> Consistent(q)
    ensures Given(e.title) ==> q.title == e.title.value
    ensures !Given(e.title) ==> q.title == p.title
    ensures Given(e.description) ==> q.description == e.description.value
    ensures !Given(e.description) ==> q.description == p.description
    ensures Given(e.link) ==> q.link == e.link.value
    ensures !Given(e.link) ==> q.link == p.link
    ensures Given(e.author) ==> q.author == e.author.value
    ensures !Given(e.author) ==> q.author == p.author
    ensures Given(e.institutionName) ==> q.institutionName == e.institutionName.value
    ensures !Given(e.institutionName) ==> q.institutionName == p.institutionName
    ensures Given(e.topic) ==> q.topic == e.topic.value
    ensures !Given(e.topic) ==> q.topic == p.topic
  {
    p.(title := Overwrite(p.title, e.title),
       description := Overwrite(p.description, e.description),
       link := Overwrite(p.link, e.link),
       author := Overwrite(p.author, e.author),
       institutionName := Overwrite(p.institutionName, e.institutionName),
       topic := Overwrite(p.topic, e.topic))
  }

  /** The value of a field after `if arg: field = arg`. */
  function Overwrite(field: string, arg: Option<string>): string {
    if Given(arg) then arg.value else field
  }

  /** Applying the same edit twice is applying it once, and an edit of empty strings changes nothing. */
  lemma EditIdempotent(p: Pdf, e: EditFields)
    ensures ApplyEdit(ApplyEdit(p, e), e) == ApplyEdit(p, e)
    ensures ApplyEdit(p, NoEdit) == p
    ensures ApplyEdit(p, EditFields(Some(""), Some(""), Some(""), Some(""), Some(""), Some(""))) == p
  {
  }

  class Store {
    /** The records, keyed by id. */
    var docs: map<nat, Pdf>
    /** The id the next created record receives; ids are never reused. */
    var nextId: nat

    /** Every record is consistent, and every id in use was handed out already. */
    ghost predicate Valid()
      reads this
    {
      forall id :: id in docs ==> id < nextId && Consistent(docs[id])
    }

    constructor ()
      ensures Valid() && docs == map[] && nextId == 0
    {
      docs := map[];
      nextId := 0;
    }

    /**
     * CreatePDF.mutate: a new record owned by `user`, under a fresh id. Every
     * column is NOT NULL, so an explicit null for any field makes the save
     * fail: then no record is stored and the result is None.
     */
    method Create(user: UserId, title: Option<string>, description: Option<string>, link: Option<string>,
                  author: Option<string>, institutionName: Option<string>, topic: Option<string>)
      returns (r: Option<(nat, Pdf)>)
      requires Valid()
      modifies this
      ensures Valid()
      ensures r.Some? <==> title.Some? && description.Some? && link.Some?
                           && author.Some? && institutionName.Some? && topic.Some?
      ensures r.None? ==> docs == old(docs) && nextId == old(nextId)
      ensures r.Some? ==>
        && r.value.0 == old(nextId) && r.value.0 !in old(docs) && nextId == old(nextId) + 1
        && r.value.1 == NewPdf(user, title.value, description.value, link.value,
                               author.value, institutionName.value, topic)
        && docs == old(docs)[r.value.0 := r.value.1]
    {
      if title.None? || description.None? || link.None? || author.None? || institutionName.None? || topic.None? {
        return None;
      }
      var pdf := NewPdf(user, title.value, description.value, link.value,
                        author.value, institutionName.value, topic);
      var id := nextId;
      docs := docs[id := pdf];
      nextId := nextId + 1;
      r := Some((id, pdf));
    }

    /**
     * UpvotePDF.mutate: on a known id, the record becomes its CastUp and the
     * result is CastUp's; on an unknown id nothing changes and the result is false.
     */
    method Upvote(user: UserId, id: int) returns (success: bool)
      requires Valid()
      modifies this`docs
      ensures Valid()
      ensures id !in old(docs) ==> !success && docs == old(docs)
      ensures id in old(docs) ==>
        var r := CastUp(old(docs)[id], user);
        success == r.success && docs == old(docs)[id := r.pdf]
    {
      if id !in docs {
        return false;
      }
      var pdf := docs[id];
      ghost var r := CastUp(pdf, user);
      assert Consistent(r.pdf);
      if user in pdf.upvotes {
        pdf := pdf.(upvotes := pdf.upvotes - {user});
        pdf := pdf.(upvote := pdf.upvote - 1);
        assert pdf == r.pdf;
        docs := docs[id := pdf];
        return false;
      }
      if user in pdf.downvotes {
        pdf := pdf.(downvotes := pdf.downvotes - {user});
        pdf := pdf.(downvote := pdf.downvote - 1);
      }
      pdf := pdf.(upvotes := pdf.upvotes + {user});
      pdf := pdf.(upvote := pdf.upvote + 1);
      assert pdf == r.pdf;
      docs := docs[id := pdf];
      success := true;
    }

    /** DownvotePDF.mutate: the mirror image of Upvote. */
    method Downvote(user: UserId, id: int) returns (success: bool)
      requires Valid()
      modifies this`docs
      ensures Valid()
      ensures id !in old(docs) ==> !success && docs == old(docs)
      ensures id in old(docs) ==>
        var r := CastDown(old(docs)[id], user);
        success == r.success && docs == old(docs)[id := r.pdf]
    {
      if id !in docs {
        return false;
      }
      var pdf := docs[id];
      ghost var r := CastDown(pdf, user);
      assert Consistent(r.pdf);
      if user in pdf.downvotes {
        pdf := pdf.(downvotes := pdf.downvotes - {user});
        pdf := pdf.(downvote := pdf.downvote - 1);
        assert pdf == r.pdf;
        docs := docs[id := pdf];
        return false;
      }
      if user in pdf.upvotes {
        pdf := pdf.(upvotes := pdf.upvotes - {user});
        pdf := pdf.(upvote := pdf.upvote - 1);
      }
      pdf := pdf.(downvotes := pdf.downvotes + {user});
      pdf := pdf.(downvote := pdf.downvote + 1);
      assert pdf == r.pdf;
      docs := docs[id := pdf];
      success := true;
    }

    /**
     * DeletePDF.mutate: the record goes exactly when it exists and `user` owns
     * it; otherwise nothing changes and the result is false.
     */
    method Delete(user: UserId, id: int) returns (success: bool)
      requires Valid()
      modifies this`docs
      ensures Valid()
      ensures success <==> id in old(docs) && old(docs)[id].owner == user
      ensures docs == if success then old(docs) - {id as nat} else old(docs)
    {
      if id !in docs {
        return false;
      }
      var pdf := docs[id];
      if pdf.owner == user {
        docs := docs - {id as nat};
        success := true;
      } else {
        success := false;
      }
    }

    /**
     * EditPDF.mutate: on a record `user` owns, each given field is overwritten
     * in turn and the edited record is returned; on a missing id or another
     * user's record nothing changes and the result is None.
     */
    method Edit(user: UserId, id: int, e: EditFields) returns (r: Option<Pdf>)
      requires Valid()
      modifies this`docs
      ensures Valid()
      ensures r.Some? <==> id in old(docs) && old(docs)[id].owner == user
      ensures r.None? ==> docs == old(docs)
      ensures r.Some? ==> r.value == ApplyEdit(old(docs)[id], e) && docs == old(docs)[id := r.value]
    {
      if id !in docs {
        return None;
      }
      var pdf := docs[id];
      if pdf.owner != user {
        return None;
      }
      if Given(e.title) {
        pdf := pdf.(title := e.title.value);
      }
      if Given(e.description) {
        pdf := pdf.(description := e.description.value);
      }
      if Given(e.link) {
        pdf := pdf.(link := e.link.value);
      }
      if Given(e.author) {
        pdf := pdf.(author := e.author.value);
      }
      if Given(e.institutionName) {
        pdf := pdf.(institutionName := e.institutionName.value);
      }
      if Given(e.topic) {
        pdf := pdf.(topic := e.topic.value);
      }
      docs := docs[id := pdf];
      r := Some(pdf);
    }
  }

  /**
   * Through the store: a user who holds no down-vote on a record up-votes it
   * twice. A user without a vote gets true then false, a user with an up-vote
   * false then true, and either way the store is back where it started.
   */
  method UpvoteToggles(s: Store, user: UserId, id: nat) returns (first: bool, second: bool)
    requires s.Valid() && id in s.docs && VoteOf(s.docs[id], user) != Down
    modifies s`docs
    ensures s.Valid()
    ensures first == (VoteOf(old(s.docs)[id], user) == NoVote) && second == !first
    ensures s.docs == old(s.docs)
  {
    ghost var p := s.docs[id];
    first := s.Upvote(user, id);
    second := s.Upvote(user, id);
    UpvoteTwice(p, user);
    assert s.docs[id] == p;
  }
}
