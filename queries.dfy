/**
 * The read-only resolvers of user/schema.py's Query type, as functions over
 * the store's records keyed by id. The store's row order is unspecified, so
 * searches return sub-maps; the ranking returns ids in score order.
 */
module Queries {
  import opened Wrappers
  import opened Models
  import opened Text

  /** The six fields a search looks in. */
  function SearchFields(p: Pdf): seq<string> {
    [p.title, p.topic, p.author, p.description, p.institutionName, p.link]
  }

  /** Some search field mentions `q` exactly when one of the six named fields does. */
  lemma SomeFieldMentions(p: Pdf, q: string)
    ensures (exists f :: f in SearchFields(p) && Mentions(f, q)) <==>
      Mentions(p.title, q) || Mentions(p.topic, q) || Mentions(p.author, q)
      || Mentions(p.description, q) || Mentions(p.institutionName, q) || Mentions(p.link, q)
  {
  }

  /** The OR of six `icontains` tests. */
  predicate Matches(p: Pdf, q: string)
    ensures Matches(p, q) <==> exists f :: f in SearchFields(p) && Mentions(f, q)
  {
    SomeFieldMentions(p, q);
    IContains(p.title, q) || IContains(p.topic, q) || IContains(p.author, q)
    || IContains(p.description, q) || IContains(p.institutionName, q) || IContains(p.link, q)
  }

  /** No query, or the empty one. */
  predicate Blank(query: Option<string>) {
    query.None? || query.value == ""
  }

  /**
   * resolve_search_pdfs: every record when the query is blank; otherwise
   * exactly the records in one of whose six fields the query occurs, ignoring case.
   */
  function Search(docs: map<nat, Pdf>, query: Option<string>): (r: map<nat, Pdf>)
    ensures forall id :: id in r ==> id in docs && r[id] == docs[id]
    ensures Blank(query) ==> r == docs
    ensures !Blank(query) ==> forall id :: id in docs ==>
      (id in r <==> exists f :: f in SearchFields(docs[id]) && Mentions(f, query.value))
  {
    if Blank(query) then docs
    else map id | id in docs && Matches(docs[id], query.value) :: docs[id]
  }

  /**
   * A query that contains another (ignoring case) never finds more: every
   * record found by the longer query is found by the shorter one.
   */
  lemma SearchNarrows(docs: map<nat, Pdf>, shorter: string, longer: string)
    requires shorter != "" && IContains(longer, shorter)
    ensures Search(docs, Some(longer)).Keys <= Search(docs, Some(shorter)).Keys
  {
    assert longer != "";
    forall id | id in Search(docs, Some(longer))
      ensures id in Search(docs, Some(shorter))
    {
      var p := docs[id];
      var f :| f in SearchFields(p) && Mentions(f, longer);
      assert IContains(f, longer);
      IContainsTransitive(f, longer, shorter);
      assert Mentions(f, shorter);
    }
  }

  /** resolve_search_pdfs_by_user: the records the user owns, possibly none. */
  function ByOwner(docs: map<nat, Pdf>, user: UserId): (r: map<nat, Pdf>)
    ensures forall id :: id in r ==> id in docs && r[id] == docs[id]
    ensures forall id :: id in docs ==> (id in r <==> docs[id].owner == user)
  {
    map id | id in docs && docs[id].owner == user :: docs[id]
  }

  /** resolve_pdf_by_id: the record, or None when the id is unknown (negative ids included). */
  function ById(docs: map<nat, Pdf>, id: int): (r: Option<Pdf>)
    ensures r.Some? <==> id in docs
    ensures r.Some? ==> r.value == docs[id]
  {
    if id in docs then Some(docs[id]) else None
  }

  /** The ids of records with a positive score. */
  function Qualifying(docs: map<nat, Pdf>): (ids: set<nat>)
    ensures forall id :: id in ids <==> id in docs && Score(docs[id]) > 0
  {
    set id | id in docs && Score(docs[id]) > 0
  }

  /** Some record in a non-empty set of ids has a score no other record in it beats. */
  lemma {:induction false} BestExists(docs: map<nat, Pdf>, ids: set<nat>)
    requires ids != {} && ids <= docs.Keys
    ensures exists m :: m in ids && forall j :: j in ids ==> Score(docs[j]) <= Score(docs[m])
    decreases ids
  {
    var x :| x in ids;
    if ids != {x} {
      var rest := ids - {x};
      BestExists(docs, rest);
      var m :| m in rest && forall j :: j in rest ==> Score(docs[j]) <= Score(docs[m]);
      if Score(docs[x]) <= Score(docs[m]) {
        assert forall j :: j in ids ==> Score(docs[j]) <= Score(docs[m]);
      } else {
        assert forall j :: j in ids ==> Score(docs[j]) <= Score(docs[x]);
      }
    }
  }

  /** The ids appear once each, and their scores never increase along the sequence. */
  predicate RankedBy(docs: map<nat, Pdf>, r: seq<nat>)
    requires forall i :: 0 <= i < |r| ==> r[i] in docs
  {
    && (forall i, j :: 0 <= i < j < |r| ==> r[i] != r[j])
    && (forall i, j :: 0 <= i < j < |r| ==> Score(docs[r[i]]) >= Score(docs[r[j]]))
  }

  /**
   * The ids of `ids` ordered by non-increasing score (`order_by('-vote_difference')`).
   * Among equal scores the order is left unspecified, as the database leaves it.
   */
  ghost function SortByScore(docs: map<nat, Pdf>, ids: set<nat>): (r: seq<nat>)
    requires ids <= docs.Keys
    ensures |r| == |ids|
    ensures forall i :: 0 <= i < |r| ==> r[i] in ids
    ensures forall id :: id in ids ==> id in r
    ensures RankedBy(docs, r)
    decreases ids
  {
    if ids == {} then []
    else
      BestExists(docs, ids);
      var m :| m in ids && forall j :: j in ids ==> Score(docs[j]) <= Score(docs[m]);
      var rest := SortByScore(docs, ids - {m});
      RankedCons(docs, m, rest);
      [m] + rest
  }

  /** An id that scores at least as high as every id of a ranked sequence, and is not in it, ranks first. */
  lemma RankedCons(docs: map<nat, Pdf>, m: nat, rest: seq<nat>)
    requires m in docs && forall i :: 0 <= i < |rest| ==> rest[i] in docs
    requires RankedBy(docs, rest)
    requires forall i :: 0 <= i < |rest| ==> rest[i] != m && Score(docs[rest[i]]) <= Score(docs[m])
    ensures RankedBy(docs, [m] + rest)
  {
  }

  /**
   * Cutting the ranked positive-score ids after `n` places keeps them ranked
   * and positive, and no record left out scores higher than one kept.
   */
  lemma RankedPrefix(docs: map<nat, Pdf>, sorted: seq<nat>, n: nat)
    requires n <= |sorted|
    requires forall i :: 0 <= i < |sorted| ==> sorted[i] in Qualifying(docs)
    requires forall id :: id in Qualifying(docs) ==> id in sorted
    requires RankedBy(docs, sorted)
    ensures forall i :: 0 <= i < n ==> sorted[..n][i] in docs && Score(docs[sorted[..n][i]]) > 0
    ensures RankedBy(docs, sorted[..n])
    ensures forall i, id :: 0 <= i < n && id in docs && id !in sorted[..n] ==>
      Score(docs[id]) <= Score(docs[sorted[..n][i]])
  {
  }

  /**
   * resolve_top_pdfs: the positive-score records by non-increasing score, cut
   * to ten; the cut is returned only when it holds exactly ten records, and
   * otherwise the result is empty. So the result is empty exactly when fewer
   * than ten records qualify, it is never a partial list, and no record left
   * out has a higher score than one that is in.
   */
  ghost function TopPdfs(docs: map<nat, Pdf>): (r: seq<nat>)
    ensures |r| == 0 || |r| == 10
    ensures |r| == 10 <==> |Qualifying(docs)| >= 10
    ensures forall i :: 0 <= i < |r| ==> r[i] in docs && Score(docs[r[i]]) > 0
    ensures RankedBy(docs, r)
    ensures forall i, id :: 0 <= i < |r| && id in docs && id !in r ==> Score(docs[id]) <= Score(docs[r[i]])
  {
    var sorted := SortByScore(docs, Qualifying(docs));
    var top := sorted[..if |sorted| < 10 then |sorted| else 10];
    RankedPrefix(docs, sorted, |top|);
    if |top| == 10 then top else []
  }

  /** The ids listed in `r`. */
  function Elements(r: seq<nat>): set<nat> {
    set i | 0 <= i < |r| :: r[i]
  }

  /**
   * With exactly ten positive-score records the ranking lists precisely those
   * ten, in non-increasing score order.
   */
  lemma TopWhenExactlyTen(docs: map<nat, Pdf>)
    requires |Qualifying(docs)| == 10
    ensures Elements(TopPdfs(docs)) == Qualifying(docs)
  {
  }

  /**
   * A record with topic "Physics" and title "Intro" is found by "phys" and by
   * "intro" but not by "chemistry".
   */
  lemma SearchExample(owner: UserId)
    ensures var p := Pdf(owner, "Intro", "", "", "", "", "Physics", 0, 0, {}, {});
      && 0 in Search(map[0 := p], Some("phys"))
      && 0 in Search(map[0 := p], Some("intro"))
      && 0 !in Search(map[0 := p], Some("chemistry"))
  {
    var p := Pdf(owner, "Intro", "", "", "", "", "Physics", 0, 0, {}, {});
    assert Lower("Physics")[..4] == Lower("phys");
    assert Lower("Intro") == Lower("intro");
    assert OccursAt(Lower("intro"), Lower("Intro"), 0);
    assert !Matches(p, "chemistry") by {
      forall f | f in SearchFields(p) ensures !IContains(f, "chemistry") {
        assert |Lower(f)| < |Lower("chemistry")|;
      }
    }
  }
}
