# Voting and ranking core of the PDF-sharing backend, in Dafny

This project models the document catalog and vote ledger of a Django/GraphQL
backend where users publish PDF metadata, search it, and up- or down-vote it.
The database is replaced by an in-memory store of records keyed by id. Each
request is one atomic step on that store.

- `wrappers.dfy` (`Wrappers`): `Option`. It models a `None` result, an optional edit argument that is left out, or an explicit null.
- `models.dfy` (`Models`): the `PDF` record of `user/models.py`. `Consistent` is its invariant: each
  counter equals the size of its voter relation, and no user is in both
  relations. `NewPdf` gives a fresh record.
- `votes.dfy` (`Votes`): the per-(user, document) vote state machine. `VoteOf` reads the
  state (`NoVote`, `Up` or `Down`) off the relations. `Next` is the transition
  table. `CastUp` and `CastDown` are the two mutations on one record.
  `Replay` runs a whole sequence of votes.
- `text.dfy` (`Text`): `icontains`. ASCII lower-casing, a left-to-right substring scan
  (`Contains`), and its proof against an index-based definition (`OccursAt`).
- `queries.dfy` (`Queries`): the read-only resolvers. Search, records by owner, record by id,
  and the top-ten ranking.
- `catalog.dfy` (`Catalog`): the class `Store` with the mutations, as methods proved
  against the functions above.

The signed-in user is an explicit `UserId` argument. `@login_required` is
modelled by the user always being present. Users are plain numbers, because this code only compares them. Requested ids are arbitrary integers, as the GraphQL `Int` arguments allow; stored ids are natural numbers. A null id is not modelled (see below).

## Model

| member | source | states |
|---|---|---|
| `Models.Consistent` | user/models.py:15-18 | a consistent record has counters equal to its voter-set sizes, disjoint up/down sets, and therefore non-negative counters |
| `Models.Score` | user/schema.py:70-71 | on a consistent record the score (`vote_difference`) is the number of up-voters less the number of down-voters |
| `Models.NewPdf` | user/models.py:7-19 | a new record has the given owner and text fields, zero counters and empty voter sets; it is consistent, and its topic is "NULL" when none is supplied |
| `Votes.VoteOf` | user/schema.py:167-174 | on a consistent record a user's vote is Up exactly when the user is in `upvotes`, Down exactly when in `downvotes`, and none otherwise |
| `Votes.Next` | user/schema.py:166-182 | the per-pair transition table: every cast changes the state; it ends in no vote exactly when it repeats the vote held, and otherwise in the vote just cast |
| `Votes.CastUp` | user/schema.py:166-182 | an up-vote leaves text fields and every other user's vote alone, reports true iff the user now holds an up-vote, keeps the record consistent, follows the transition table, and moves the counters by the table's amounts |
| `Votes.CastDown` | user/schema.py:199-215 | the same for a down-vote, with the roles of the two relations exchanged |
| `Votes.CastScore` | user/schema.py:166-182 | on a consistent record a cast moves the score by the difference of the weights of the new and old vote |
| `Votes.Mirror` | user/schema.py:199-215 | exchanging the up and down sides keeps the metadata, negates the score and preserves consistency |
| `Votes.CastDownMirrorsCastUp` | user/schema.py:194-217 | a down-vote is an up-vote on the mirrored record, mirrored back, with the same result flag |
| `Votes.UpvoteTwice` | user/schema.py:166-182 | two up-votes: from an up-vote they report false then true and restore the record; otherwise true then false, ending with no vote and the original up-vote count, and restoring the record when the user had not voted |
| `Votes.UpvoteThenDownvote` | user/schema.py:161-217 | an effective up-vote followed by a down-vote ends in a down-vote: up-count one lower, down-count one higher, consistent at both steps |
| `Votes.ReplayPerVoter` | user/schema.py:161-217 | any sequence of votes keeps the record consistent and its metadata unchanged, and each user's final vote is the transition table run over that user's own ballots |
| `Text.LowerChar` | user/schema.py:39-44 | a character folds to itself or to its other-case ASCII partner, and never to a capital, so a capital folds to its own small letter |
| `Text.Lower` | user/schema.py:39-44 | the folded text is the same text up to letter case, position by position, with no capital left |
| `Text.LowerIdempotent` | user/schema.py:39-44 | folding twice is folding once |
| `Text.Contains` | user/schema.py:39-44 | the scan answers true exactly when the needle occurs at some position of the text |
| `Text.ContainsTransitive` | user/schema.py:39-44 | a substring of a substring is a substring |
| `Text.IContains` | user/schema.py:39-44 | `icontains` holds exactly when the lower-cased needle occurs in the lower-cased text |
| `Text.IContainsTransitive` | user/schema.py:39-44 | case-insensitive containment is transitive |
| `Text.LowerIgnoresCase` | user/schema.py:39-44 | two texts that differ only in letter case fold to the same text |
| `Text.IContainsIgnoresCase` | user/schema.py:39-44 | changing the letter case of the text, the query or both never changes the answer |
| `Queries.Matches` | user/schema.py:38-45 | a record matches iff the query occurs, ignoring case, in one of title, topic, author, description, institution name or link |
| `Queries.Search` | user/schema.py:36-46 | a blank query returns every record; otherwise exactly the records one of whose six fields mentions the query, unchanged |
| `Queries.SearchNarrows` | user/schema.py:36-46 | a query containing another non-empty query never finds a record the shorter one misses |
| `Queries.SearchExample` | user/schema.py:36-46 | a record with topic "Physics" and title "Intro" is found by "phys" and "intro" but not by "chemistry" |
| `Queries.ByOwner` | user/schema.py:49-60 | exactly the records the user owns, possibly none |
| `Queries.ById` | user/schema.py:62-66 | the record when the id is known, None (not an error) for any other integer, negative ones included |
| `Queries.Qualifying` | user/schema.py:70-72 | the ids of records with a score above zero |
| `Queries.SortByScore` | user/schema.py:72 | every given id exactly once, scores non-increasing, ties in unspecified order |
| `Queries.TopPdfs` | user/schema.py:68-74 | zero or ten ids; ten exactly when at least ten records have positive score; all positive, distinct, non-increasing, and no omitted record outscores an included one |
| `Queries.TopWhenExactlyTen` | user/schema.py:68-74 | with exactly ten positive-score records the ranking lists precisely those ten |
| `Catalog.ApplyEdit` | user/schema.py:268-279 | each text field takes the value given for it when non-empty and keeps its old value otherwise; owner, counters and voter sets are untouched |
| `Catalog.EditIdempotent` | user/schema.py:268-279 | repeating an edit changes nothing more, and an edit of absent or empty values changes nothing |
| `Catalog.Store.Create` | user/schema.py:139-152 | with every field supplied, a new record under a fresh id, owned by the caller, with zero counters; an explicit null in any field stores nothing and gives None; no other record changes |
| `Catalog.Store.Upvote` | user/schema.py:161-184 | an unknown id, negative ones included, gives false and no change; otherwise the record becomes its `CastUp` and the store invariant holds |
| `Catalog.Store.Downvote` | user/schema.py:194-217 | the same with `CastDown` |
| `Catalog.Store.Delete` | user/schema.py:230-242 | succeeds iff the record exists and the caller owns it; then exactly that record is removed, otherwise nothing changes |
| `Catalog.Store.Edit` | user/schema.py:258-285 | returns the edited record iff it exists and the caller owns it; then that record becomes its `ApplyEdit`, otherwise nothing changes |
| `Catalog.UpvoteToggles` | user/schema.py:161-184 | through the store, two up-votes report true then false from no vote, false then true from an up-vote, and leave the store as it was |

## Left out

- Sign-in, sign-out, sign-up and the JWT token fields: thin wrappers over the framework's identity functions. `@login_required` becomes a `UserId` argument.
- The GraphQL type wiring and HTTP routing (`PDFType`, `UserProfileType`, `Mutation`, `schema`, `user/urls.py`): framework glue.
- Persistence, `save()` durability, transactions and concurrent requests: each operation is one atomic step on the in-memory store.
- `created_at`: a clock read. `UserProfile`: nothing in this core uses it.
- The `print` call in `resolve_search_pdfs_by_user`. The `is_authenticated` test there is also left out: the user is always present in the model, so the test always passes.
- Case folding is ASCII only. The database's Unicode-aware `icontains` is not modelled.
- `Coalesce(..., 0)` in the ranking: the counters are never null, so it never changes the score.
- `CharField`/`URLField` length limits are enforced only by database backends with sized text columns, and this code does not check them. Nothing on these paths checks the link's URL format, because `save()` does not run the model's validators.
- Omitted arguments to `CreatePDF` and an omitted `query` in `resolve_search_pdfs`: neither function declares a default, so the framework rejects such a call before the code runs. `Store.Create` and `Queries.Search` therefore read `None` as an explicit null.
- `Store.Create` models a failed save (an explicit null in a NOT NULL column) as a None result with nothing stored. The error the framework reports to the client is not modelled. Because this code always passes `topic`, the "NULL" default appears only in `Models.NewPdf`.
- `Queries.TopPdfs` returns record ids in rank order, not the records themselves. The records are `docs[id]`.
- `Queries.TopPdfs` and `Queries.SortByScore` are ghost functions. They choose among equally scored records without fixing an order, because the database leaves that order unspecified.
- `Queries.Search` and `Queries.ByOwner` return sub-maps rather than ordered lists, because the store's row order is unspecified.
- A null `pdf_id`: the argument is optional for up-vote, down-vote and delete, and a null id finds no record. Those calls then behave like a call with an unknown id: they return false and change nothing. The model's ids are integers and cannot be null.
- Negative counters: the counters are modelled as `int`. A negative value is excluded by `Consistent`, which the store keeps as its invariant. The database's own non-negativity check is not modelled separately.
