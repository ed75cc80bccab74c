# pybo: a verified model of the Q&A board's business rules

pybo is a small Django question-and-answer board. Users post questions, answer them, comment
on either, vote on questions and answers, and browse a searchable, sorted, paged question list.
This project models the rules that sit under the framework plumbing, and proves properties of
them in Dafny:

- **Ownership** (`models.dfy`, module `Models`). Every question, answer and comment has two
  nullable owner slots, `owning_user` and `owning_group`. The `owner` setter is the
  `Instance.SetOwner` method on a class with those fields. It writes one slot and clears the
  other, or raises for anything that is neither a user nor a group. The `owner` getter is pure.
  There are two versions of it: the code as written (`OwnerAsWritten`) and the corrected
  reading (`Slots.Owner`, user slot first, then group slot, else none). See "## Findings".
- **The store and its cascades** (`models.dfy`). Three tables are modelled as maps. An answer
  references its question; a comment references a question or an answer. Deleting cascades
  along those references. Each cascade is proved to keep referential integrity and to remove
  no more than it must.
- **The views that change state** (`views.dfy`, module `Views`). The `Board` class holds the
  tables and their id counters. Every create, modify, delete and vote view is a method on it:
  - modify and delete let only the resolved owner through (`PermissionDenied`, nothing
    changed, otherwise);
  - create stamps owner, creator and modifier with the actor;
  - voting refuses self-votes and otherwise inserts the actor into a voter set.
  Each method states its whole new state and its response. A response is a redirect `Url` or
  an error: not found, permission denied, a refused foreign key, or a server error from a
  missing parent.
- **Success URLs** (`urls.dfy`, module `Urls`). Redirect targets are `Url` values. They render
  as the detail path `/pybo/<id>/`, optionally followed by `#answer_<id>` or `#comment_<id>`.
  Rendering is proved invertible.
- **The question list** (`listing.dfy`, module `Listing`, with `text.dfy`). `IndexView.get` is
  modelled as pure stages:
  - one of three two-key orders (`recommend`, `popular`, `recent`), by insertion sort;
  - an optional case-insensitive keyword search over subject, content, author name and answer
    authors' names, written as the join-filter-distinct it is in SQL and proved equal to a
    plain filter;
  - pages of ten.

Names follow the source: `created_by` and `createdby` (and the other three pairs) are one
field here. The actor of each request, the clock (`now`) and the map from user id to user name
(`username`) are parameters.

## Model

| member | source | states |
|---|---|---|
| Models.Instance.SetOwner | pybo/models.py:40-52 | A user sets `owning_user` and clears `owning_group`; a group the other way round; anything else raises and leaves both slots unchanged; after success the two slots are never both set and the owner reads back as what was assigned (the same setter is at lines 89-101 and 138-150) |
| Models.AssignThenRead | pybo/models.py:45-50 | The setter succeeds exactly for a user or a group; its result has one slot set, and the getter returns the principal that was assigned |
| Models.OwnerAsWritten | pybo/models.py:29-38 | The getter as written: while `owning_user` is readable (always, for a nullable foreign key) it never yields a group; it yields the user in `owning_user`, or no owner exactly when that slot is empty |
| Models.Slots.Owner | pybo/models.py:29-38 | The corrected getter: a user owner is the one in `owning_user`; a group owner only when `owning_user` is empty and it is the group in `owning_group`; no owner exactly when both slots are empty |
| Models.OwnerPrefersUser | pybo/models.py:29-38 | The getter returns the user in `owning_user` when it is set, otherwise the group in `owning_group` when that is set, otherwise no owner |
| Models.GroupOwnerReadsAsNone | pybo/models.py:34-37 | As written, with both attributes readable, a row whose owner was set to group g reads back as no owner, while the corrected getter returns g |
| Models.GettersAgreeUnlessGroupOwned | pybo/models.py:34-37 | The as-written and corrected getters agree on every row except one with only the group slot set |
| Models.GettersAgreeOnUsers | pybo/models.py:34-35 | Comparing the owner with a user gives the same answer under both getters, so no permission or vote decision depends on the discrepancy |
| Models.DeleteQuestionCascades | pybo/models.py:114-117 | Deleting a question removes it, every answer to it (the cascade of line 66) and every comment on it or on one of those answers; the rest is a sub-store with referential integrity |
| Models.DeleteQuestionIsLargest | pybo/models.py:66 | Any consistent part of the store that does not hold the question survives its deletion untouched: the cascade removes only what it must |
| Models.DeleteAnswerCascades | pybo/models.py:116-117 | Deleting an answer removes it and every comment on it, keeps all questions, and leaves a consistent sub-store |
| Models.DeleteAnswerIsLargest | pybo/models.py:116-117 | Any consistent part of the store without the answer survives its deletion |
| Models.DeleteCommentOnly | pybo/models.py:104-125 | Deleting a comment removes that comment and nothing else, and keeps integrity |
| Views.MayModifyIff | pybo/views.py:84-85 | The owner check passes exactly when `owning_user` is the actor; an unowned or group-owned post passes for nobody |
| Views.OnlyOneMayModify | pybo/views.py:128-129 | At most one user passes the owner check of a post |
| Views.CreatedStamps | pybo/views.py:56-58 | A created row is owned by the actor alone, has the actor as creator and modifier, both timestamps equal to now, and no voters |
| Views.ModifiedKeepsOwner | pybo/views.py:94-95 | A permitted modification leaves the owner equal to the actor, sets the modifier to the actor and the modification time to now, and keeps creator, creation time and voters |
| Views.VoteRules | pybo/views.py:552-555 | A vote is refused with an error exactly when the actor owns the post, and the voters are then unchanged; otherwise the actor is added and no one else is |
| Views.VoteIdempotent | pybo/models.py:19 | Voting twice has the effect of voting once, and a voter already counted leaves the set unchanged |
| Views.Board.QuestionCreate | pybo/views.py:50-67 | Adds one question under the next id, stamped by `Created`, keeps the other tables and the invariant, and redirects to the list |
| Views.Board.QuestionModify | pybo/views.py:79-111 | Missing id: not found, nothing changed; non-owner: permission denied, nothing changed; owner: the row becomes `Modified` with the new subject and content, the redirect goes to the detail page |
| Views.Board.QuestionDelete | pybo/views.py:123-138 | Missing id: not found; non-owner: denied, nothing changed; owner: the store becomes the question cascade and the redirect goes to the list |
| Views.Board.AnswerCreate | pybo/views.py:147-186 | Missing question: the insert is refused and nothing changes; otherwise one answer is added under the next id, and the redirect goes to the question with `#answer_<id>` |
| Views.Board.AnswerModify | pybo/views.py:196-234 | Not found / denied with nothing changed, or the answer becomes `Modified` with the new content and the redirect goes to its question with `#answer_<id>` |
| Views.Board.AnswerDelete | pybo/views.py:243-261 | Not found / denied with nothing changed, or the store becomes the answer cascade and the redirect goes to the answer's question |
| Views.Board.CommentCreateQuestion | pybo/views.py:327-350 | Missing question: refused, nothing changed; otherwise a comment on the question under the next id, redirected to it with `#comment_<id>` |
| Views.Board.CommentSave | pybo/views.py:366-380 | The save shared by the comment modify views: passes exactly for the owner, and then writes the `Modified` row with the new content and nothing else |
| Views.Board.CommentModifyQuestion | pybo/views.py:361-399 | Not found / denied with nothing changed; for the owner the comment is saved, then the redirect goes to its question with `#comment_<id>`, or the request fails when the comment has no question |
| Views.Board.CommentDeleteQuestion | pybo/views.py:409-427 | Not found / denied with nothing changed; a comment without a question fails before anything is deleted; otherwise the comment alone is deleted and the redirect goes to its question |
| Views.Board.CommentCreateAnswer | pybo/views.py:438-462 | Missing answer: not found, nothing changed; otherwise a comment on the answer under the next id, redirected to the answer's question with `#comment_<id>` |
| Views.Board.CommentModifyAnswer | pybo/views.py:473-512 | Not found / denied with nothing changed; for the owner the comment is saved with modification time now, then the redirect goes to its answer's question with `#comment_<id>`, or fails when the comment has no answer |
| Views.Board.CommentDeleteAnswer | pybo/views.py:522-540 | Not found / denied with nothing changed; a comment without an answer fails before deletion; otherwise the comment alone is deleted and the redirect goes to its answer's question |
| Views.Board.VoteQuestion | pybo/views.py:547-556 | Missing question: not found; else the voter set becomes the `CastVote` result, the error flag is raised exactly for a self-vote, and the redirect goes to the detail page |
| Views.Board.VoteAnswer | pybo/views.py:563-572 | The same rule for answers; the redirect goes to `answer.question` |
| Views.Board.List | pybo/views.py:270-302 | `IndexView.get` over the board: at most ten questions, each a stored question with its subject, author and voter count as stored (the full response is stated by `Listing.IndexSpec`) |
| Views.Board.ListShowsStore | pybo/views.py:270-302 | On a valid board each listed question also carries one author per stored answer, and under a keyword the stored question or one of its stored answers matches |
| Views.Board.ListFindsStored | pybo/views.py:289-299 | Every stored question that matches the keyword, through its own fields or a stored answer's author, is shown on some page of the board's list |
| Urls.ParseRender | pybo/views.py:185-186 | Every success URL, with or without an answer or comment fragment, parses back to itself |
| Urls.RenderInjective | pybo/views.py:349-350 | Distinct targets render as distinct strings |
| Urls.AnchorRoundTrip | pybo/views.py:233-234 | The `#answer_<id>` and `#comment_<id>` fragments parse back to their anchors |
| Text.NatToString | pybo/views.py:461-462 | An id renders as a non-empty string of decimal digits whose value is the id |
| Text.ParseInt | pybo/views.py:299 | The `int()` that `get_page` applies: a string of ASCII digits reads as its decimal value; a result is only produced for a non-empty string, a negative one only after a leading `-`; the empty string and a bare sign are rejected |
| Text.ParseRendered | pybo/views.py:299 | A rendered page number parses back as that integer |
| Text.ContainsIff | pybo/views.py:291-294 | The substring test holds exactly when the keyword occurs at some position |
| Listing.AnswerAuthors | pybo/views.py:294 | The answer authors of a question, below an id bound: one per answer, and exactly the creators of those answers |
| Listing.MatchesStored | pybo/views.py:290-294 | A question's entry matches the keyword exactly when its subject, content or creator's username does, or the creator's username of one of its stored answers does |
| Listing.EmptyKeywordMatches | pybo/views.py:289 | The empty keyword matches every question, so skipping the filter when `kw` is empty loses nothing |
| Listing.AnswerCountIsCount | pybo/views.py:284 | The answer authors of a question number exactly its answers |
| Listing.Scan | pybo/views.py:286 | The scan lists each stored question once, in ascending id, as its row reads |
| Listing.RecentIsNewestFirst | pybo/views.py:285-286 | Ordered by `recent` means non-increasing creation time |
| Listing.Insert | pybo/views.py:281-286 | Inserting into an ordered list keeps it ordered and adds exactly that entry |
| Listing.Sort | pybo/views.py:281-286 | The result is ordered by (primary key, creation time) descending and is a permutation of the input |
| Listing.Keep | pybo/views.py:289-295 | The filter keeps exactly the entries that match, and none twice that was not twice before |
| Listing.SearchIsKeep | pybo/views.py:289-295 | The join of questions with answer authors, filtered and then made distinct, equals the plain filter on a duplicate-free list, order included |
| Listing.SearchFrom | pybo/views.py:295 | The same, starting from entries already seen that do not occur in the list |
| Listing.KeepSorted | pybo/views.py:290 | Filtering keeps the order |
| Listing.KeepNoDup | pybo/views.py:295 | Filtering a duplicate-free list leaves it duplicate-free |
| Listing.PageNumber | pybo/views.py:299 | The page served is always between 1 and the number of pages |
| Listing.PageOf | pybo/views.py:298-299 | A page holds at most ten entries, is a contiguous slice starting at (page-1)*10, and is full unless it is the last |
| Listing.PagesCover | pybo/views.py:298-299 | Entry i is on page i/10+1 at position i%10 |
| Listing.PagesDisjoint | pybo/views.py:298-299 | An entry sits on one page only |
| Listing.ArrangedSpec | pybo/views.py:281-295 | The listed questions are ordered, duplicate-free, and exactly those given that match the keyword (all of them when it is empty) |
| Listing.Index | pybo/views.py:270-302 | `IndexView.get`: `page`, `kw` and `so` default to "1", "" and "recent"; the page number is at least 1 and a page holds at most ten questions |
| Listing.IndexSpec | pybo/views.py:276-301 | A response holds at most ten questions, a contiguous slice of the arranged list at a valid page number, in order, each given and matching the keyword |
| Listing.EveryListedOnSomePage | pybo/views.py:298-299 | Every matching question is shown on some page |
| Listing.DefaultIndex | pybo/views.py:276-278 | With no parameters: page 1, empty keyword, `recent` order, the first ten of all questions newest first |
| Listing.IndexOfStore | pybo/views.py:282-294 | Over the stored tables, each listed entry carries its question's voter count and one author per answer, and under a keyword the stored question or one of its stored answers matches |
| Listing.StoredQuestionListed | pybo/views.py:289-299 | Every stored question that matches the keyword, through its own fields or a stored answer's author, is shown on some page |

## Left out

- URL routing (`pybo/urls.py`): the success URLs are `Url` values. The detail path is `/pybo/<id>/`; the mount prefix `/pybo/` is taken as given, because the project-level routing is not part of this model.
- HTTP requests and responses, templates, flash messages and logging: a flash message is only the `errorShown` flag of the vote methods.
- Login and form validation: the actor is a parameter, and subject and content are already-validated inputs. `form_invalid` (views.py:162-173) only re-renders a page and is left out.
- `QuestionDetailView` (views.py:304-316) only renders a row and is left out.
- Timestamps: `timezone.now()` and `auto_now` are one natural-number parameter `now`.
- The ORM:
  - creating an answer or a question comment with an unsaved `Question(pk=...)` reference is modelled as the database refusing the row (`IntegrityError`) when that question does not exist;
  - a `None` parent reached through `comment.question` or `comment.answer.question` is modelled as `ServerError`.
- Listing.Sort: ties on both keys keep ascending id order (a stable insertion sort over the id scan). The database leaves that order unspecified.
- Listing.Sort: under a non-empty keyword, the source orders `recommend` and `popular` by counts that the search's join with the answers inflates, because neither `Count('voter')` nor `Count('answer')` (views.py:282, 284) uses `distinct=True`; the model orders by the true counts. The search result can therefore come out in a different order. Example, with `recommend` and a keyword in both subjects: Q1 has 2 voters and 3 answers, so the source counts 6 votes; Q2 has 5 voters and no answers, so it counts 5. The source lists Q1 first; the model lists Q2 first.
- Listing.IndexOfStore: `voterCount` and `answerAuthors` are the true voter and answer counts, not the join-inflated SQL aggregates.
- Listing.PageNumber: `Paginator.get_page` is framework code. Its behaviour is taken to be Django's: a non-integer page gives page 1, a page below 1 or above the last gives the last page, and an empty list still has one page.
- Text.ParseInt: models Python `int()` on an optional sign and ASCII digits. Surrounding whitespace, underscores and non-ASCII digits are not accepted here.
- Text.Lower: case folding for `icontains` is ASCII lower-casing only.
- Concurrency between requests and transactions: each view runs alone and either completes or fails as stated.
- Field names: the views write `createdby`, `modifiedby`, `createdon` and `modifiedon`, while the models declare `created_by`, `modified_by`, `created_on` and `modified_on`. They are treated as the same field. As literally written, the views' attributes are not model fields at all.

## Findings

| source | as written | input that shows it | evidently intended | confidence | as-written member | corrected member |
|---|---|---|---|---|---|---|
| pybo/models.py:34-37 | The getter tests `hasattr` on `owning_user`. For a nullable foreign key that attribute is always readable (it is None when unset), so the group branch is never reached | Set the owner to group g, then read `owner`: the result is None | Return the group when only the group slot is set | not executed | Models.GroupOwnerReadsAsNone | Models.AssignThenRead |
