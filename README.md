# Q&A store model

A model of the `QetaStore` contract of the Backstage Q&A backend plugin
(`plugins/qeta-backend/src/database/QetaStore.ts`). That file is only an
interface: it gives the records (question, answer, vote, comment, attachment,
tag count) and the list of operations, with doc comments saying what each one
does. This project turns that contract into a sequential, in-memory store and
proves what the contract promises about it.

- `Store.QetaStore` is a class whose fields are the store's tables. There are
  maps for questions, answers, comments and attachments, and two vote tables
  indexed by target and then by voter. Favorites are a set of (user, question)
  pairs. Four counters hand out fresh ids. Each interface operation is a
  method. The ones that change the store have a `modifies` clause, and their
  postcondition gives the whole new state, what they return, and the failure
  case: "not found" or "not allowed" gives `None` or `false` and leaves the
  store unchanged. The read-only ones (getQuestions, getAnswer, getTags,
  getAttachment) have no `modifies` clause, so they cannot change the store.
- `Db` holds the contract's meaning as functions on values:
  - the store as one value (`Tables`) and its referential integrity
    (`WellFormed`), which every operation preserves;
  - each single change (post, change, vote, favorite, cascading delete);
  - the read model: how the question or answer a reader sees is derived. The
    score is the sum of the current votes, `answersCount` counts the answers,
    `correctAnswer` says whether some answer is marked correct, and `favorite`,
    `ownVote` and `own` depend on the reader.
- `Votes` adds up vote maps. It also proves that the score is the sum of the
  visible vote rows, and what replaying a sequence of ballots leaves behind.
- `Listing` is `getQuestions`. It filters the questions a reader sees, sorts
  them stably by one field and cuts out one page. The listing's total counts
  every matching question.
- `Scenarios` drives the store through the call sequences the contract talks
  about. Its postconditions state what a client observes, for example "only
  the author can delete" and "views go up by one per read".

Dates are `nat` timestamps passed in by the caller (`now`). Optional caller
arguments are `Option` values or empty sequences. An omitted `recordView` is
`None`.

## Model

| member | source | states |
|---|---|---|
| Store.QetaStore.constructor | plugins/qeta-backend/src/database/QetaStore.ts:122-125 | a new store is empty and well formed |
| Store.QetaStore.ReadQuestion | plugins/qeta-backend/src/database/QetaStore.ts:6-27 | the question built from the rows, with the score added up by a loop, is exactly the read model's view of it for that user |
| Store.QetaStore.ReadAnswer | plugins/qeta-backend/src/database/QetaStore.ts:29-43 | the answer built from the rows with its score added up is the read model's view of it |
| Store.QetaStore.GetQuestion | plugins/qeta-backend/src/database/QetaStore.ts:133-144 | a missing id gives None and changes nothing; otherwise it returns the question as it was before the read, and the stored views grow by exactly one, or by none when recordView is false; nothing else changes |
| Store.QetaStore.GetQuestionByAnswerId | plugins/qeta-backend/src/database/QetaStore.ts:146-157 | a missing answer gives None and changes nothing; otherwise it behaves as GetQuestion on the answer's question |
| Store.QetaStore.ReadAll | plugins/qeta-backend/src/database/QetaStore.ts:125-131 | the loop yields every stored question as the user sees it, in increasing id order |
| Store.QetaStore.GetQuestions | plugins/qeta-backend/src/database/QetaStore.ts:63-93 | every listed question is a stored question as the user sees it and passes every filter; no question is listed twice; the page has at most `limit` entries and is sorted by the requested field and direction, or by increasing id when no order is asked for; total is the number of all stored questions that match; a page from offset 0 whose limit leaves room for all matches lists every matching stored question |
| Store.QetaStore.PostQuestion | plugins/qeta-backend/src/database/QetaStore.ts:159-174 | the question gets a fresh id and is stored with the given fields; the author sees it as their own, with score, views and answer count 0, no correct answer, no favorite, no votes and no comments |
| Store.QetaStore.CommentQuestion | plugins/qeta-backend/src/database/QetaStore.ts:176-186 | a missing question gives None and changes nothing; otherwise one comment is added under a fresh id, and the returned question is the old view with that comment (owned by the commenter) added and nothing else changed |
| Store.QetaStore.DeleteQuestionComment | plugins/qeta-backend/src/database/QetaStore.ts:188-198 | succeeds exactly when the comment exists, is on that question and was written by the user; then only that comment is gone from the returned question |
| Store.QetaStore.UpdateQuestion | plugins/qeta-backend/src/database/QetaStore.ts:200-217 | only the question's author may update; the title, content, tags, components and images are replaced and updated/updatedBy are set; the score, views, answers and comments are kept |
| Store.QetaStore.DeleteQuestion | plugins/qeta-backend/src/database/QetaStore.ts:219-224 | returns true exactly when the user wrote the question; then the question, its answers, and their votes, comments and favorites are gone, and every other question looks the same to every reader; otherwise nothing changes |
| Store.QetaStore.AnswerQuestion | plugins/qeta-backend/src/database/QetaStore.ts:226-237 | a missing question gives None and changes nothing; otherwise the new answer has a fresh id, the given questionId, author and content, is not correct and has no votes; the question's answersCount grows by one for every reader |
| Store.QetaStore.CommentAnswer | plugins/qeta-backend/src/database/QetaStore.ts:239-249 | a missing answer gives None and changes nothing; otherwise one comment is added and the returned answer differs from the old view only by it |
| Store.QetaStore.DeleteAnswerComment | plugins/qeta-backend/src/database/QetaStore.ts:251-261 | succeeds exactly when the comment exists, is on that answer and was written by the user; then only that comment is gone |
| Store.QetaStore.UpdateAnswer | plugins/qeta-backend/src/database/QetaStore.ts:263-276 | only the answer's author may update, and only under its own question; the content and images are replaced and updated/updatedBy are set; everything else is kept |
| Store.QetaStore.GetAnswer | plugins/qeta-backend/src/database/QetaStore.ts:278-281 | a missing id gives None; otherwise the answer's view for an unknown reader; the store is not changed |
| Store.QetaStore.DeleteAnswer | plugins/qeta-backend/src/database/QetaStore.ts:283-288 | returns true exactly when the user wrote the answer; then it goes with its votes and comments, its question's answersCount drops by one, and every other answer looks the same; otherwise nothing changes |
| Store.QetaStore.VoteQuestion | plugins/qeta-backend/src/database/QetaStore.ts:290-300 | fails exactly on a missing question; otherwise the user's vote replaces any earlier vote of theirs, their ownVote is the new score, the score drops the old vote and adds the new one, and no one else's ownVote changes |
| Store.QetaStore.VoteAnswer | plugins/qeta-backend/src/database/QetaStore.ts:302-312 | the same as VoteQuestion, for an answer |
| Store.QetaStore.MarkAnswerCorrect | plugins/qeta-backend/src/database/QetaStore.ts:314-324 | succeeds exactly when the user wrote the question and the answer belongs to it; then that answer, and only it, becomes correct and the question shows correctAnswer to every reader; other answers keep their marks and every question keeps the same answers, so its answer count |
| Store.QetaStore.MarkAnswerIncorrect | plugins/qeta-backend/src/database/QetaStore.ts:326-336 | the same permission; then that answer is not correct, and correctAnswer holds exactly when some other answer of the question is still correct; every question keeps the same answers, so its answer count |
| Store.QetaStore.FavoriteQuestion | plugins/qeta-backend/src/database/QetaStore.ts:338-343 | fails exactly on a missing question; otherwise the user sees the question as a favorite, and no other (user, question) flag changes |
| Store.QetaStore.UnfavoriteQuestion | plugins/qeta-backend/src/database/QetaStore.ts:345-350 | fails exactly on a missing question; otherwise the user no longer sees it as a favorite, and no other flag changes |
| Store.QetaStore.GetTags | plugins/qeta-backend/src/database/QetaStore.ts:352-355 | the result names every tag carried by some stored question, and only those; no tag appears twice; each count is the number of stored questions carrying that tag, and is positive |
| Store.QetaStore.PostAttachment | plugins/qeta-backend/src/database/QetaStore.ts:357-366 | stores the attachment under its uuid with a fresh internal id, keeping every caller-supplied field; a uuid already in use gives None and changes nothing |
| Store.QetaStore.GetAttachment | plugins/qeta-backend/src/database/QetaStore.ts:368 | returns the attachment stored under the uuid, or None for an unknown uuid |
| Db.QuestionScoreIsSumOfVotes | plugins/qeta-backend/src/database/QetaStore.ts:14 | the score a reader sees on a question is the sum of the scores of the votes they see on it |
| Db.AnswerScoreIsSumOfVotes | plugins/qeta-backend/src/database/QetaStore.ts:38-41 | the score a reader sees on an answer is the sum of the scores of the votes they see on it |
| Db.QuestionPostedWellFormed | plugins/qeta-backend/src/database/QetaStore.ts:159-174 | posting keeps the store's integrity, and the next question id is fresh |
| Db.PostedQuestionView | plugins/qeta-backend/src/database/QetaStore.ts:159-174 | the author sees a just-posted question with the given fields, as their own, with no score, answers, favorite, vote or comments |
| Db.QuestionChangedWellFormed | plugins/qeta-backend/src/database/QetaStore.ts:200-217 | replacing a stored question row keeps the integrity |
| Db.AnswerPostedWellFormed | plugins/qeta-backend/src/database/QetaStore.ts:226-237 | adding an answer to a stored question keeps the integrity, and the next answer id is fresh |
| Db.AnswerChangedWellFormed | plugins/qeta-backend/src/database/QetaStore.ts:263-276 | replacing an answer row under the same question keeps the integrity |
| Db.CommentAddedWellFormed | plugins/qeta-backend/src/database/QetaStore.ts:176-186 | adding a comment to an existing question or answer keeps the integrity, and the next comment id is fresh |
| Db.CommentRemovedWellFormed | plugins/qeta-backend/src/database/QetaStore.ts:188-198 | removing a comment keeps the integrity |
| Db.QuestionVotedWellFormed | plugins/qeta-backend/src/database/QetaStore.ts:290-300 | a vote on a stored question keeps the integrity, including that each vote row sits under its own author |
| Db.QuestionVotedView | plugins/qeta-backend/src/database/QetaStore.ts:290-300 | after a vote the voter's ownVote is the new score, and the score is the old score less their earlier vote plus the new one |
| Db.QuestionVotedOthers | plugins/qeta-backend/src/database/QetaStore.ts:290-300 | a vote leaves every other reader's ownVote as it was |
| Db.AnswerVotedWellFormed | plugins/qeta-backend/src/database/QetaStore.ts:302-312 | a vote on a stored answer keeps the integrity |
| Db.AnswerVotedView | plugins/qeta-backend/src/database/QetaStore.ts:302-312 | after a vote the voter's ownVote on the answer is the new score, and the score moves from the earlier vote to the new one |
| Db.AnswerVotedOthers | plugins/qeta-backend/src/database/QetaStore.ts:302-312 | an answer vote leaves every other reader's ownVote as it was |
| Db.FavoritedWellFormed | plugins/qeta-backend/src/database/QetaStore.ts:338-350 | adding or dropping a favorite of a stored question keeps the integrity |
| Db.AttachmentPostedWellFormed | plugins/qeta-backend/src/database/QetaStore.ts:357-366 | filing an attachment under its uuid with the next internal id keeps the integrity |
| Db.CommentsOnAdd | plugins/qeta-backend/src/database/QetaStore.ts:176-186 | a new comment shows among its target's comments, and the others are unchanged |
| Db.CommentsOnRemove | plugins/qeta-backend/src/database/QetaStore.ts:188-198 | a deleted comment is gone from its target's comments, and no other is |
| Db.QuestionViewOtherComments | plugins/qeta-backend/src/database/QetaStore.ts:176-198 | a change that touches only comments changes a question's view only in its comments |
| Db.AnswerViewOtherComments | plugins/qeta-backend/src/database/QetaStore.ts:239-261 | a change that touches only comments changes an answer's view only in its comments |
| Db.AnswerRemovedWellFormed | plugins/qeta-backend/src/database/QetaStore.ts:283-288 | deleting an answer with its votes and comments leaves no orphaned row |
| Db.QuestionRemovedWellFormed | plugins/qeta-backend/src/database/QetaStore.ts:219-224 | deleting a question with its answers, their votes and comments, and its favorites leaves no orphaned row |
| Db.SameQuestionView | plugins/qeta-backend/src/database/QetaStore.ts:6-27 | stores that agree on a question's row, votes, the reader's favorite flag and its comments show it alike, except for answersCount and correctAnswer |
| Db.SameAnswerView | plugins/qeta-backend/src/database/QetaStore.ts:29-43 | stores that agree on an answer's row, votes and comments show it alike |
| Db.CommentsOnKept | plugins/qeta-backend/src/database/QetaStore.ts:26 | dropping only comments on other targets leaves a target's comments unchanged |
| Db.AnswersKept | plugins/qeta-backend/src/database/QetaStore.ts:16-17 | dropping answers of other questions leaves a question's answers, and whether one is correct, unchanged |
| Db.QuestionRemovedKeepsOthers | plugins/qeta-backend/src/database/QetaStore.ts:219-224 | deleting a question changes nothing any reader sees of any other question |
| Db.QuestionRemovedKeepsOtherAnswers | plugins/qeta-backend/src/database/QetaStore.ts:219-224 | deleting a question leaves every answer to another question unchanged |
| Db.AnswerRemovedEffect | plugins/qeta-backend/src/database/QetaStore.ts:283-288 | deleting an answer lowers its question's answersCount by one and changes nothing else of any question except whether it has a correct answer; other questions do not change at all |
| Db.AnswerRemovedKeepsOthers | plugins/qeta-backend/src/database/QetaStore.ts:283-288 | deleting an answer leaves every other answer unchanged |
| Db.AnswerAddedCount | plugins/qeta-backend/src/database/QetaStore.ts:16 | an answer under a fresh id adds one to the answer count of its own question and changes no other question's count |
| Votes.SumRemove | plugins/qeta-backend/src/database/QetaStore.ts:14 | the sum of a vote map is one vote's score plus the sum of the others |
| Votes.SumUpsert | plugins/qeta-backend/src/database/QetaStore.ts:290-312 | replacing or adding one voter's vote moves the sum by the difference between the new score and the old one (or adds the new score) |
| Votes.TotalScore | plugins/qeta-backend/src/database/QetaStore.ts:14 | the loop computes the sum of the scores of all votes |
| Votes.SumSetRemove | plugins/qeta-backend/src/database/QetaStore.ts:24 | the sum over a set of vote rows is one row's score plus the sum of the rest |
| Votes.SumIsSumOfRows | plugins/qeta-backend/src/database/QetaStore.ts:14-24 | when every vote row sits under its own author, the sum over the map equals the sum over its vote rows |
| Votes.LastBy | plugins/qeta-backend/src/database/QetaStore.ts:290-300 | the index found is a ballot by that user, and no later ballot is theirs |
| Votes.ReplayLastWins | plugins/qeta-backend/src/database/QetaStore.ts:290-300 | after a sequence of ballots a user has a vote exactly when they had one or cast one, and it is their last ballot, or their earlier vote when they cast none |
| Listing.FilterBy | plugins/qeta-backend/src/database/QetaStore.ts:80-85 | the result holds exactly the elements that pass the test, is no longer than the input and holds no element more often than the input does |
| Listing.DistinctPositions | plugins/qeta-backend/src/database/QetaStore.ts:63-93 | in a list without repeats, elements at different positions differ |
| Listing.IncreasingDistinct | plugins/qeta-backend/src/database/QetaStore.ts:125-131 | a list whose ids strictly increase has no repeated element |
| Listing.FilterKeepsIdOrder | plugins/qeta-backend/src/database/QetaStore.ts:80-85 | filtering a list whose ids strictly increase leaves their order strictly increasing |
| Listing.SortedOnAscending | plugins/qeta-backend/src/database/QetaStore.ts:72-79 | a list whose neighbours are in order is in order pairwise |
| Listing.InsertBy | plugins/qeta-backend/src/database/QetaStore.ts:72-79 | inserting into a sorted list keeps it sorted and adds exactly the inserted element |
| Listing.SortBy | plugins/qeta-backend/src/database/QetaStore.ts:72-79 | the result is sorted by the rank and is a permutation of the input |
| Listing.PageWithin | plugins/qeta-backend/src/database/QetaStore.ts:69-70 | a page holds no element more often than the list it is cut from, and keeps ids increasing |
| Listing.PageSpec | plugins/qeta-backend/src/database/QetaStore.ts:69-70 | a page is the run of elements starting at offset, as long as the remaining elements and the limit allow, in the original order |
| Listing.AscendingIsSortedBy | plugins/qeta-backend/src/database/QetaStore.ts:72-79 | ordering by rank is ordering by the field: non-increasing when descending, non-decreasing when ascending |
| Listing.Ordered | plugins/qeta-backend/src/database/QetaStore.ts:72-85 | the ordered matches are exactly the questions that pass the filters, each as often as the filter keeps it, in order of the requested field |
| Listing.ListQuestionsSpec | plugins/qeta-backend/src/database/QetaStore.ts:63-93 | the page respects the limit, holds only matching questions, is sorted as asked and is exactly as long as the offset and the limit allow; the total counts every match |
| Listing.InIdOrderEntries | plugins/qeta-backend/src/database/QetaStore.ts:125-131 | every element of the id-ordered list is the map entry under its id, below the bound |
| Listing.InIdOrderIncreasing | plugins/qeta-backend/src/database/QetaStore.ts:125-131 | ids strictly increase along the id-ordered list, so no question appears twice |
| Listing.InIdOrderComplete | plugins/qeta-backend/src/database/QetaStore.ts:125-131 | every entry below the bound is in the id-ordered list |
| Listing.InIdOrderNext | plugins/qeta-backend/src/database/QetaStore.ts:125-131 | raising the bound by one appends the entry under the old bound, if there is one |
| Listing.ViewsBelowInIdOrder | plugins/qeta-backend/src/database/QetaStore.ts:125-131 | the questions below an id, read one id at a time, are the id-ordered list of the reader's views |
| Listing.FilterCountsIds | plugins/qeta-backend/src/database/QetaStore.ts:63-66 | in a list with increasing ids, the number of kept elements is the number of their ids |
| Listing.ListingCount | plugins/qeta-backend/src/database/QetaStore.ts:63-66 | the number of matches in the id-ordered list is the number of matching keys of the map |
| Listing.InIdOrderEntry | plugins/qeta-backend/src/database/QetaStore.ts:125-131 | an element of the id-ordered list is the map entry under its own id |
| Listing.ListingOfStore | plugins/qeta-backend/src/database/QetaStore.ts:63-93 | the listing of a whole store lists only matching stored entries, none twice, at most `limit` of them, sorted as asked or by increasing id when no order is asked for; its total is the number of matching stored questions; from offset 0 with room for all matches it lists every one of them |
| Listing.ListingDistinct | plugins/qeta-backend/src/database/QetaStore.ts:63-93 | the questions on a page of the store's listing have pairwise different ids |
| Listing.ListingComplete | plugins/qeta-backend/src/database/QetaStore.ts:63-93 | a page from offset 0 whose limit is absent or at least the number of matches holds every matching entry of the store |
| Listing.ListingInIdOrder | plugins/qeta-backend/src/database/QetaStore.ts:63-93 | with no orderBy, ids strictly increase along the page |
| Scenarios.CastAll | plugins/qeta-backend/src/database/QetaStore.ts:290-300 | one vote call per ballot leaves the question's votes as the replay of the ballots |
| Scenarios.VoteSequence | plugins/qeta-backend/src/database/QetaStore.ts:290-300 | after any sequence of ballots on a new question, each voter counts once with their last ballot, the asker's ownVote is their last ballot's score (absent if they cast none), and the score is the sum of the last ballots, which is the sum of the visible votes |
| Scenarios.PostThenDelete | plugins/qeta-backend/src/database/QetaStore.ts:219-224 | another user's delete fails and leaves the question readable; the author's delete succeeds and the question is gone |
| Scenarios.ReadRepeatedly | plugins/qeta-backend/src/database/QetaStore.ts:133-144 | n reads that record views add exactly n to the stored view count |
| Scenarios.PostAndRead | plugins/qeta-backend/src/database/QetaStore.ts:133-144 | a new question read n times has n views |
| Scenarios.ViewsCounted | plugins/qeta-backend/src/database/QetaStore.ts:133-144 | a question read n times shows n views, and reads with recordView false add none |
| Scenarios.AskAndAnswer | plugins/qeta-backend/src/database/QetaStore.ts:226-237 | a new question with one answer has exactly that answer |
| Scenarios.MarkAndLook | plugins/qeta-backend/src/database/QetaStore.ts:314-336 | when the asker marks the only answer, the question's correctAnswer then shows the mark just made |
| Scenarios.MarkThenUnmark | plugins/qeta-backend/src/database/QetaStore.ts:314-336 | the answerer cannot mark; the asker's mark shows as correctAnswer, and clearing it clears correctAnswer |
| Scenarios.FavoriteThenUnfavorite | plugins/qeta-backend/src/database/QetaStore.ts:338-350 | unfavoriting what was never a favorite succeeds; a favorite shows for its user only; unfavoriting clears it; favoriting a missing question fails |
| Scenarios.TopTagged | plugins/qeta-backend/src/database/QetaStore.ts:63-93 | the ten best-scored questions with a tag: at most ten, all carrying the tag, in non-increasing score; the total counts all of them |
| Scenarios.AttachmentRoundTrip | plugins/qeta-backend/src/database/QetaStore.ts:357-368 | an attachment fetched by the uuid it was posted under is the one posted, with the same uuid, MIME type, extension, location type, location URI and bytes; an unknown uuid gives nothing |

## Left out

- The statistics operations (`getMostUpvotedQuestions`, `getTotalQuestions`,
  `getMostUpvotedAnswers`, `getMostUpvotedCorrectAnswers`, `getTotalAnswers`)
  are not modelled. Their parameter and result types come from a package that
  is not part of this model, and they bucket results by calendar dates.
- `getQuestions` leaves out `searchQuery` (free-text search, whose matching
  the interface does not define), `orderBy: 'trend'` and the `trend` field (a
  time-decayed ranking), `random` ordering and the `include*` flags. The flags
  only decide which parts of a question the payload carries. The model always
  returns votes, tags, components and comments, and never the nested
  `answers` list (`answersCount` and `GetAnswer` cover it).
- The `components`/`entities` are opaque strings. Resolving them against the
  software catalog is not modelled.
- `Promise`/async, the database engine, transactions and concurrent callers
  are not modelled. The store is sequential and each operation is atomic.
- `Date` is a `nat` timestamp that the caller supplies. The model does not
  read a clock.
- Image ids passed to postQuestion, updateQuestion, answerQuestion and
  updateAnswer are stored on the row. Linking them to attachment rows is not
  modelled, because the interface does not say how.
- Choices where the interface is silent:
  - a `tags` filter keeps questions carrying at least one listed tag;
  - `order` defaults to descending;
  - a listing with no `orderBy` is in id order;
  - a question never updated sorts as updated at time 0;
  - comments are keyed by the comment id that the delete operations take,
    and only a comment's author may delete it;
  - re-posting an attachment under a uuid already in use is refused
    (`None`) rather than left unspecified;
  - `getAnswer` takes no user, so its view has no `ownVote` and `own` is false;
  - `getTags` lists tags in no particular order and counts only stored
    questions, since a deleted question carries no tags; a tag that no stored
    question carries is not listed, so no count is 0.
- The user-interface files of the repository (the question list item and the
  ask-question button) render data and hold no store logic. They are not
  part of this model.
