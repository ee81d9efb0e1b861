/** The whole state of the store as one value, the integrity it keeps, and the
    read model: how the questions and answers a caller sees are derived from
    the stored rows. */
module Db {
  import opened Wrappers
  import opened Records
  import opened Votes

  /** Every table of the store, with the counters new ids are taken from.
      Votes are indexed by target, then by voter: the composite key
      (voter, target) of the vote tables. */
  datatype Tables = Tables(
    questions: map<nat, QuestionRow>,
    answers: map<nat, AnswerRow>,
    comments: map<nat, CommentRow>,
    questionVotes: map<nat, map<string, Vote>>,
    answerVotes: map<nat, map<string, Vote>>,
    favorites: set<(string, nat)>,
    attachments: map<string, Attachment>,
    nextQuestionId: nat,
    nextAnswerId: nat,
    nextCommentId: nat,
    nextAttachmentId: nat)

  /** The empty store. */
  function Empty(): Tables
  {
    Tables(map[], map[], map[], map[], map[], {}, map[], 0, 0, 0, 0)
  }

  predicate TargetExists(db: Tables, t: Target)
  {
    match t
    case OnQuestion(q) => q in db.questions
    case OnAnswer(a) => a in db.answers
  }

  /** Referential integrity: every answer, comment, vote and favorite refers
      to a stored row; vote rows agree with their key; every id is below its
      counter, so the next id is fresh. */
  ghost predicate WellFormed(db: Tables)
  {
    && (forall a :: a in db.answers ==> db.answers[a].questionId in db.questions)
    && (forall c :: c in db.comments ==> TargetExists(db, db.comments[c].target))
    && db.questionVotes.Keys <= db.questions.Keys
    && db.answerVotes.Keys <= db.answers.Keys
    && (forall t, u :: t in db.questionVotes && u in db.questionVotes[t] ==> db.questionVotes[t][u].author == u)
    && (forall t, u :: t in db.answerVotes && u in db.answerVotes[t] ==> db.answerVotes[t][u].author == u)
    && (forall p :: p in db.favorites ==> p.1 in db.questions)
    && (forall k :: k in db.attachments ==> db.attachments[k].uuid == k && db.attachments[k].id < db.nextAttachmentId)
    && (forall q :: q in db.questions ==> q < db.nextQuestionId)
    && (forall a :: a in db.answers ==> a < db.nextAnswerId)
    && (forall c :: c in db.comments ==> c < db.nextCommentId)
  }

  // ---------------------------------------------------------------------
  // Derived fields

  /** The votes on target `t` (none when the target was never voted on). */
  function VotesOn(table: map<nat, map<string, Vote>>, t: nat): map<string, Vote>
  {
    if t in table then table[t] else map[]
  }

  /** The ids of the answers to question `q`. */
  function AnswersOf(answers: map<nat, AnswerRow>, q: nat): set<nat>
  {
    set a | a in answers && answers[a].questionId == q
  }

  predicate HasCorrectAnswer(answers: map<nat, AnswerRow>, q: nat)
  {
    exists a :: a in answers && answers[a].questionId == q && answers[a].correct
  }

  /** The score the viewer gave, if the viewer is known and has voted. */
  function OwnVote(votes: map<string, Vote>, viewer: Option<string>): Option<int>
  {
    if viewer.Some? && viewer.value in votes then Some(votes[viewer.value].score) else None
  }

  function CommentView(c: CommentRow, viewer: Option<string>): Comment
  {
    Comment(c.author, c.content, c.created, viewer == Some(c.author), c.updated, c.updatedBy)
  }

  /** The comments attached to `t`, keyed by comment id. */
  function CommentsOn(comments: map<nat, CommentRow>, t: Target, viewer: Option<string>): map<nat, Comment>
  {
    map c | c in comments && comments[c].target == t :: CommentView(comments[c], viewer)
  }

  /** Question `id` as `user` sees it, given its score. */
  function QuestionWithScore(db: Tables, user: string, id: nat, score: int): Question
    requires id in db.questions
  {
    var row := db.questions[id];
    var votes := VotesOn(db.questionVotes, id);
    Question(
      id, row.author, row.title, row.content, row.created, row.updated, row.updatedBy,
      score, row.views, |AnswersOf(db.answers, id)|, HasCorrectAnswer(db.answers, id),
      (user, id) in db.favorites, OwnVote(votes, Some(user)), row.tags, row.entities,
      row.author == user, votes.Values, CommentsOn(db.comments, OnQuestion(id), Some(user)))
  }

  /** Question `id` as `user` sees it: its score is the sum of its current votes. */
  ghost function QuestionView(db: Tables, user: string, id: nat): Question
    requires id in db.questions
  {
    QuestionWithScore(db, user, id, Sum(VotesOn(db.questionVotes, id)))
  }

  /** Answer `id` as `viewer` sees it, given its score. */
  function AnswerWithScore(db: Tables, viewer: Option<string>, id: nat, score: int): Answer
    requires id in db.answers
  {
    var row := db.answers[id];
    var votes := VotesOn(db.answerVotes, id);
    Answer(
      id, row.questionId, row.author, row.content, row.correct, row.created, row.updated,
      row.updatedBy, score, OwnVote(votes, viewer), viewer == Some(row.author), votes.Values,
      CommentsOn(db.comments, OnAnswer(id), viewer))
  }

  /** Answer `id` as `viewer` sees it: its score is the sum of its current votes. */
  ghost function AnswerView(db: Tables, viewer: Option<string>, id: nat): Answer
    requires id in db.answers
  {
    AnswerWithScore(db, viewer, id, Sum(VotesOn(db.answerVotes, id)))
  }

  /** The score a reader sees on a question is the sum of the scores of the
      votes they see on it. */
  lemma QuestionScoreIsSumOfVotes(db: Tables, user: string, id: nat)
    requires WellFormed(db) && id in db.questions
    ensures QuestionView(db, user, id).score == SumSet(QuestionView(db, user, id).votes)
  {
    SumIsSumOfRows(VotesOn(db.questionVotes, id));
  }

  /** The score a reader sees on an answer is the sum of the scores of the
      votes they see on it. */
  lemma AnswerScoreIsSumOfVotes(db: Tables, viewer: Option<string>, id: nat)
    requires WellFormed(db) && id in db.answers
    ensures AnswerView(db, viewer, id).score == SumSet(AnswerView(db, viewer, id).votes)
  {
    SumIsSumOfRows(VotesOn(db.answerVotes, id));
  }

  /** The tags carried by at least one stored question. */
  function UsedTags(questions: map<nat, QuestionRow>): set<string>
  {
    set q, t | q in questions && t in questions[q].tags :: t
  }

  /** The questions carrying tag `t`. */
  function TaggedWith(questions: map<nat, QuestionRow>, t: string): set<nat>
  {
    set q | q in questions && t in questions[q].tags
  }

  /** The attachment row stored for `p` under internal id `id` at time `now`:
      every caller-supplied field is kept as given. */
  function Stored(p: AttachmentParameters, id: nat, now: nat): Attachment
  {
    Attachment(id, p.uuid, p.locationType, p.locationUri, p.path, p.binaryImage,
               p.mimeType, p.extension, p.creator, now)
  }

  // ---------------------------------------------------------------------
  // Ownership

  /** `user` wrote question `id`. */
  predicate AuthorsQuestion(db: Tables, user: string, id: nat)
  {
    id in db.questions && db.questions[id].author == user
  }

  /** `user` wrote answer `id`. */
  predicate AuthorsAnswer(db: Tables, user: string, id: nat)
  {
    id in db.answers && db.answers[id].author == user
  }

  /** `user` may mark answer `answerId` of question `questionId`: the answer
      belongs to the question and `user` wrote the question. */
  predicate MayMark(db: Tables, user: string, questionId: nat, answerId: nat)
  {
    AuthorsQuestion(db, user, questionId) && answerId in db.answers && db.answers[answerId].questionId == questionId
  }

  /** `user` may delete comment `id` from `t`: the parent exists, the comment
      is attached to it and `user` wrote the comment. */
  predicate MayDeleteComment(db: Tables, t: Target, id: nat, user: string)
  {
    TargetExists(db, t) && id in db.comments && db.comments[id].target == t && db.comments[id].author == user
  }

  // ---------------------------------------------------------------------
  // Single changes, and the integrity each keeps

  /** The store with question `row` added under the next question id. */
  function QuestionPosted(db: Tables, row: QuestionRow): Tables
  {
    db.(questions := db.questions[db.nextQuestionId := row], nextQuestionId := db.nextQuestionId + 1)
  }

  lemma QuestionPostedWellFormed(db: Tables, row: QuestionRow)
    requires WellFormed(db)
    ensures WellFormed(QuestionPosted(db, row))
    ensures db.nextQuestionId !in db.questions
  {
  }

  /** A question just posted is seen by its author with no score, answers,
      favorite, vote or comments, and as their own. */
  lemma PostedQuestionView(db: Tables, row: QuestionRow)
    requires WellFormed(db)
    ensures db.nextQuestionId in QuestionPosted(db, row).questions
    ensures QuestionView(QuestionPosted(db, row), row.author, db.nextQuestionId)
      == Question(db.nextQuestionId, row.author, row.title, row.content, row.created, row.updated,
                  row.updatedBy, 0, row.views, 0, false, false, None, row.tags, row.entities, true,
                  {}, map[])
  {
    var id, r := db.nextQuestionId, QuestionPosted(db, row);
    assert VotesOn(r.questionVotes, id) == map[];
    assert (row.author, id) !in r.favorites;
    assert AnswersOf(r.answers, id) == {};
    assert !HasCorrectAnswer(r.answers, id);
    assert CommentsOn(r.comments, OnQuestion(id), Some(row.author)) == map[];
  }

  /** The store with the row of question `id` replaced by `row`. */
  function QuestionChanged(db: Tables, id: nat, row: QuestionRow): Tables
  {
    db.(questions := db.questions[id := row])
  }

  lemma QuestionChangedWellFormed(db: Tables, id: nat, row: QuestionRow)
    requires WellFormed(db) && id in db.questions
    ensures WellFormed(QuestionChanged(db, id, row))
  {
    assert QuestionChanged(db, id, row).questions.Keys == db.questions.Keys;
  }

  /** The store with answer `row` added under the next answer id. */
  function AnswerPosted(db: Tables, row: AnswerRow): Tables
  {
    db.(answers := db.answers[db.nextAnswerId := row], nextAnswerId := db.nextAnswerId + 1)
  }

  lemma AnswerPostedWellFormed(db: Tables, row: AnswerRow)
    requires WellFormed(db) && row.questionId in db.questions
    ensures WellFormed(AnswerPosted(db, row))
    ensures db.nextAnswerId !in db.answers
  {
  }

  /** The store with the row of answer `id` replaced by `row`. */
  function AnswerChanged(db: Tables, id: nat, row: AnswerRow): Tables
  {
    db.(answers := db.answers[id := row])
  }

  lemma AnswerChangedWellFormed(db: Tables, id: nat, row: AnswerRow)
    requires WellFormed(db) && id in db.answers && row.questionId == db.answers[id].questionId
    ensures WellFormed(AnswerChanged(db, id, row))
  {
    assert AnswerChanged(db, id, row).answers.Keys == db.answers.Keys;
  }

  /** The store with comment `row` added under the next comment id. */
  function CommentAdded(db: Tables, row: CommentRow): Tables
  {
    db.(comments := db.comments[db.nextCommentId := row], nextCommentId := db.nextCommentId + 1)
  }

  lemma CommentAddedWellFormed(db: Tables, row: CommentRow)
    requires WellFormed(db) && TargetExists(db, row.target)
    ensures WellFormed(CommentAdded(db, row))
    ensures db.nextCommentId !in db.comments
  {
    var r := CommentAdded(db, row);
    assert forall c :: c in r.comments ==> c == db.nextCommentId || c in db.comments;
  }

  /** The store without comment `c`. */
  function CommentRemoved(db: Tables, c: nat): Tables
  {
    db.(comments := db.comments - {c})
  }

  lemma CommentRemovedWellFormed(db: Tables, c: nat)
    requires WellFormed(db)
    ensures WellFormed(CommentRemoved(db, c))
  {
  }

  /** The store with `v` as its author's vote on question `q`, replacing
      any earlier vote of theirs there. */
  function QuestionVoted(db: Tables, q: nat, v: Vote): Tables
  {
    db.(questionVotes := db.questionVotes[q := VotesOn(db.questionVotes, q)[v.author := v]])
  }

  lemma QuestionVotedWellFormed(db: Tables, q: nat, v: Vote)
    requires WellFormed(db) && q in db.questions
    ensures WellFormed(QuestionVoted(db, q, v))
  {
  }

  /** After voting the voter sees their vote as their own, and the score
      moves from counting their earlier vote, if any, to counting the new one. */
  lemma QuestionVotedView(db: Tables, q: nat, v: Vote)
    requires q in db.questions
    ensures q in QuestionVoted(db, q, v).questions
    ensures QuestionView(QuestionVoted(db, q, v), v.author, q).ownVote == Some(v.score)
    ensures QuestionView(QuestionVoted(db, q, v), v.author, q).score
      == QuestionView(db, v.author, q).score - QuestionView(db, v.author, q).ownVote.GetOr(0) + v.score
  {
    SumUpsert(VotesOn(db.questionVotes, q), v.author, v);
  }

  /** A vote does not change the own vote anyone else sees. */
  lemma QuestionVotedOthers(db: Tables, q: nat, v: Vote, viewer: string)
    requires q in db.questions && viewer != v.author
    ensures QuestionView(QuestionVoted(db, q, v), viewer, q).ownVote == QuestionView(db, viewer, q).ownVote
  {
  }

  /** The store with `v` as its author's vote on answer `a`. */
  function AnswerVoted(db: Tables, a: nat, v: Vote): Tables
  {
    db.(answerVotes := db.answerVotes[a := VotesOn(db.answerVotes, a)[v.author := v]])
  }

  lemma AnswerVotedWellFormed(db: Tables, a: nat, v: Vote)
    requires WellFormed(db) && a in db.answers
    ensures WellFormed(AnswerVoted(db, a, v))
  {
  }

  /** After voting on an answer the voter sees their vote as their own, and
      the score moves from counting their earlier vote to counting the new one. */
  lemma AnswerVotedView(db: Tables, a: nat, v: Vote)
    requires a in db.answers
    ensures a in AnswerVoted(db, a, v).answers
    ensures AnswerView(AnswerVoted(db, a, v), Some(v.author), a).ownVote == Some(v.score)
    ensures AnswerView(AnswerVoted(db, a, v), Some(v.author), a).score
      == AnswerView(db, Some(v.author), a).score - AnswerView(db, Some(v.author), a).ownVote.GetOr(0) + v.score
  {
    SumUpsert(VotesOn(db.answerVotes, a), v.author, v);
  }

  /** A vote on an answer does not change the own vote anyone else sees. */
  lemma AnswerVotedOthers(db: Tables, a: nat, v: Vote, viewer: string)
    requires a in db.answers && viewer != v.author
    ensures AnswerView(AnswerVoted(db, a, v), Some(viewer), a).ownVote == AnswerView(db, Some(viewer), a).ownVote
  {
  }

  /** The store with a favorite (user, question) pair added or dropped. */
  function Favorited(db: Tables, user: string, q: nat, on: bool): Tables
  {
    db.(favorites := if on then db.favorites + {(user, q)} else db.favorites - {(user, q)})
  }

  lemma FavoritedWellFormed(db: Tables, user: string, q: nat, on: bool)
    requires WellFormed(db) && q in db.questions
    ensures WellFormed(Favorited(db, user, q, on))
  {
  }

  /** The store with attachment `a` filed under its uuid, the internal id
      counter moved past it. */
  function AttachmentPosted(db: Tables, a: Attachment): Tables
  {
    db.(attachments := db.attachments[a.uuid := a], nextAttachmentId := db.nextAttachmentId + 1)
  }

  lemma AttachmentPostedWellFormed(db: Tables, a: Attachment)
    requires WellFormed(db) && a.id == db.nextAttachmentId
    ensures WellFormed(AttachmentPosted(db, a))
  {
  }

  // ---------------------------------------------------------------------
  // Commenting

  /** A new comment on `t` shows among the comments of `t` and changes no other. */
  lemma CommentsOnAdd(comments: map<nat, CommentRow>, c: nat, row: CommentRow, t: Target, viewer: Option<string>)
    requires c !in comments && row.target == t
    ensures CommentsOn(comments[c := row], t, viewer) == CommentsOn(comments, t, viewer)[c := CommentView(row, viewer)]
  {
  }

  /** A deleted comment of `t` is gone from the comments of `t`, and no other. */
  lemma CommentsOnRemove(comments: map<nat, CommentRow>, c: nat, t: Target, viewer: Option<string>)
    requires c in comments && comments[c].target == t
    ensures CommentsOn(comments - {c}, t, viewer) == CommentsOn(comments, t, viewer) - {c}
  {
  }

  /** Two stores that agree on all a question is built from but comments
      show it alike but for its comments. */
  lemma QuestionViewOtherComments(db: Tables, db': Tables, user: string, q: nat)
    requires q in db.questions && q in db'.questions && db'.questions[q] == db.questions[q]
    requires VotesOn(db'.questionVotes, q) == VotesOn(db.questionVotes, q)
    requires ((user, q) in db'.favorites) == ((user, q) in db.favorites)
    requires db'.answers == db.answers
    ensures QuestionView(db', user, q)
      == QuestionView(db, user, q).(comments := CommentsOn(db'.comments, OnQuestion(q), Some(user)))
  {
  }

  /** Two stores that agree on all an answer is built from but comments
      show it alike but for its comments. */
  lemma AnswerViewOtherComments(db: Tables, db': Tables, viewer: Option<string>, a: nat)
    requires a in db.answers && a in db'.answers && db'.answers[a] == db.answers[a]
    requires VotesOn(db'.answerVotes, a) == VotesOn(db.answerVotes, a)
    ensures AnswerView(db', viewer, a)
      == AnswerView(db, viewer, a).(comments := CommentsOn(db'.comments, OnAnswer(a), viewer))
  {
  }

  // ---------------------------------------------------------------------
  // Cascading deletes

  /** The store without answer `id`, its votes and its comments. */
  function AnswerRemoved(db: Tables, id: nat): Tables
  {
    db.(
      answers := db.answers - {id},
      answerVotes := db.answerVotes - {id},
      comments := map c | c in db.comments && db.comments[c].target != OnAnswer(id) :: db.comments[c])
  }

  /** Does a comment on `t` go when question `id`, whose answers are `gone`, is deleted? */
  predicate Orphaned(t: Target, id: nat, gone: set<nat>)
  {
    match t
    case OnQuestion(q) => q == id
    case OnAnswer(a) => a in gone
  }

  /** The store without question `id`, its answers, the comments and votes on
      either, and the favorites of it. */
  function QuestionRemoved(db: Tables, id: nat): Tables
  {
    var gone := AnswersOf(db.answers, id);
    db.(
      questions := db.questions - {id},
      answers := db.answers - gone,
      comments := map c | c in db.comments && !Orphaned(db.comments[c].target, id, gone) :: db.comments[c],
      questionVotes := db.questionVotes - {id},
      answerVotes := db.answerVotes - gone,
      favorites := set p | p in db.favorites && p.1 != id)
  }

  /** Deleting an answer leaves no orphaned row behind. */
  lemma AnswerRemovedWellFormed(db: Tables, id: nat)
    requires WellFormed(db)
    ensures WellFormed(AnswerRemoved(db, id))
  {
  }

  /** Deleting a question leaves no orphaned row behind. */
  lemma QuestionRemovedWellFormed(db: Tables, id: nat)
    requires WellFormed(db)
    ensures WellFormed(QuestionRemoved(db, id))
  {
  }

  /** Two stores that agree on a question's row, its votes, whether the
      reader favors it and its comments show it alike, except for what its
      answers determine. */
  lemma SameQuestionView(db: Tables, db': Tables, user: string, q: nat)
    requires q in db.questions && q in db'.questions && db'.questions[q] == db.questions[q]
    requires VotesOn(db'.questionVotes, q) == VotesOn(db.questionVotes, q)
    requires ((user, q) in db'.favorites) == ((user, q) in db.favorites)
    requires CommentsOn(db'.comments, OnQuestion(q), Some(user)) == CommentsOn(db.comments, OnQuestion(q), Some(user))
    ensures QuestionView(db', user, q) == QuestionView(db, user, q).(
      answersCount := |AnswersOf(db'.answers, q)|, correctAnswer := HasCorrectAnswer(db'.answers, q))
  {
  }

  /** Dropping comments not attached to `t` leaves the comments on `t` as
      they were. */
  lemma CommentsOnKept(comments: map<nat, CommentRow>, kept: map<nat, CommentRow>, t: Target, viewer: Option<string>)
    requires forall c :: c in kept ==> c in comments && kept[c] == comments[c]
    requires forall c :: c in comments && comments[c].target == t ==> c in kept
    ensures CommentsOn(kept, t, viewer) == CommentsOn(comments, t, viewer)
  {
  }

  /** Dropping answers of other questions leaves the answers of `q`, and
      whether one of them is correct, as they were. */
  lemma AnswersKept(answers: map<nat, AnswerRow>, gone: set<nat>, q: nat)
    requires forall a :: a in gone && a in answers ==> answers[a].questionId != q
    ensures AnswersOf(answers - gone, q) == AnswersOf(answers, q)
    ensures HasCorrectAnswer(answers - gone, q) == HasCorrectAnswer(answers, q)
  {
    if HasCorrectAnswer(answers, q) {
      var a :| a in answers && answers[a].questionId == q && answers[a].correct;
      assert a in answers - gone;
    }
  }

  /** Two stores that agree on an answer's row, its votes and its comments
      show it alike. */
  lemma SameAnswerView(db: Tables, db': Tables, viewer: Option<string>, a: nat)
    requires a in db.answers && a in db'.answers && db'.answers[a] == db.answers[a]
    requires VotesOn(db'.answerVotes, a) == VotesOn(db.answerVotes, a)
    requires CommentsOn(db'.comments, OnAnswer(a), viewer) == CommentsOn(db.comments, OnAnswer(a), viewer)
    ensures AnswerView(db', viewer, a) == AnswerView(db, viewer, a)
  {
  }

  /** Deleting a question changes nothing anyone sees of any other question. */
  lemma QuestionRemovedKeepsOthers(db: Tables, id: nat, user: string, q: nat)
    requires WellFormed(db) && q in db.questions && q != id
    ensures q in QuestionRemoved(db, id).questions
    ensures QuestionView(QuestionRemoved(db, id), user, q) == QuestionView(db, user, q)
  {
    var r := QuestionRemoved(db, id);
    var gone := AnswersOf(db.answers, id);
    assert (user, q) in r.favorites <==> (user, q) in db.favorites;
    CommentsOnKept(db.comments, r.comments, OnQuestion(q), Some(user));
    SameQuestionView(db, r, user, q);
    AnswersKept(db.answers, gone, q);
  }

  /** Deleting a question leaves every answer to another question as it was. */
  lemma QuestionRemovedKeepsOtherAnswers(db: Tables, id: nat, viewer: Option<string>, a: nat)
    requires WellFormed(db) && a in db.answers && db.answers[a].questionId != id
    ensures a in QuestionRemoved(db, id).answers
    ensures AnswerView(QuestionRemoved(db, id), viewer, a) == AnswerView(db, viewer, a)
  {
    var r := QuestionRemoved(db, id);
    assert a !in AnswersOf(db.answers, id);
    CommentsOnKept(db.comments, r.comments, OnAnswer(a), viewer);
    SameAnswerView(db, r, viewer, a);
  }

  /** Deleting an answer lowers its question's answer count by one and changes
      nothing else anyone sees of a question but whether it has a correct answer. */
  lemma AnswerRemovedEffect(db: Tables, id: nat, user: string, q: nat)
    requires WellFormed(db) && id in db.answers && q in db.questions
    ensures q in AnswerRemoved(db, id).questions
    ensures QuestionView(AnswerRemoved(db, id), user, q).answersCount
      == QuestionView(db, user, q).answersCount - (if db.answers[id].questionId == q then 1 else 0)
    ensures QuestionView(AnswerRemoved(db, id), user, q)
      == QuestionView(db, user, q).(
           answersCount := QuestionView(AnswerRemoved(db, id), user, q).answersCount,
           correctAnswer := QuestionView(AnswerRemoved(db, id), user, q).correctAnswer)
    ensures db.answers[id].questionId != q ==> QuestionView(AnswerRemoved(db, id), user, q) == QuestionView(db, user, q)
  {
    var r := AnswerRemoved(db, id);
    CommentsOnKept(db.comments, r.comments, OnQuestion(q), Some(user));
    SameQuestionView(db, r, user, q);
    if db.answers[id].questionId == q {
      assert id in AnswersOf(db.answers, q);
      assert AnswersOf(r.answers, q) == AnswersOf(db.answers, q) - {id};
    } else {
      AnswersKept(db.answers, {id}, q);
    }
  }

  /** Deleting an answer leaves every other answer as it was. */
  lemma AnswerRemovedKeepsOthers(db: Tables, id: nat, viewer: Option<string>, a: nat)
    requires WellFormed(db) && a in db.answers && a != id
    ensures a in AnswerRemoved(db, id).answers
    ensures AnswerView(AnswerRemoved(db, id), viewer, a) == AnswerView(db, viewer, a)
  {
    var r := AnswerRemoved(db, id);
    CommentsOnKept(db.comments, r.comments, OnAnswer(a), viewer);
    SameAnswerView(db, r, viewer, a);
  }

  /** A new answer with a fresh id adds one to its question's answer count only. */
  lemma AnswerAddedCount(answers: map<nat, AnswerRow>, a: nat, row: AnswerRow, q: nat)
    requires a !in answers
    ensures |AnswersOf(answers[a := row], q)| == |AnswersOf(answers, q)| + (if row.questionId == q then 1 else 0)
  {
    if row.questionId == q {
      assert AnswersOf(answers[a := row], q) == AnswersOf(answers, q) + {a};
    } else {
      assert AnswersOf(answers[a := row], q) == AnswersOf(answers, q);
    }
  }
}
