/** The Q&A store: a sequential, in-memory store whose operations are those of
    the `QetaStore` interface. "Not found" and "not allowed" are both reported
    as `None` or `false`, and leave the store as it was. */
module Store {
  import opened Wrappers
  import opened Records
  import opened Votes
  import opened Db
  import opened Listing

  class QetaStore {
    var questions: map<nat, QuestionRow>
    var answers: map<nat, AnswerRow>
    var comments: map<nat, CommentRow>
    var questionVotes: map<nat, map<string, Vote>>
    var answerVotes: map<nat, map<string, Vote>>
    var favorites: set<(string, nat)>
    var attachments: map<string, Attachment>
    var nextQuestionId: nat
    var nextAnswerId: nat
    var nextCommentId: nat
    var nextAttachmentId: nat

    /** All tables as one value. */
    function State(): Tables
      reads this
    {
      Tables(questions, answers, comments, questionVotes, answerVotes, favorites, attachments,
             nextQuestionId, nextAnswerId, nextCommentId, nextAttachmentId)
    }

    ghost predicate Valid()
      reads this
    {
      WellFormed(State())
    }

    constructor ()
      ensures Valid() && State() == Empty()
    {
      questions, answers, comments := map[], map[], map[];
      questionVotes, answerVotes := map[], map[];
      favorites, attachments := {}, map[];
      nextQuestionId, nextAnswerId, nextCommentId, nextAttachmentId := 0, 0, 0, 0;
    }

    /** Builds the view of a stored question, adding up its votes. */
    method ReadQuestion(user: string, id: nat) returns (q: Question)
      requires id in questions
      ensures q == QuestionView(State(), user, id)
    {
      var score := TotalScore(VotesOn(questionVotes, id));
      q := QuestionWithScore(State(), user, id, score);
    }

    /** Builds the view of a stored answer, adding up its votes. */
    method ReadAnswer(viewer: Option<string>, id: nat) returns (a: Answer)
      requires id in answers
      ensures a == AnswerView(State(), viewer, id)
    {
      var score := TotalScore(VotesOn(answerVotes, id));
      a := AnswerWithScore(State(), viewer, id, score);
    }

    // -------------------------------------------------------------------
    // Questions

    /** Fetches a question; afterwards its view count is one higher unless
        `recordView` is given as false (an omitted `recordView` is `None`).
        The question returned is the one fetched, before the increment. */
    method GetQuestion(user: string, id: nat, recordView: Option<bool>) returns (r: Option<Question>)
      requires Valid()
      modifies this
      ensures Valid()
      ensures id !in old(questions) ==> r == None && unchanged(this)
      ensures id in old(questions) ==> r == Some(old(QuestionView(State(), user, id)))
      ensures id in old(questions) ==> r.value.views == old(questions)[id].views
      ensures id in old(questions) ==>
        id in questions && questions[id].views == old(questions)[id].views + (if recordView == Some(false) then 0 else 1)
      ensures id in old(questions) ==>
        State() == old(State()).(questions := old(questions)[id := old(questions)[id].(views := questions[id].views)])
    {
      if id !in questions {
        return None;
      }
      var q := ReadQuestion(user, id);
      r := Some(q);
      if recordView != Some(false) {
        ghost var before := State();
        var row := questions[id];
        QuestionChangedWellFormed(before, id, row.(views := row.views + 1));
        questions := questions[id := row.(views := row.views + 1)];
        assert State() == QuestionChanged(before, id, row.(views := row.views + 1));
      }
    }

    /** Fetches the question an answer belongs to, as `GetQuestion` does. */
    method GetQuestionByAnswerId(user: string, answerId: nat, recordView: Option<bool>) returns (r: Option<Question>)
      requires Valid()
      modifies this
      ensures Valid()
      ensures answerId !in old(answers) ==> r == None && unchanged(this)
      ensures answerId in old(answers) ==>
        var id := old(answers)[answerId].questionId;
        && id in old(questions)
        && r == Some(old(QuestionView(State(), user, id)))
        && id in questions && questions[id].views == old(questions)[id].views + (if recordView == Some(false) then 0 else 1)
        && State() == old(State()).(questions := old(questions)[id := old(questions)[id].(views := questions[id].views)])
    {
      if answerId !in answers {
        return None;
      }
      r := GetQuestion(user, answers[answerId].questionId, recordView);
    }

    /** Every stored question as `user` sees it, by increasing id. */
    method ReadAll(user: string) returns (all: seq<Question>)
      requires Valid()
      ensures all == InIdOrder(Views(State(), user), QuestionId, nextQuestionId)
    {
      all := [];
      var id := 0;
      while id < nextQuestionId
        invariant id <= nextQuestionId
        invariant all == ViewsBelow(State(), user, id)
      {
        if id in questions {
          var q := ReadQuestion(user, id);
          all := all + [q];
        }
        id := id + 1;
      }
      ViewsBelowInIdOrder(State(), user, nextQuestionId);
    }

    /** Lists the questions `user` sees that pass the filters of `options`:
        one page of them, ordered as asked (by id when no order is asked for),
        and the number of all matching questions. */
    method GetQuestions(user: string, options: QuestionsOptions) returns (r: Questions)
      requires Valid()
      ensures r == ListQuestions(InIdOrder(Views(State(), user), QuestionId, nextQuestionId), options)
      ensures r.total == |Matching(Views(State(), user), options)|
      ensures options.limit.Some? ==> |r.questions| <= options.limit.value
      ensures forall q :: q in r.questions ==>
        q.id in questions && q == QuestionView(State(), user, q.id) && Matches(q, options)
      ensures options.orderBy.Some? ==> SortedBy(r.questions, options.orderBy.value, options.order.GetOr(Desc))
      ensures options.orderBy.None? ==>
        forall i, j :: 0 <= i < j < |r.questions| ==> r.questions[i].id < r.questions[j].id
      ensures forall i, j :: 0 <= i < j < |r.questions| ==> r.questions[i].id != r.questions[j].id
      ensures options.offset.GetOr(0) == 0 && (options.limit.None? || r.total <= options.limit.value) ==>
        forall id :: id in questions && Matches(QuestionView(State(), user, id), options) ==>
          QuestionView(State(), user, id) in r.questions
    {
      ghost var m := Views(State(), user);
      var all := ReadAll(user);
      r := ListQuestions(all, options);
      ListingOfStore(m, nextQuestionId, options);
      forall id | id in questions && Matches(QuestionView(State(), user, id), options)
        ensures id in Matching(m, options) && m[id] == QuestionView(State(), user, id)
      {
      }
    }

    /** Posts a new question under a fresh id, with no votes, views, answers,
        comments or favorites. */
    method PostQuestion(user: string, title: string, content: string, tags: seq<string>,
                        components: seq<string>, images: seq<nat>, now: nat) returns (q: Question)
      requires Valid()
      modifies this
      ensures Valid()
      ensures q.id == old(nextQuestionId) && q.id !in old(questions)
      ensures State() == old(State()).(
        questions := old(questions)[q.id := QuestionRow(user, title, content, now, None, None, 0,
                                                         Elements(tags), Elements(components),
                                                         Elements(images))],
        nextQuestionId := q.id + 1)
      ensures q == QuestionView(State(), user, q.id)
      ensures q.author == user && q.own && q.title == title && q.content == content && q.created == now
      ensures q.tags == Elements(tags) && q.entities == Elements(components)
      ensures q.score == 0 && q.views == 0 && q.answersCount == 0 && !q.correctAnswer
      ensures !q.favorite && q.ownVote == None && q.votes == {} && q.comments == map[]
    {
      ghost var before := State();
      var id := nextQuestionId;
      var row := QuestionRow(user, title, content, now, None, None, 0,
                             Elements(tags), Elements(components), Elements(images));
      QuestionPostedWellFormed(before, row);
      PostedQuestionView(before, row);
      questions := questions[id := row];
      nextQuestionId := id + 1;
      assert State() == QuestionPosted(before, row);
      q := ReadQuestion(user, id);
    }

    /** Adds a comment by `user` to a question and returns the refreshed question. */
    method CommentQuestion(questionId: nat, user: string, content: string, now: nat) returns (r: Option<Question>)
      requires Valid()
      modifies this
      ensures Valid()
      ensures questionId !in old(questions) ==> r == None && unchanged(this)
      ensures questionId in old(questions) ==>
        var c := old(nextCommentId);
        && c !in old(comments)
        && State() == old(State()).(
             comments := old(comments)[c := CommentRow(OnQuestion(questionId), user, content, now, None, None)],
             nextCommentId := c + 1)
        && r == Some(QuestionView(State(), user, questionId))
        && r.value == old(QuestionView(State(), user, questionId)).(comments := r.value.comments)
        && r.value.comments == old(QuestionView(State(), user, questionId)).comments[c := Comment(user, content, now, true, None, None)]
    {
      if questionId !in questions {
        return None;
      }
      ghost var before := State();
      var c := nextCommentId;
      var row := CommentRow(OnQuestion(questionId), user, content, now, None, None);
      CommentAddedWellFormed(before, row);
      comments := comments[c := row];
      nextCommentId := c + 1;
      assert State() == CommentAdded(before, row);
      CommentsOnAdd(before.comments, c, row, OnQuestion(questionId), Some(user));
      QuestionViewOtherComments(before, State(), user, questionId);
      var q := ReadQuestion(user, questionId);
      r := Some(q);
    }

    /** Deletes comment `id` of a question; only the comment's author may. */
    method DeleteQuestionComment(questionId: nat, id: nat, user: string) returns (r: Option<Question>)
      requires Valid()
      modifies this
      ensures Valid()
      ensures !MayDeleteComment(old(State()), OnQuestion(questionId), id, user) ==> r == None && unchanged(this)
      ensures MayDeleteComment(old(State()), OnQuestion(questionId), id, user) ==>
        && State() == old(State()).(comments := old(comments) - {id})
        && r == Some(QuestionView(State(), user, questionId))
        && r.value == old(QuestionView(State(), user, questionId)).(comments := r.value.comments)
        && r.value.comments == old(QuestionView(State(), user, questionId)).comments - {id}
    {
      if !MayDeleteComment(State(), OnQuestion(questionId), id, user) {
        return None;
      }
      ghost var before := State();
      CommentRemovedWellFormed(before, id);
      comments := comments - {id};
      assert State() == CommentRemoved(before, id);
      CommentsOnRemove(before.comments, id, OnQuestion(questionId), Some(user));
      QuestionViewOtherComments(before, State(), user, questionId);
      var q := ReadQuestion(user, questionId);
      r := Some(q);
    }

    /** Replaces a question's title, content, tags, components and images;
        only its author may. */
    method UpdateQuestion(id: nat, user: string, title: string, content: string, tags: seq<string>,
                          components: seq<string>, images: seq<nat>, now: nat) returns (r: Option<Question>)
      requires Valid()
      modifies this
      ensures Valid()
      ensures !AuthorsQuestion(old(State()), user, id) ==> r == None && unchanged(this)
      ensures AuthorsQuestion(old(State()), user, id) ==>
        && State() == old(State()).(questions := old(questions)[id := old(questions)[id].(
             title := title, content := content, tags := Elements(tags),
             entities := Elements(components), images := Elements(images),
             updated := Some(now), updatedBy := Some(user))])
        && r == Some(QuestionView(State(), user, id))
        && r.value == old(QuestionView(State(), user, id)).(
             title := title, content := content, tags := Elements(tags),
             entities := Elements(components), updated := Some(now), updatedBy := Some(user))
    {
      if !AuthorsQuestion(State(), user, id) {
        return None;
      }
      ghost var before := State();
      var row := questions[id].(
        title := title, content := content, tags := Elements(tags),
        entities := Elements(components), images := Elements(images),
        updated := Some(now), updatedBy := Some(user));
      QuestionChangedWellFormed(before, id, row);
      questions := questions[id := row];
      assert State() == QuestionChanged(before, id, row);
      var q := ReadQuestion(user, id);
      r := Some(q);
    }

    /** Deletes a question with its answers, their comments and votes, and the
        favorites of it; only its author may. No other question changes. */
    method DeleteQuestion(user: string, id: nat) returns (ok: bool)
      requires Valid()
      modifies this
      ensures Valid()
      ensures ok == AuthorsQuestion(old(State()), user, id)
      ensures !ok ==> unchanged(this)
      ensures ok ==> State() == QuestionRemoved(old(State()), id)
      ensures ok ==> id !in questions && AnswersOf(answers, id) == {}
      ensures ok ==> forall v, q :: q in old(questions) && q != id ==>
        q in questions && QuestionView(State(), v, q) == old(QuestionView(State(), v, q))
    {
      ok := AuthorsQuestion(State(), user, id);
      if !ok {
        return;
      }
      ghost var before := State();
      var after := QuestionRemoved(State(), id);
      QuestionRemovedWellFormed(before, id);
      forall v, q | q in before.questions && q != id
        ensures q in after.questions && QuestionView(after, v, q) == QuestionView(before, v, q)
      {
        QuestionRemovedKeepsOthers(before, id, v, q);
      }
      questions, answers, comments := after.questions, after.answers, after.comments;
      questionVotes, answerVotes, favorites := after.questionVotes, after.answerVotes, after.favorites;
      assert State() == after;
    }

    // -------------------------------------------------------------------
    // Answers

    /** Answers an existing question under a fresh answer id; the question's
        answer count grows by one. */
    method AnswerQuestion(user: string, questionId: nat, answer: string, images: seq<nat>, now: nat)
      returns (r: Option<Answer>)
      requires Valid()
      modifies this
      ensures Valid()
      ensures questionId !in old(questions) ==> r == None && unchanged(this)
      ensures questionId in old(questions) ==>
        var a := old(nextAnswerId);
        && a !in old(answers)
        && State() == old(State()).(
             answers := old(answers)[a := AnswerRow(questionId, user, answer, false, now, None, None, Elements(images))],
             nextAnswerId := a + 1)
        && r == Some(AnswerView(State(), Some(user), a))
        && r.value.id == a && r.value.questionId == questionId && r.value.author == user
        && r.value.content == answer && r.value.created == now && !r.value.correct && r.value.own
        && r.value.score == 0 && r.value.ownVote == None && r.value.votes == {} && r.value.comments == map[]
        && forall v :: QuestionView(State(), v, questionId).answersCount
                         == old(QuestionView(State(), v, questionId)).answersCount + 1
    {
      if questionId !in questions {
        return None;
      }
      ghost var before := State();
      var a := nextAnswerId;
      var row := AnswerRow(questionId, user, answer, false, now, None, None, Elements(images));
      AnswerPostedWellFormed(before, row);
      assert a !in answerVotes;
      assert CommentsOn(comments, OnAnswer(a), Some(user)) == map[];
      answers := answers[a := row];
      nextAnswerId := a + 1;
      assert State() == AnswerPosted(before, row);
      AnswerAddedCount(before.answers, a, row, questionId);
      var view := ReadAnswer(Some(user), a);
      r := Some(view);
    }

    /** Adds a comment by `user` to an answer and returns the refreshed answer. */
    method CommentAnswer(answerId: nat, user: string, content: string, now: nat) returns (r: Option<Answer>)
      requires Valid()
      modifies this
      ensures Valid()
      ensures answerId !in old(answers) ==> r == None && unchanged(this)
      ensures answerId in old(answers) ==>
        var c := old(nextCommentId);
        && c !in old(comments)
        && State() == old(State()).(
             comments := old(comments)[c := CommentRow(OnAnswer(answerId), user, content, now, None, None)],
             nextCommentId := c + 1)
        && r == Some(AnswerView(State(), Some(user), answerId))
        && r.value == old(AnswerView(State(), Some(user), answerId)).(comments := r.value.comments)
        && r.value.comments == old(AnswerView(State(), Some(user), answerId)).comments[c := Comment(user, content, now, true, None, None)]
    {
      if answerId !in answers {
        return None;
      }
      ghost var before := State();
      var c := nextCommentId;
      var row := CommentRow(OnAnswer(answerId), user, content, now, None, None);
      CommentAddedWellFormed(before, row);
      comments := comments[c := row];
      nextCommentId := c + 1;
      assert State() == CommentAdded(before, row);
      CommentsOnAdd(before.comments, c, row, OnAnswer(answerId), Some(user));
      AnswerViewOtherComments(before, State(), Some(user), answerId);
      var a := ReadAnswer(Some(user), answerId);
      r := Some(a);
    }

    /** Deletes comment `id` of an answer; only the comment's author may. */
    method DeleteAnswerComment(answerId: nat, id: nat, user: string) returns (r: Option<Answer>)
      requires Valid()
      modifies this
      ensures Valid()
      ensures !MayDeleteComment(old(State()), OnAnswer(answerId), id, user) ==> r == None && unchanged(this)
      ensures MayDeleteComment(old(State()), OnAnswer(answerId), id, user) ==>
        && State() == old(State()).(comments := old(comments) - {id})
        && r == Some(AnswerView(State(), Some(user), answerId))
        && r.value == old(AnswerView(State(), Some(user), answerId)).(comments := r.value.comments)
        && r.value.comments == old(AnswerView(State(), Some(user), answerId)).comments - {id}
    {
      if !MayDeleteComment(State(), OnAnswer(answerId), id, user) {
        return None;
      }
      ghost var before := State();
      CommentRemovedWellFormed(before, id);
      comments := comments - {id};
      assert State() == CommentRemoved(before, id);
      CommentsOnRemove(before.comments, id, OnAnswer(answerId), Some(user));
      AnswerViewOtherComments(before, State(), Some(user), answerId);
      var a := ReadAnswer(Some(user), answerId);
      r := Some(a);
    }

    /** Replaces an answer's content and images; only its author may, and only
        under the question it belongs to. */
    method UpdateAnswer(user: string, questionId: nat, answerId: nat, answer: string, images: seq<nat>, now: nat)
      returns (r: Option<Answer>)
      requires Valid()
      modifies this
      ensures Valid()
      ensures !(AuthorsAnswer(old(State()), user, answerId) && old(answers)[answerId].questionId == questionId) ==>
        r == None && unchanged(this)
      ensures AuthorsAnswer(old(State()), user, answerId) && old(answers)[answerId].questionId == questionId ==>
        && State() == old(State()).(answers := old(answers)[answerId := old(answers)[answerId].(
             content := answer, images := Elements(images), updated := Some(now), updatedBy := Some(user))])
        && r == Some(AnswerView(State(), Some(user), answerId))
        && r.value == old(AnswerView(State(), Some(user), answerId)).(
             content := answer, updated := Some(now), updatedBy := Some(user))
    {
      if !(AuthorsAnswer(State(), user, answerId) && answers[answerId].questionId == questionId) {
        return None;
      }
      ghost var before := State();
      var row := answers[answerId].(
        content := answer, images := Elements(images), updated := Some(now), updatedBy := Some(user));
      AnswerChangedWellFormed(before, answerId, row);
      answers := answers[answerId := row];
      assert State() == AnswerChanged(before, answerId, row);
      var a := ReadAnswer(Some(user), answerId);
      r := Some(a);
    }

    /** Fetches an answer; no reader is known, so `own` is false and `ownVote`
        is absent. */
    method GetAnswer(answerId: nat) returns (r: Option<Answer>)
      ensures answerId !in answers ==> r == None
      ensures answerId in answers ==> r == Some(AnswerView(State(), None, answerId))
    {
      if answerId !in answers {
        return None;
      }
      var a := ReadAnswer(None, answerId);
      r := Some(a);
    }

    /** Deletes an answer with its comments and votes; only its author may.
        Its question's answer count drops by one; no other answer changes. */
    method DeleteAnswer(user: string, id: nat) returns (ok: bool)
      requires Valid()
      modifies this
      ensures Valid()
      ensures ok == AuthorsAnswer(old(State()), user, id)
      ensures !ok ==> unchanged(this)
      ensures ok ==> State() == AnswerRemoved(old(State()), id) && id !in answers
      ensures ok ==> forall v :: QuestionView(State(), v, old(answers)[id].questionId).answersCount
                              == old(QuestionView(State(), v, answers[id].questionId)).answersCount - 1
      ensures ok ==> forall v, a :: a in old(answers) && a != id ==>
        a in answers && AnswerView(State(), v, a) == old(AnswerView(State(), v, a))
    {
      ok := AuthorsAnswer(State(), user, id);
      if !ok {
        return;
      }
      ghost var before := State();
      comments := map c | c in comments && comments[c].target != OnAnswer(id) :: comments[c];
      answers := answers - {id};
      answerVotes := answerVotes - {id};
      assert State() == AnswerRemoved(before, id);
      AnswerRemovedWellFormed(before, id);
      forall v | true
        ensures QuestionView(State(), v, before.answers[id].questionId).answersCount
             == QuestionView(before, v, before.answers[id].questionId).answersCount - 1
      {
        AnswerRemovedEffect(before, id, v, before.answers[id].questionId);
      }
      forall v, a | a in before.answers && a != id
        ensures a in answers && AnswerView(State(), v, a) == AnswerView(before, v, a)
      {
        AnswerRemovedKeepsOthers(before, id, v, a);
      }
    }

    // -------------------------------------------------------------------
    // Votes

    /** Records `user`'s vote on a question, replacing an earlier vote of
        theirs. The question's score moves from counting the old vote (if any)
        to counting `score`; nobody else's vote changes. */
    method VoteQuestion(user: string, questionId: nat, score: int, now: nat) returns (ok: bool)
      requires Valid()
      modifies this
      ensures Valid()
      ensures ok == (questionId in old(questions))
      ensures !ok ==> unchanged(this)
      ensures ok ==> State() == QuestionVoted(old(State()), questionId, Vote(user, score, now))
      ensures ok ==> QuestionView(State(), user, questionId).ownVote == Some(score)
      ensures ok ==> QuestionView(State(), user, questionId).score
                       == old(QuestionView(State(), user, questionId)).score
                          - old(QuestionView(State(), user, questionId)).ownVote.GetOr(0) + score
      ensures ok ==> forall v :: v != user ==>
        QuestionView(State(), v, questionId).ownVote == old(QuestionView(State(), v, questionId)).ownVote
    {
      ok := questionId in questions;
      if !ok {
        return;
      }
      ghost var before := State();
      var votes := VotesOn(questionVotes, questionId);
      QuestionVotedWellFormed(before, questionId, Vote(user, score, now));
      QuestionVotedView(before, questionId, Vote(user, score, now));
      forall v | v != user
        ensures QuestionView(QuestionVoted(before, questionId, Vote(user, score, now)), v, questionId).ownVote
             == QuestionView(before, v, questionId).ownVote
      {
        QuestionVotedOthers(before, questionId, Vote(user, score, now), v);
      }
      questionVotes := questionVotes[questionId := votes[user := Vote(user, score, now)]];
      assert State() == QuestionVoted(before, questionId, Vote(user, score, now));
    }

    /** Records `user`'s vote on an answer, replacing an earlier vote of theirs. */
    method VoteAnswer(user: string, answerId: nat, score: int, now: nat) returns (ok: bool)
      requires Valid()
      modifies this
      ensures Valid()
      ensures ok == (answerId in old(answers))
      ensures !ok ==> unchanged(this)
      ensures ok ==> State() == AnswerVoted(old(State()), answerId, Vote(user, score, now))
      ensures ok ==> AnswerView(State(), Some(user), answerId).ownVote == Some(score)
      ensures ok ==> AnswerView(State(), Some(user), answerId).score
                       == old(AnswerView(State(), Some(user), answerId)).score
                          - old(AnswerView(State(), Some(user), answerId)).ownVote.GetOr(0) + score
      ensures ok ==> forall v :: v != user ==>
        AnswerView(State(), Some(v), answerId).ownVote == old(AnswerView(State(), Some(v), answerId)).ownVote
    {
      ok := answerId in answers;
      if !ok {
        return;
      }
      ghost var before := State();
      var votes := VotesOn(answerVotes, answerId);
      AnswerVotedWellFormed(before, answerId, Vote(user, score, now));
      AnswerVotedView(before, answerId, Vote(user, score, now));
      forall v | v != user
        ensures AnswerView(AnswerVoted(before, answerId, Vote(user, score, now)), Some(v), answerId).ownVote
             == AnswerView(before, Some(v), answerId).ownVote
      {
        AnswerVotedOthers(before, answerId, Vote(user, score, now), v);
      }
      answerVotes := answerVotes[answerId := votes[user := Vote(user, score, now)]];
      assert State() == AnswerVoted(before, answerId, Vote(user, score, now));
    }

    // -------------------------------------------------------------------
    // Correct answers

    /** Marks an answer correct; only the author of its question may. Other
        answers keep their marks. */
    method MarkAnswerCorrect(user: string, questionId: nat, answerId: nat) returns (ok: bool)
      requires Valid()
      modifies this
      ensures Valid()
      ensures ok == MayMark(old(State()), user, questionId, answerId)
      ensures !ok ==> unchanged(this)
      ensures ok ==> State() == old(State()).(answers := old(answers)[answerId := old(answers)[answerId].(correct := true)])
      ensures ok ==> forall q :: AnswersOf(answers, q) == AnswersOf(old(answers), q)
      ensures ok ==> forall v :: AnswerView(State(), v, answerId).correct
      ensures ok ==> forall v :: QuestionView(State(), v, questionId).correctAnswer
    {
      ok := MayMark(State(), user, questionId, answerId);
      if !ok {
        return;
      }
      ghost var before := State();
      AnswerChangedWellFormed(before, answerId, answers[answerId].(correct := true));
      answers := answers[answerId := answers[answerId].(correct := true)];
      assert State() == AnswerChanged(before, answerId, before.answers[answerId].(correct := true));
      assert answerId in answers && answers[answerId].questionId == questionId && answers[answerId].correct;
    }

    /** Clears an answer's correct mark; only the author of its question may.
        The question then has a correct answer exactly when another of its
        answers is marked correct. */
    method MarkAnswerIncorrect(user: string, questionId: nat, answerId: nat) returns (ok: bool)
      requires Valid()
      modifies this
      ensures Valid()
      ensures ok == MayMark(old(State()), user, questionId, answerId)
      ensures !ok ==> unchanged(this)
      ensures ok ==> State() == old(State()).(answers := old(answers)[answerId := old(answers)[answerId].(correct := false)])
      ensures ok ==> forall q :: AnswersOf(answers, q) == AnswersOf(old(answers), q)
      ensures ok ==> forall v :: !AnswerView(State(), v, answerId).correct
      ensures ok ==> forall v :: QuestionView(State(), v, questionId).correctAnswer <==>
        exists a :: a in old(answers) && a != answerId && old(answers)[a].questionId == questionId && old(answers)[a].correct
    {
      ok := MayMark(State(), user, questionId, answerId);
      if !ok {
        return;
      }
      ghost var before := State();
      AnswerChangedWellFormed(before, answerId, answers[answerId].(correct := false));
      answers := answers[answerId := answers[answerId].(correct := false)];
      assert State() == AnswerChanged(before, answerId, before.answers[answerId].(correct := false));
      assert forall a :: a in answers && a != answerId ==> a in before.answers && answers[a] == before.answers[a];
    }

    // -------------------------------------------------------------------
    // Favorites

    /** Marks a question favorite for `user`; already being one is not an error. */
    method FavoriteQuestion(user: string, questionId: nat) returns (ok: bool)
      requires Valid()
      modifies this
      ensures Valid()
      ensures ok == (questionId in old(questions))
      ensures !ok ==> unchanged(this)
      ensures ok ==> State() == old(State()).(favorites := old(favorites) + {(user, questionId)})
      ensures ok ==> QuestionView(State(), user, questionId).favorite
      ensures ok ==> forall v, q :: (v, q) != (user, questionId) && q in questions ==>
        QuestionView(State(), v, q).favorite == old(QuestionView(State(), v, q)).favorite
    {
      ok := questionId in questions;
      if ok {
        ghost var before := State();
        FavoritedWellFormed(before, user, questionId, true);
        favorites := favorites + {(user, questionId)};
        assert State() == Favorited(before, user, questionId, true);
      }
    }

    /** Removes `user`'s favorite mark from a question; not having one is not an error. */
    method UnfavoriteQuestion(user: string, questionId: nat) returns (ok: bool)
      requires Valid()
      modifies this
      ensures Valid()
      ensures ok == (questionId in old(questions))
      ensures !ok ==> unchanged(this)
      ensures ok ==> State() == old(State()).(favorites := old(favorites) - {(user, questionId)})
      ensures ok ==> !QuestionView(State(), user, questionId).favorite
      ensures ok ==> forall v, q :: (v, q) != (user, questionId) && q in questions ==>
        QuestionView(State(), v, q).favorite == old(QuestionView(State(), v, q)).favorite
    {
      ok := questionId in questions;
      if ok {
        ghost var before := State();
        FavoritedWellFormed(before, user, questionId, false);
        favorites := favorites - {(user, questionId)};
        assert State() == Favorited(before, user, questionId, false);
      }
    }

    // -------------------------------------------------------------------
    // Tags

    /** Lists every tag carried by a stored question exactly once, with the
        number of questions carrying it. */
    method GetTags() returns (tags: seq<TagResponse>)
      ensures (set e | e in tags :: e.tag) == UsedTags(questions)
      ensures forall i, j :: 0 <= i < j < |tags| ==> tags[i].tag != tags[j].tag
      ensures forall i :: 0 <= i < |tags| ==> tags[i].questionsCount == |TaggedWith(questions, tags[i].tag)|
      ensures forall i :: 0 <= i < |tags| ==> tags[i].questionsCount > 0
    {
      var pending := UsedTags(questions);
      tags := [];
      while pending != {}
        invariant pending <= UsedTags(questions)
        invariant (set e | e in tags :: e.tag) == UsedTags(questions) - pending
        invariant forall i, j :: 0 <= i < j < |tags| ==> tags[i].tag != tags[j].tag
        invariant forall i :: 0 <= i < |tags| ==> tags[i].questionsCount == |TaggedWith(questions, tags[i].tag)|
        invariant forall i :: 0 <= i < |tags| ==> tags[i].questionsCount > 0
        decreases pending
      {
        var t :| t in pending;
        var q :| q in questions && t in questions[q].tags;
        assert q in TaggedWith(questions, t);
        ghost var listed := set e | e in tags :: e.tag;
        assert t !in listed;
        var entry := TagResponse(t, |TaggedWith(questions, t)|);
        assert (set e | e in tags + [entry] :: e.tag) == listed + {t} by {
          assert forall e :: e in tags + [entry] <==> e in tags || e == entry;
        }
        tags := tags + [entry];
        assert (set e | e in tags :: e.tag) == listed + {t};
        pending := pending - {t};
      }
    }

    // -------------------------------------------------------------------
    // Attachments

    /** Stores an attachment under its caller-supplied uuid with a fresh
        internal id. Attachments are immutable: a uuid already in use is
        refused and the store is left as it was. */
    method PostAttachment(params: AttachmentParameters, now: nat) returns (r: Option<Attachment>)
      requires Valid()
      modifies this
      ensures Valid()
      ensures params.uuid in old(attachments) ==> r == None && unchanged(this)
      ensures params.uuid !in old(attachments) ==>
        && r.Some? && r.value == Stored(params, old(nextAttachmentId), now)
        && State() == old(State()).(attachments := old(attachments)[params.uuid := r.value],
                                    nextAttachmentId := old(nextAttachmentId) + 1)
    {
      if params.uuid in attachments {
        return None;
      }
      ghost var before := State();
      var a := Stored(params, nextAttachmentId, now);
      AttachmentPostedWellFormed(before, a);
      attachments := attachments[params.uuid := a];
      nextAttachmentId := nextAttachmentId + 1;
      assert State() == AttachmentPosted(before, a);
      r := Some(a);
    }

    /** Looks an attachment up by uuid. */
    method GetAttachment(uuid: string) returns (r: Option<Attachment>)
      requires Valid()
      ensures uuid !in attachments ==> r == None
      ensures uuid in attachments ==> r == Some(attachments[uuid]) && r.value.uuid == uuid
    {
      if uuid !in attachments {
        return None;
      }
      r := Some(attachments[uuid]);
    }
  }
}
