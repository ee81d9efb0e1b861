/** Client code driving the store through the call sequences its contract
    describes, with what each sequence must observe stated as postconditions. */
module Scenarios {
  import opened Wrappers
  import opened Records
  import opened Votes
  import opened Db
  import opened Listing
  import opened Store

  // -----------------------------------------------------------------------
  // Voting

  /** Casts `ballots` on one question, one `VoteQuestion` call per ballot;
      the question's votes end up as the replay of the ballots over the votes
      it had. */
  method CastAll(store: QetaStore, questionId: nat, ballots: seq<Vote>)
    requires store.Valid() && questionId in store.questions
    modifies store
    ensures store.Valid() && questionId in store.questions
    ensures VotesOn(store.questionVotes, questionId) == Replay(old(VotesOn(store.questionVotes, questionId)), ballots)
  {
    var i := 0;
    while i < |ballots|
      invariant 0 <= i <= |ballots|
      invariant store.Valid() && questionId in store.questions
      invariant Replay(VotesOn(store.questionVotes, questionId), ballots[i..])
                == Replay(old(VotesOn(store.questionVotes, questionId)), ballots)
    {
      var b := ballots[i];
      var ok := store.VoteQuestion(b.author, questionId, b.score, b.timestamp);
      assert ballots[i..][1..] == ballots[i + 1..];
      i := i + 1;
    }
  }

  /** A new question receiving `ballots`: each voter counts once, with their
      last ballot, and the score is the sum of those last ballots. */
  method VoteSequence(asker: string, ballots: seq<Vote>, now: nat) returns (q: Question)
    ensures q.ownVote == (if CastBy(ballots, asker) then Some(ballots[LastBy(ballots, asker)].score) else None)
    ensures q.score == Sum(Replay(map[], ballots))
    ensures q.score == SumSet(q.votes)
    ensures forall u :: u in Replay(map[], ballots) <==> CastBy(ballots, u)
    ensures forall u :: CastBy(ballots, u) ==> Replay(map[], ballots)[u] == ballots[LastBy(ballots, u)]
  {
    var store := new QetaStore();
    var posted := store.PostQuestion(asker, "", "", [], [], [], now);
    assert VotesOn(store.questionVotes, posted.id) == map[];
    CastAll(store, posted.id, ballots);
    forall u ensures u in Replay(map[], ballots) <==> CastBy(ballots, u)
      ensures CastBy(ballots, u) ==> Replay(map[], ballots)[u] == ballots[LastBy(ballots, u)]
    {
      ReplayLastWins(map[], ballots, u);
    }
    ReplayLastWins(map[], ballots, asker);
    QuestionScoreIsSumOfVotes(store.State(), asker, posted.id);
    var r := store.GetQuestion(asker, posted.id, Some(false));
    q := r.value;
  }

  // -----------------------------------------------------------------------
  // Deleting

  /** Only the author deletes a question: another user's attempt fails and
      leaves it readable; the author's succeeds and it is gone. */
  method PostThenDelete(author: string, other: string, title: string, content: string, now: nat)
    returns (byOther: bool, kept: Option<Question>, byAuthor: bool, gone: Option<Question>)
    requires author != other
    ensures !byOther
    ensures kept.Some? && kept.value.author == author && kept.value.title == title
    ensures byAuthor
    ensures gone == None
  {
    var store := new QetaStore();
    var q := store.PostQuestion(author, title, content, [], [], [], now);
    byOther := store.DeleteQuestion(other, q.id);
    kept := store.GetQuestion(other, q.id, None);
    byAuthor := store.DeleteQuestion(author, q.id);
    gone := store.GetQuestion(author, q.id, None);
  }

  // -----------------------------------------------------------------------
  // Views

  /** Reads a stored question `n` times with views recorded. */
  method ReadRepeatedly(store: QetaStore, user: string, id: nat, n: nat)
    requires store.Valid() && id in store.questions
    modifies store
    ensures store.Valid() && id in store.questions
    ensures store.questions[id].views == old(store.questions[id].views) + n
  {
    var i := 0;
    while i < n
      invariant 0 <= i <= n
      invariant store.Valid() && id in store.questions
      invariant store.questions[id].views == old(store.questions[id].views) + i
    {
      var r := store.GetQuestion(user, id, Some(true));
      i := i + 1;
    }
  }

  /** A new store holding one question of `user`, read `n` times. */
  method PostAndRead(user: string, n: nat, now: nat) returns (store: QetaStore, id: nat)
    ensures fresh(store) && store.Valid()
    ensures id in store.questions && store.questions[id].views == n
  {
    store := new QetaStore();
    var q := store.PostQuestion(user, "", "", [], [], [], now);
    id := q.id;
    ReadRepeatedly(store, user, id, n);
  }

  /** A new question read `n` times shows `n` views; a read with
      `recordView` false adds none. */
  method ViewsCounted(user: string, n: nat, now: nat) returns (views: nat, again: nat)
    ensures views == n
    ensures again == n
  {
    var store, id := PostAndRead(user, n, now);
    var r := store.GetQuestion(user, id, Some(false));
    views := r.value.views;
    r := store.GetQuestion(user, id, Some(false));
    again := r.value.views;
  }

  // -----------------------------------------------------------------------
  // Correct answers

  /** A new store holding one question of `asker` with one answer of `answerer`. */
  method AskAndAnswer(asker: string, answerer: string, now: nat) returns (store: QetaStore, q: nat, a: nat)
    ensures fresh(store) && store.Valid()
    ensures AuthorsQuestion(store.State(), asker, q)
    ensures a in store.answers && store.answers[a].questionId == q
    ensures AnswersOf(store.answers, q) == {a}
  {
    store := new QetaStore();
    var posted := store.PostQuestion(asker, "", "", [], [], [], now);
    q := posted.id;
    var answered := store.AnswerQuestion(answerer, q, "", [], now);
    a := answered.value.id;
    assert store.answers.Keys == {a};
  }

  /** When `a` is the only answer of `q`, no other answer belongs to `q`. */
  lemma OnlyAnswer(answers: map<nat, AnswerRow>, q: nat, a: nat)
    requires a in answers
    ensures AnswersOf(answers, q) == {a} ==> forall b :: b in answers && answers[b].questionId == q ==> b == a
  {
    if AnswersOf(answers, q) == {a} {
      forall b | b in answers && answers[b].questionId == q ensures b == a {
        assert b in AnswersOf(answers, q);
      }
    }
  }

  /** The asker marks the only answer `a` of `q` and reads `q` back. */
  method MarkAndLook(store: QetaStore, asker: string, q: nat, a: nat, correct: bool) returns (ok: bool, seen: bool)
    requires store.Valid() && AuthorsQuestion(store.State(), asker, q)
    requires a in store.answers && store.answers[a].questionId == q && AnswersOf(store.answers, q) == {a}
    modifies store
    ensures store.Valid() && AuthorsQuestion(store.State(), asker, q)
    ensures a in store.answers && store.answers[a].questionId == q && AnswersOf(store.answers, q) == {a}
    ensures ok && seen == correct
  {
    OnlyAnswer(store.answers, q, a);
    if correct {
      ok := store.MarkAnswerCorrect(asker, q, a);
    } else {
      ok := store.MarkAnswerIncorrect(asker, q, a);
    }
    var r := store.GetQuestion(asker, q, None);
    seen := r.value.correctAnswer;
  }

  /** Marking an answer correct shows on its question; clearing the only
      correct mark clears it again; nobody but the asker may mark. */
  method MarkThenUnmark(asker: string, answerer: string, now: nat)
    returns (byAnswerer: bool, marked: bool, seen: bool, unmarked: bool, seenAfter: bool)
    requires asker != answerer
    ensures !byAnswerer
    ensures marked && seen
    ensures unmarked && !seenAfter
  {
    var store, q, a := AskAndAnswer(asker, answerer, now);
    byAnswerer := store.MarkAnswerCorrect(answerer, q, a);
    marked, seen := MarkAndLook(store, asker, q, a, true);
    unmarked, seenAfter := MarkAndLook(store, asker, q, a, false);
  }

  // -----------------------------------------------------------------------
  // Favorites

  /** Favorites are per user and idempotent; they fail only on a missing
      question. */
  method FavoriteThenUnfavorite(user: string, other: string, now: nat)
    returns (neverFavorited: bool, mine: bool, theirs: bool, after: bool, missing: bool)
    requires user != other
    ensures neverFavorited
    ensures mine && !theirs
    ensures !after
    ensures !missing
  {
    var store := new QetaStore();
    var q := store.PostQuestion(user, "", "", [], [], [], now);
    neverFavorited := store.UnfavoriteQuestion(user, q.id);
    var ok := store.FavoriteQuestion(user, q.id);
    var r := store.GetQuestion(user, q.id, None);
    mine := r.value.favorite;
    r := store.GetQuestion(other, q.id, None);
    theirs := r.value.favorite;
    ok := store.UnfavoriteQuestion(user, q.id);
    r := store.GetQuestion(user, q.id, None);
    after := r.value.favorite;
    missing := store.FavoriteQuestion(user, q.id + 1);
  }

  // -----------------------------------------------------------------------
  // Listing

  /** The ten best-scored questions tagged "backstage", as `user` sees them. */
  method TopTagged(store: QetaStore, user: string) returns (r: Questions)
    requires store.Valid()
    ensures |r.questions| <= 10
    ensures forall q :: q in r.questions ==> "backstage" in q.tags && q.id in store.questions
    ensures forall i, j :: 0 <= i < j < |r.questions| ==> r.questions[i].score >= r.questions[j].score
    ensures r.total == |Matching(Views(store.State(), user), TopTaggedOptions())|
  {
    r := store.GetQuestions(user, TopTaggedOptions());
    forall q | q in r.questions ensures "backstage" in q.tags {
      TopTaggedMatch(q);
    }
    forall i, j | 0 <= i < j < |r.questions| ensures r.questions[i].score >= r.questions[j].score {
      assert Key(r.questions[i], ByScore) >= Key(r.questions[j], ByScore);
    }
  }

  lemma TopTaggedMatch(q: Question)
    requires Matches(q, TopTaggedOptions())
    ensures "backstage" in q.tags
  {
    var t :| t in ["backstage"] && t in q.tags;
  }

  function TopTaggedOptions(): QuestionsOptions
  {
    QuestionsOptions(Some(10), Some(0), None, Some(ByScore), Some(Desc),
                     false, false, false, false, Some(["backstage"]), None)
  }

  // -----------------------------------------------------------------------
  // Attachments

  /** Posting an attachment and fetching it by uuid gives it back unchanged;
      an unknown uuid gives nothing. */
  method AttachmentRoundTrip(params: AttachmentParameters, unknown: string, now: nat)
    returns (posted: Option<Attachment>, fetched: Option<Attachment>, none: Option<Attachment>)
    requires unknown != params.uuid
    ensures posted.Some? && fetched == posted
    ensures fetched.value.uuid == params.uuid && fetched.value.mimeType == params.mimeType
    ensures fetched.value.extension == params.extension && fetched.value.locationType == params.locationType
    ensures fetched.value.locationUri == params.locationUri && fetched.value.binaryImage == params.binaryImage
    ensures none == None
  {
    var store := new QetaStore();
    posted := store.PostAttachment(params, now);
    fetched := store.GetAttachment(params.uuid);
    none := store.GetAttachment(unknown);
  }
}
