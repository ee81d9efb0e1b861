/** The records of the Q&A store: the rows it keeps and the views it returns.
    Timestamps (`Date` in the interface) are `nat`s supplied by the caller. */
module Records {
  import opened Wrappers

  /** The elements of a list given by a caller (tags, components, image ids). */
  function Elements<T>(s: seq<T>): set<T>
  {
    set x | x in s
  }

  /** One byte of an inline attachment (`Buffer`). */
  newtype byte = x: int | 0 <= x < 256

  /** A vote row. The store keeps at most one per (author, target). */
  datatype Vote = Vote(author: string, score: int, timestamp: nat)

  /** A stored question. Score, answer count, correctness, favorite flag and
      own vote are not stored: they are derived when the question is read. */
  datatype QuestionRow = QuestionRow(
    author: string,
    title: string,
    content: string,
    created: nat,
    updated: Option<nat>,
    updatedBy: Option<string>,
    views: nat,
    tags: set<string>,
    entities: set<string>,
    images: set<nat>)

  /** A stored answer; `questionId` refers back to the question it answers. */
  datatype AnswerRow = AnswerRow(
    questionId: nat,
    author: string,
    content: string,
    correct: bool,
    created: nat,
    updated: Option<nat>,
    updatedBy: Option<string>,
    images: set<nat>)

  /** What a comment is attached to: exactly one question or one answer. */
  datatype Target = OnQuestion(questionId: nat) | OnAnswer(answerId: nat)

  datatype CommentRow = CommentRow(
    target: Target,
    author: string,
    content: string,
    created: nat,
    updated: Option<nat>,
    updatedBy: Option<string>)

  /** A comment as a reader sees it; `own` is true when the reader wrote it. */
  datatype Comment = Comment(
    author: string,
    content: string,
    created: nat,
    own: bool,
    updated: Option<nat>,
    updatedBy: Option<string>)

  /** A question as the user `viewer` sees it. `votes` is the set of current
      vote rows and `comments` maps comment ids to comments. */
  datatype Question = Question(
    id: nat,
    author: string,
    title: string,
    content: string,
    created: nat,
    updated: Option<nat>,
    updatedBy: Option<string>,
    score: int,
    views: nat,
    answersCount: nat,
    correctAnswer: bool,
    favorite: bool,
    ownVote: Option<int>,
    tags: set<string>,
    entities: set<string>,
    own: bool,
    votes: set<Vote>,
    comments: map<nat, Comment>)

  /** An answer as a reader sees it. */
  datatype Answer = Answer(
    id: nat,
    questionId: nat,
    author: string,
    content: string,
    correct: bool,
    created: nat,
    updated: Option<nat>,
    updatedBy: Option<string>,
    score: int,
    ownVote: Option<int>,
    own: bool,
    votes: set<Vote>,
    comments: map<nat, Comment>)

  /** One entry of the tag listing. */
  datatype TagResponse = TagResponse(tag: string, questionsCount: nat)

  /** A stored attachment: inline bytes or a reference to an external location. */
  datatype Attachment = Attachment(
    id: nat,
    uuid: string,
    locationType: string,
    locationUri: string,
    path: Option<string>,
    binaryImage: Option<seq<byte>>,
    mimeType: string,
    extension: string,
    creator: Option<string>,
    created: nat)

  /** What a caller supplies to store an attachment. */
  datatype AttachmentParameters = AttachmentParameters(
    uuid: string,
    locationType: string,
    locationUri: string,
    extension: string,
    mimeType: string,
    path: Option<string>,
    binaryImage: Option<seq<byte>>,
    creator: Option<string>)
}
