/**
 * The rows of the board (questions, answers, comments), the user-or-group owner stored in two
 * nullable foreign keys, and what `on_delete=CASCADE` removes when a row is deleted.
 */
module Models {
  import opened Base

  type UserId = nat
  type GroupId = nat
  type QuestionId = nat
  type AnswerId = nat
  type CommentId = nat

  /** A value handed to the owner setter: a User, a Group, or any other object. */
  datatype Principal = UserValue(user: UserId) | GroupValue(group: GroupId) | OtherValue

  /** What the owner getter yields: a user, a group, or None. */
  datatype Owner = NoOwner | UserOwner(user: UserId) | GroupOwner(group: GroupId)

  /** The owner the setter is asked to record, as the getter would report it. */
  function OwnerFor(p: Principal): Owner {
    match p
    case UserValue(u) => UserOwner(u)
    case GroupValue(g) => GroupOwner(g)
    case OtherValue => NoOwner
  }

  /** The two nullable foreign keys `owning_user` and `owning_group` of one row. */
  datatype Slots = Slots(owningUser: Option<UserId>, owningGroup: Option<GroupId>) {

    /** The rule the setter keeps: never both set. */
    predicate Exclusive() {
      owningUser == None || owningGroup == None
    }

    /** The corrected owner getter: the user if one is set, else the group, else None. */
    function Owner(): (o: Owner)
      ensures o.UserOwner? ==> owningUser == Some(o.user)
      ensures o.GroupOwner? ==> owningUser == None && owningGroup == Some(o.group)
      ensures o == NoOwner <==> owningUser == None && owningGroup == None
    {
      match owningUser
      case Some(u) => UserOwner(u)
      case None =>
        match owningGroup
        case Some(g) => GroupOwner(g)
        case None => NoOwner
    }
  }

  /**
   * The owner getter as written: `hasattr(self, 'owning_user')` is what it checks, not whether the
   * reference is null. `userReadable` and `groupReadable` say whether reading each attribute
   * succeeds; for a nullable foreign key Django returns None rather than failing, so on a loaded
   * or new row both are true.
   */
  function OwnerAsWritten(userReadable: bool, groupReadable: bool, s: Slots): (o: Owner)
    ensures userReadable ==> !o.GroupOwner?
    ensures userReadable ==> (o == NoOwner <==> s.owningUser == None)
    ensures o.UserOwner? ==> s.owningUser == Some(o.user)
    ensures o.GroupOwner? ==> s.owningGroup == Some(o.group)
  {
    if userReadable then
      match s.owningUser
      case Some(u) => UserOwner(u)
      case None => NoOwner
    else if groupReadable then
      match s.owningGroup
      case Some(g) => GroupOwner(g)
      case None => NoOwner
    else NoOwner
  }

  /** The slots the owner setter writes, or None when it raises (neither a User nor a Group). */
  function AssignOwner(p: Principal): Option<Slots> {
    match p
    case UserValue(u) => Some(Slots(Some(u), None))
    case GroupValue(g) => Some(Slots(None, Some(g)))
    case OtherValue => None
  }

  /** A successful assignment records one slot only, and reading the owner back returns what was set. */
  lemma AssignThenRead(p: Principal)
    ensures AssignOwner(p).Some? <==> !p.OtherValue?
    ensures AssignOwner(p).Some? ==> AssignOwner(p).value.Exclusive()
    ensures AssignOwner(p).Some? ==> AssignOwner(p).value.Owner() == OwnerFor(p)
  {
  }

  /** The getter consults the user slot first, then the group slot, and yields None if neither is set. */
  lemma OwnerPrefersUser(s: Slots)
    ensures s.owningUser.Some? ==> s.Owner() == UserOwner(s.owningUser.value)
    ensures s.owningUser == None && s.owningGroup.Some? ==> s.Owner() == GroupOwner(s.owningGroup.value)
    ensures s.owningUser == None && s.owningGroup == None ==> s.Owner() == NoOwner
  {
  }

  /** As written, a row owned by a group reads back as having no owner. */
  lemma GroupOwnerReadsAsNone(g: GroupId)
    ensures AssignOwner(GroupValue(g)).Some?
    ensures OwnerAsWritten(true, true, AssignOwner(GroupValue(g)).value) == NoOwner
    ensures AssignOwner(GroupValue(g)).value.Owner() == GroupOwner(g)
  {
  }

  /** The two getters differ only on group-owned rows. */
  lemma GettersAgreeUnlessGroupOwned(groupReadable: bool, s: Slots)
    ensures s.owningUser.Some? || s.owningGroup == None ==> OwnerAsWritten(true, groupReadable, s) == s.Owner()
  {
  }

  /**
   * Every check in the views compares the owner with a user, and on that comparison the two
   * getters never disagree: the discrepancy cannot change a permission or a vote.
   */
  lemma GettersAgreeOnUsers(groupReadable: bool, s: Slots, actor: UserId)
    ensures OwnerAsWritten(true, groupReadable, s) == UserOwner(actor) <==> s.Owner() == UserOwner(actor)
  {
  }

  /** The columns common to the three kinds of post. */
  datatype Post = Post(slots: Slots, createdBy: UserId, modifiedBy: UserId,
                       createdOn: nat, modifiedOn: nat, voters: set<UserId>)

  datatype Question = Question(post: Post, subject: string, content: string)

  datatype Answer = Answer(post: Post, question: QuestionId, content: string)

  /** A comment hangs off a question or off an answer, through two nullable foreign keys. */
  datatype Comment = Comment(post: Post, question: Option<QuestionId>, answer: Option<AnswerId>, content: string)

  /**
   * A model instance in memory (`form.instance`, or the object a view loaded): the columns a
   * view assigns one by one before the row is saved.
   */
  class Instance {
    var owningUser: Option<UserId>
    var owningGroup: Option<GroupId>
    var createdBy: Option<UserId>
    var modifiedBy: Option<UserId>

    /** A new, unsaved instance, as a create form builds it. */
    constructor Blank()
      ensures OwnerSlots() == Slots(None, None)
      ensures createdBy == None && modifiedBy == None
    {
      owningUser, owningGroup := None, None;
      createdBy, modifiedBy := None, None;
    }

    /** An instance loaded from a stored row. */
    constructor Load(p: Post)
      ensures OwnerSlots() == p.slots
      ensures createdBy == Some(p.createdBy) && modifiedBy == Some(p.modifiedBy)
    {
      owningUser, owningGroup := p.slots.owningUser, p.slots.owningGroup;
      createdBy, modifiedBy := Some(p.createdBy), Some(p.modifiedBy);
    }

    function OwnerSlots(): Slots
      reads this
    {
      Slots(owningUser, owningGroup)
    }

    /** The `owner` property. */
    function Owner(): Owner
      reads this
    {
      OwnerSlots().Owner()
    }

    /**
     * The `owner` setter: a User fills `owning_user` and clears `owning_group`, a Group the
     * other way round, and anything else raises and leaves both fields as they were.
     */
    method SetOwner(p: Principal) returns (raised: bool)
      modifies this`owningUser, this`owningGroup
      ensures raised <==> p.OtherValue?
      ensures raised ==> OwnerSlots() == old(OwnerSlots())
      ensures !raised ==> Some(OwnerSlots()) == AssignOwner(p)
      ensures !raised ==> OwnerSlots().Exclusive() && Owner() == OwnerFor(p)
    {
      match p {
        case UserValue(u) =>
          owningUser := Some(u);
          owningGroup := None;
          raised := false;
        case GroupValue(g) =>
          owningUser := None;
          owningGroup := Some(g);
          raised := false;
        case OtherValue =>
          raised := true;
      }
    }

    /** The row `save()` writes; `auto_now_add` and `auto_now` supply the two timestamps. */
    function Row(createdOn: nat, modifiedOn: nat, voters: set<UserId>): Post
      reads this
      requires createdBy.Some? && modifiedBy.Some?
    {
      Post(OwnerSlots(), createdBy.value, modifiedBy.value, createdOn, modifiedOn, voters)
    }
  }

  /** The three tables. */
  datatype Db = Db(questions: map<QuestionId, Question>, answers: map<AnswerId, Answer>,
                   comments: map<CommentId, Comment>)

  /** A comment has exactly one parent, and that parent is stored. */
  predicate ParentStored(db: Db, c: Comment) {
    match (c.question, c.answer)
    case (Some(q), None) => q in db.questions
    case (None, Some(a)) => a in db.answers
    case _ => false
  }

  /** Referential integrity: every foreign key to a post points at a stored row. */
  predicate Integrity(db: Db) {
    && (forall a :: a in db.answers ==> db.answers[a].question in db.questions)
    && (forall c :: c in db.comments ==> ParentStored(db, db.comments[c]))
  }

  /** `s` keeps some of the rows of `db`, each unchanged. */
  predicate SubDb(s: Db, db: Db) {
    && (forall q :: q in s.questions ==> q in db.questions && s.questions[q] == db.questions[q])
    && (forall a :: a in s.answers ==> a in db.answers && s.answers[a] == db.answers[a])
    && (forall c :: c in s.comments ==> c in db.comments && s.comments[c] == db.comments[c])
  }

  /** The answers whose `question` foreign key is `q`. */
  function AnswersOf(db: Db, q: QuestionId): set<AnswerId> {
    set a | a in db.answers && db.answers[a].question == q
  }

  /** A comment hangs off question `q` or off one of the answers in `gone`. */
  predicate HangsOff(c: Comment, q: Option<QuestionId>, gone: set<AnswerId>) {
    (q.Some? && c.question == q) || (c.answer.Some? && c.answer.value in gone)
  }

  /**
   * Deleting question `q`: the question, its answers (`Answer.question` cascades), the comments
   * on it and the comments on those answers (`Comment.question`, `Comment.answer` cascade).
   */
  function DeleteQuestion(db: Db, q: QuestionId): Db {
    var gone := AnswersOf(db, q);
    Db(db.questions - {q},
       db.answers - gone,
       map c | c in db.comments && !HangsOff(db.comments[c], Some(q), gone) :: db.comments[c])
  }

  /** Deleting answer `a`: the answer and the comments on it. */
  function DeleteAnswer(db: Db, a: AnswerId): Db {
    Db(db.questions,
       db.answers - {a},
       map c | c in db.comments && !HangsOff(db.comments[c], None, {a}) :: db.comments[c])
  }

  /** Deleting a comment removes nothing else. */
  function DeleteComment(db: Db, c: CommentId): Db {
    Db(db.questions, db.answers, db.comments - {c})
  }

  /** What deleting a question removes, and that the store stays consistent. */
  lemma DeleteQuestionCascades(db: Db, q: QuestionId)
    requires Integrity(db)
    ensures var r := DeleteQuestion(db, q);
      && q !in r.questions
      && (forall a :: a in r.answers ==> r.answers[a].question != q)
      && (forall c :: c in r.comments ==> r.comments[c].question != Some(q))
      && (forall c :: c in r.comments && r.comments[c].answer.Some? ==>
            r.comments[c].answer.value !in AnswersOf(db, q))
      && SubDb(r, db)
      && Integrity(r)
  {
  }

  /**
   * The cascade removes no more than it must: any consistent part of the store that does not
   * hold `q` survives the deletion untouched.
   */
  lemma DeleteQuestionIsLargest(db: Db, q: QuestionId, s: Db)
    requires Integrity(db) && Integrity(s) && SubDb(s, db) && q !in s.questions
    ensures SubDb(s, DeleteQuestion(db, q))
  {
    var r := DeleteQuestion(db, q);
    forall a | a in s.answers
      ensures a in r.answers && s.answers[a] == r.answers[a]
    {
      assert s.answers[a].question in s.questions;
    }
    forall c | c in s.comments
      ensures c in r.comments && s.comments[c] == r.comments[c]
    {
      var k := s.comments[c];
      assert ParentStored(s, k);
      if k.answer.Some? {
        assert s.answers[k.answer.value].question in s.questions;
      }
    }
  }

  /** What deleting an answer removes, and that the store stays consistent. */
  lemma DeleteAnswerCascades(db: Db, a: AnswerId)
    requires Integrity(db)
    ensures var r := DeleteAnswer(db, a);
      && a !in r.answers
      && (forall c :: c in r.comments ==> r.comments[c].answer != Some(a))
      && r.questions == db.questions
      && SubDb(r, db)
      && Integrity(r)
  {
  }

  /** Deleting an answer removes no more than it must. */
  lemma DeleteAnswerIsLargest(db: Db, a: AnswerId, s: Db)
    requires Integrity(s) && SubDb(s, db) && a !in s.answers
    ensures SubDb(s, DeleteAnswer(db, a))
  {
    var r := DeleteAnswer(db, a);
    forall c | c in s.comments
      ensures c in r.comments && s.comments[c] == r.comments[c]
    {
      assert ParentStored(s, s.comments[c]);
    }
  }

  /** Deleting a comment removes that comment only. */
  lemma DeleteCommentOnly(db: Db, c: CommentId)
    requires Integrity(db)
    ensures var r := DeleteComment(db, c);
      && c !in r.comments
      && r.questions == db.questions && r.answers == db.answers
      && (forall k :: k in db.comments && k != c ==> k in r.comments && r.comments[k] == db.comments[k])
      && Integrity(r)
  {
  }
}
