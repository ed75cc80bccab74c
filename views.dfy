/**
 * The request handlers that change the board: create, modify and delete for questions, answers
 * and comments, and the two vote views. Each modify or delete view lets only the post's owner
 * through; each create view stamps the acting user as owner, creator and modifier.
 */
module Views {
  import opened Base
  import opened Models
  import opened Urls
  import Listing
  import opened Text

  /** The ways a request ends other than a redirect. */
  datatype Error =
    | PermissionDenied  // a non-owner tried to modify or delete (HTTP 403)
    | NotFound          // the object named in the URL does not exist (HTTP 404)
    | IntegrityError    // the row refers to a question that does not exist; the database refuses it
    | ServerError       // the success URL reads a parent the comment does not have

  datatype Response = Redirect(to: Url) | Failed(error: Error)

  /** The permission test of every modify and delete view: the resolved owner is the acting user. */
  predicate MayModify(s: Slots, actor: UserId) {
    s.Owner() == UserOwner(actor)
  }

  /** Exactly the user in `owning_user` may modify; a group-owned or unowned post, nobody. */
  lemma MayModifyIff(s: Slots, actor: UserId)
    ensures MayModify(s, actor) <==> s.owningUser == Some(actor)
    ensures s.owningUser == None ==> !MayModify(s, actor)
  {
  }

  /** At most one user passes the permission test. */
  lemma OnlyOneMayModify(s: Slots, a: UserId, b: UserId)
    requires MayModify(s, a) && MayModify(s, b)
    ensures a == b
  {
  }

  /** The row a create view saves: the actor owns, created and last modified it. */
  function Created(actor: UserId, now: nat): Post {
    Post(Slots(Some(actor), None), actor, actor, now, now, {})
  }

  /** The row a modify view saves: owner and modifier set to the actor, modification time to now. */
  function Modified(p: Post, actor: UserId, now: nat): Post {
    p.(slots := Slots(Some(actor), None), modifiedBy := actor, modifiedOn := now)
  }

  lemma CreatedStamps(actor: UserId, now: nat)
    ensures var p := Created(actor, now);
      && p.slots.Owner() == UserOwner(actor) && p.slots.Exclusive()
      && p.createdBy == actor && p.modifiedBy == actor
      && p.createdOn == now && p.modifiedOn == now && p.voters == {}
  {
  }

  /**
   * A permitted modification leaves the owner as it was (the actor), keeps the creator, the
   * creation time and the votes, and records the actor as the last modifier.
   */
  lemma ModifiedKeepsOwner(p: Post, actor: UserId, now: nat)
    requires MayModify(p.slots, actor) && p.slots.Exclusive()
    ensures var m := Modified(p, actor, now);
      && m.slots == p.slots && m.slots.Owner() == UserOwner(actor)
      && m.modifiedBy == actor && m.modifiedOn == now
      && m.createdBy == p.createdBy && m.createdOn == p.createdOn && m.voters == p.voters
  {
  }

  /**
   * One vote: the owner's own vote is refused with an error message and changes nothing; anyone
   * else joins the voter set. Returns the new voter set and whether the error was shown.
   */
  function CastVote(voters: set<UserId>, s: Slots, actor: UserId): (set<UserId>, bool) {
    if s.Owner() == UserOwner(actor) then (voters, true)
    else (voters + {actor}, false)
  }

  lemma VoteRules(voters: set<UserId>, s: Slots, actor: UserId)
    ensures var (after, refused) := CastVote(voters, s, actor);
      && (refused <==> MayModify(s, actor))
      && (refused ==> after == voters)
      && (!refused ==> actor in after && after - {actor} == voters - {actor})
  {
  }

  /** Voting again has no further effect, and a voter already counted is not counted twice. */
  lemma VoteIdempotent(voters: set<UserId>, s: Slots, actor: UserId)
    ensures var once := CastVote(voters, s, actor).0;
      CastVote(once, s, actor).0 == once
    ensures actor in voters ==> CastVote(voters, s, actor).0 == voters
  {
  }

  /** The database: the three tables and their auto-increment primary-key counters. */
  class Board {
    var questions: map<QuestionId, Question>
    var answers: map<AnswerId, Answer>
    var comments: map<CommentId, Comment>
    var nextQuestion: nat
    var nextAnswer: nat
    var nextComment: nat

    function Tables(): Db
      reads this
    {
      Db(questions, answers, comments)
    }

    /** Referential integrity, fresh ids above every stored one, and the owner rule on every row. */
    ghost predicate Valid()
      reads this
    {
      && Integrity(Tables())
      && (forall q :: q in questions ==> q < nextQuestion && questions[q].post.slots.Exclusive())
      && (forall a :: a in answers ==> a < nextAnswer && answers[a].post.slots.Exclusive())
      && (forall c :: c in comments ==> c < nextComment && comments[c].post.slots.Exclusive())
    }

    constructor ()
      ensures Valid()
      ensures questions == map[] && answers == map[] && comments == map[]
    {
      questions, answers, comments := map[], map[], map[];
      nextQuestion, nextAnswer, nextComment := 1, 1, 1;
    }

    /** `QuestionCreateView.form_valid`, then the redirect to the list. */
    method QuestionCreate(actor: UserId, subject: string, content: string, now: nat) returns (resp: Response)
      requires Valid()
      modifies this
      ensures Valid()
      ensures resp == Redirect(IndexUrl)
      ensures old(nextQuestion) !in old(questions)
      ensures questions == old(questions)[old(nextQuestion) := Question(Created(actor, now), subject, content)]
      ensures answers == old(answers) && comments == old(comments)
      ensures nextQuestion == old(nextQuestion) + 1
      ensures nextAnswer == old(nextAnswer) && nextComment == old(nextComment)
    {
      var inst := new Instance.Blank();
      var raised := inst.SetOwner(UserValue(actor));
      inst.createdBy := Some(actor);
      inst.modifiedBy := Some(actor);
      var id := nextQuestion;
      questions := questions[id := Question(inst.Row(now, now, {}), subject, content)];
      nextQuestion := nextQuestion + 1;
      resp := Redirect(IndexUrl);
    }

    /** `QuestionModifyView`: the owner check of `get_object`, then `form_valid`. */
    method QuestionModify(actor: UserId, id: QuestionId, subject: string, content: string, now: nat)
      returns (resp: Response)
      requires Valid()
      modifies this
      ensures Valid()
      ensures id !in old(questions) ==> resp == Failed(NotFound) && unchanged(this)
      ensures id in old(questions) && !MayModify(old(questions)[id].post.slots, actor) ==>
        resp == Failed(PermissionDenied) && unchanged(this)
      ensures id in old(questions) && MayModify(old(questions)[id].post.slots, actor) ==>
        && resp == Redirect(DetailUrl(id, NoAnchor))
        && questions == old(questions)[id := Question(Modified(old(questions)[id].post, actor, now), subject, content)]
        && answers == old(answers) && comments == old(comments)
        && nextQuestion == old(nextQuestion) && nextAnswer == old(nextAnswer) && nextComment == old(nextComment)
    {
      if id !in questions {
        return Failed(NotFound);
      }
      var row := questions[id];
      var inst := new Instance.Load(row.post);
      if inst.Owner() != UserOwner(actor) {
        return Failed(PermissionDenied);
      }
      var raised := inst.SetOwner(UserValue(actor));
      inst.modifiedBy := Some(actor);
      questions := questions[id := Question(inst.Row(row.post.createdOn, now, row.post.voters), subject, content)];
      resp := Redirect(DetailUrl(id, NoAnchor));
    }

    /** Writes back the three tables of `db`. */
    method Store(db: Db)
      modifies this
      ensures Tables() == db
      ensures nextQuestion == old(nextQuestion) && nextAnswer == old(nextAnswer) && nextComment == old(nextComment)
    {
      questions, answers, comments := db.questions, db.answers, db.comments;
    }

    /** After any cascade, the smaller store is still valid. */
    lemma SubDbValid(db: Db)
      requires Valid() && Integrity(db) && SubDb(db, Tables())
      ensures var r := db;
        && (forall q :: q in r.questions ==> q < nextQuestion && r.questions[q].post.slots.Exclusive())
        && (forall a :: a in r.answers ==> a < nextAnswer && r.answers[a].post.slots.Exclusive())
        && (forall c :: c in r.comments ==> c < nextComment && r.comments[c].post.slots.Exclusive())
    {
    }

    /** `QuestionDeleteView`: the owner check, then the cascade, then the redirect to the list. */
    method QuestionDelete(actor: UserId, id: QuestionId) returns (resp: Response)
      requires Valid()
      modifies this
      ensures Valid()
      ensures id !in old(questions) ==> resp == Failed(NotFound) && unchanged(this)
      ensures id in old(questions) && !MayModify(old(questions)[id].post.slots, actor) ==>
        resp == Failed(PermissionDenied) && unchanged(this)
      ensures id in old(questions) && MayModify(old(questions)[id].post.slots, actor) ==>
        && resp == Redirect(IndexUrl)
        && Tables() == DeleteQuestion(old(Tables()), id)
        && nextQuestion == old(nextQuestion) && nextAnswer == old(nextAnswer) && nextComment == old(nextComment)
    {
      if id !in questions {
        return Failed(NotFound);
      }
      var inst := new Instance.Load(questions[id].post);
      if inst.Owner() != UserOwner(actor) {
        return Failed(PermissionDenied);
      }
      var after := DeleteQuestion(Tables(), id);
      DeleteQuestionCascades(Tables(), id);
      SubDbValid(after);
      Store(after);
      resp := Redirect(IndexUrl);
    }

    /** `AnswerCreateView.form_valid`; the success URL anchors the new answer on the question page. */
    method AnswerCreate(actor: UserId, questionId: QuestionId, content: string, now: nat) returns (resp: Response)
      requires Valid()
      modifies this
      ensures Valid()
      ensures questionId !in old(questions) ==> resp == Failed(IntegrityError) && unchanged(this)
      ensures questionId in old(questions) ==>
        && old(nextAnswer) !in old(answers)
        && resp == Redirect(DetailUrl(questionId, AnswerAnchor(old(nextAnswer))))
        && answers == old(answers)[old(nextAnswer) := Answer(Created(actor, now), questionId, content)]
        && questions == old(questions) && comments == old(comments)
        && nextAnswer == old(nextAnswer) + 1
        && nextQuestion == old(nextQuestion) && nextComment == old(nextComment)
    {
      var inst := new Instance.Blank();
      var raised := inst.SetOwner(UserValue(actor));
      inst.createdBy := Some(actor);
      inst.modifiedBy := Some(actor);
      if questionId !in questions {
        return Failed(IntegrityError);
      }
      var id := nextAnswer;
      answers := answers[id := Answer(inst.Row(now, now, {}), questionId, content)];
      nextAnswer := nextAnswer + 1;
      resp := Redirect(DetailUrl(questionId, AnswerAnchor(id)));
    }

    /** `AnswerModifyView`: the owner check, then `form_valid`, then the anchored redirect. */
    method AnswerModify(actor: UserId, id: AnswerId, content: string, now: nat) returns (resp: Response)
      requires Valid()
      modifies this
      ensures Valid()
      ensures id !in old(answers) ==> resp == Failed(NotFound) && unchanged(this)
      ensures id in old(answers) && !MayModify(old(answers)[id].post.slots, actor) ==>
        resp == Failed(PermissionDenied) && unchanged(this)
      ensures id in old(answers) && MayModify(old(answers)[id].post.slots, actor) ==>
        && resp == Redirect(DetailUrl(old(answers)[id].question, AnswerAnchor(id)))
        && answers == old(answers)[id := old(answers)[id].(post := Modified(old(answers)[id].post, actor, now), content := content)]
        && questions == old(questions) && comments == old(comments)
        && nextQuestion == old(nextQuestion) && nextAnswer == old(nextAnswer) && nextComment == old(nextComment)
    {
      if id !in answers {
        return Failed(NotFound);
      }
      var row := answers[id];
      var inst := new Instance.Load(row.post);
      if inst.Owner() != UserOwner(actor) {
        return Failed(PermissionDenied);
      }
      var raised := inst.SetOwner(UserValue(actor));
      inst.modifiedBy := Some(actor);
      answers := answers[id := Answer(inst.Row(row.post.createdOn, now, row.post.voters), row.question, content)];
      resp := Redirect(DetailUrl(row.question, AnswerAnchor(id)));
    }

    /** `AnswerDeleteView`: the owner check, the redirect target, then the cascade. */
    method AnswerDelete(actor: UserId, id: AnswerId) returns (resp: Response)
      requires Valid()
      modifies this
      ensures Valid()
      ensures id !in old(answers) ==> resp == Failed(NotFound) && unchanged(this)
      ensures id in old(answers) && !MayModify(old(answers)[id].post.slots, actor) ==>
        resp == Failed(PermissionDenied) && unchanged(this)
      ensures id in old(answers) && MayModify(old(answers)[id].post.slots, actor) ==>
        && resp == Redirect(DetailUrl(old(answers)[id].question, NoAnchor))
        && Tables() == DeleteAnswer(old(Tables()), id)
        && nextQuestion == old(nextQuestion) && nextAnswer == old(nextAnswer) && nextComment == old(nextComment)
    {
      if id !in answers {
        return Failed(NotFound);
      }
      var row := answers[id];
      var inst := new Instance.Load(row.post);
      if inst.Owner() != UserOwner(actor) {
        return Failed(PermissionDenied);
      }
      resp := Redirect(DetailUrl(row.question, NoAnchor));
      var after := DeleteAnswer(Tables(), id);
      DeleteAnswerCascades(Tables(), id);
      SubDbValid(after);
      Store(after);
    }

    /** `CommentCreateQuestionView.form_valid`. */
    method CommentCreateQuestion(actor: UserId, questionId: QuestionId, content: string, now: nat)
      returns (resp: Response)
      requires Valid()
      modifies this
      ensures Valid()
      ensures questionId !in old(questions) ==> resp == Failed(IntegrityError) && unchanged(this)
      ensures questionId in old(questions) ==>
        && old(nextComment) !in old(comments)
        && resp == Redirect(DetailUrl(questionId, CommentAnchor(old(nextComment))))
        && comments == old(comments)[old(nextComment) := Comment(Created(actor, now), Some(questionId), None, content)]
        && questions == old(questions) && answers == old(answers)
        && nextComment == old(nextComment) + 1
        && nextQuestion == old(nextQuestion) && nextAnswer == old(nextAnswer)
    {
      var inst := new Instance.Blank();
      var raised := inst.SetOwner(UserValue(actor));
      inst.createdBy := Some(actor);
      inst.modifiedBy := Some(actor);
      if questionId !in questions {
        return Failed(IntegrityError);
      }
      var id := nextComment;
      comments := comments[id := Comment(inst.Row(now, now, {}), Some(questionId), None, content)];
      nextComment := nextComment + 1;
      resp := Redirect(DetailUrl(questionId, CommentAnchor(id)));
    }

    /** `CommentCreateAnswerView.form_valid`: the answer is looked up (404 if it is missing). */
    method CommentCreateAnswer(actor: UserId, answerId: AnswerId, content: string, now: nat)
      returns (resp: Response)
      requires Valid()
      modifies this
      ensures Valid()
      ensures answerId !in old(answers) ==> resp == Failed(NotFound) && unchanged(this)
      ensures answerId in old(answers) ==>
        && old(nextComment) !in old(comments)
        && resp == Redirect(DetailUrl(old(answers)[answerId].question, CommentAnchor(old(nextComment))))
        && comments == old(comments)[old(nextComment) := Comment(Created(actor, now), None, Some(answerId), content)]
        && questions == old(questions) && answers == old(answers)
        && nextComment == old(nextComment) + 1
        && nextQuestion == old(nextQuestion) && nextAnswer == old(nextAnswer)
    {
      var inst := new Instance.Blank();
      var raised := inst.SetOwner(UserValue(actor));
      inst.createdBy := Some(actor);
      inst.modifiedBy := Some(actor);
      if answerId !in answers {
        return Failed(NotFound);
      }
      var id := nextComment;
      comments := comments[id := Comment(inst.Row(now, now, {}), None, Some(answerId), content)];
      nextComment := nextComment + 1;
      resp := Redirect(DetailUrl(answers[answerId].question, CommentAnchor(id)));
    }

    /** The owner check and `form_valid` shared by the two comment modify views. */
    method CommentSave(actor: UserId, id: CommentId, content: string, now: nat) returns (saved: bool)
      requires Valid() && id in comments
      modifies this
      ensures Valid()
      ensures saved <==> MayModify(old(comments)[id].post.slots, actor)
      ensures !saved ==> unchanged(this)
      ensures saved ==>
        && comments == old(comments)[id := old(comments)[id].(post := Modified(old(comments)[id].post, actor, now), content := content)]
        && questions == old(questions) && answers == old(answers)
        && nextQuestion == old(nextQuestion) && nextAnswer == old(nextAnswer) && nextComment == old(nextComment)
    {
      var row := comments[id];
      var inst := new Instance.Load(row.post);
      if inst.Owner() != UserOwner(actor) {
        return false;
      }
      var raised := inst.SetOwner(UserValue(actor));
      inst.modifiedBy := Some(actor);
      comments := comments[id := Comment(inst.Row(row.post.createdOn, now, row.post.voters), row.question, row.answer, content)];
      saved := true;
    }

    /**
     * `CommentModifyQuestionView`: the success URL reads `comment.question`, so a comment that
     * hangs off an answer is saved and the request then fails.
     */
    method CommentModifyQuestion(actor: UserId, id: CommentId, content: string, now: nat) returns (resp: Response)
      requires Valid()
      modifies this
      ensures Valid()
      ensures id !in old(comments) ==> resp == Failed(NotFound) && unchanged(this)
      ensures id in old(comments) && !MayModify(old(comments)[id].post.slots, actor) ==>
        resp == Failed(PermissionDenied) && unchanged(this)
      ensures id in old(comments) && MayModify(old(comments)[id].post.slots, actor) ==>
        && comments == old(comments)[id := old(comments)[id].(post := Modified(old(comments)[id].post, actor, now), content := content)]
        && questions == old(questions) && answers == old(answers)
        && nextQuestion == old(nextQuestion) && nextAnswer == old(nextAnswer) && nextComment == old(nextComment)
        && resp == match old(comments)[id].question
                   case Some(q) => Redirect(DetailUrl(q, CommentAnchor(id)))
                   case None => Failed(ServerError)
    {
      if id !in comments {
        return Failed(NotFound);
      }
      var row := comments[id];
      var saved := CommentSave(actor, id, content, now);
      if !saved {
        return Failed(PermissionDenied);
      }
      match row.question {
        case Some(q) => resp := Redirect(DetailUrl(q, CommentAnchor(id)));
        case None => resp := Failed(ServerError);
      }
    }

    /**
     * `CommentModifyAnswerView`: the success URL reads `comment.answer.question`, so a comment
     * that hangs off a question is saved and the request then fails.
     */
    method CommentModifyAnswer(actor: UserId, id: CommentId, content: string, now: nat) returns (resp: Response)
      requires Valid()
      modifies this
      ensures Valid()
      ensures id !in old(comments) ==> resp == Failed(NotFound) && unchanged(this)
      ensures id in old(comments) && !MayModify(old(comments)[id].post.slots, actor) ==>
        resp == Failed(PermissionDenied) && unchanged(this)
      ensures id in old(comments) && MayModify(old(comments)[id].post.slots, actor) ==>
        && comments == old(comments)[id := old(comments)[id].(post := Modified(old(comments)[id].post, actor, now), content := content)]
        && questions == old(questions) && answers == old(answers)
        && nextQuestion == old(nextQuestion) && nextAnswer == old(nextAnswer) && nextComment == old(nextComment)
        && resp == match old(comments)[id].answer
                   case Some(a) => Redirect(DetailUrl(old(answers)[a].question, CommentAnchor(id)))
                   case None => Failed(ServerError)
    {
      if id !in comments {
        return Failed(NotFound);
      }
      var row := comments[id];
      var saved := CommentSave(actor, id, content, now);
      if !saved {
        return Failed(PermissionDenied);
      }
      match row.answer {
        case Some(a) =>
          assert ParentStored(old(Tables()), row);
          resp := Redirect(DetailUrl(answers[a].question, CommentAnchor(id)));
        case None => resp := Failed(ServerError);
      }
    }

    /**
     * `CommentDeleteQuestionView`: the success URL (through `comment.question`) is computed
     * before the row is deleted, so a comment on an answer is left in place and the request fails.
     */
    method CommentDeleteQuestion(actor: UserId, id: CommentId) returns (resp: Response)
      requires Valid()
      modifies this
      ensures Valid()
      ensures id !in old(comments) ==> resp == Failed(NotFound) && unchanged(this)
      ensures id in old(comments) && !MayModify(old(comments)[id].post.slots, actor) ==>
        resp == Failed(PermissionDenied) && unchanged(this)
      ensures id in old(comments) && MayModify(old(comments)[id].post.slots, actor) ==>
        match old(comments)[id].question
        case Some(q) =>
          && resp == Redirect(DetailUrl(q, NoAnchor))
          && Tables() == DeleteComment(old(Tables()), id)
          && nextQuestion == old(nextQuestion) && nextAnswer == old(nextAnswer) && nextComment == old(nextComment)
        case None => resp == Failed(ServerError) && unchanged(this)
    {
      if id !in comments {
        return Failed(NotFound);
      }
      var row := comments[id];
      var inst := new Instance.Load(row.post);
      if inst.Owner() != UserOwner(actor) {
        return Failed(PermissionDenied);
      }
      if row.question == None {
        return Failed(ServerError);
      }
      resp := Redirect(DetailUrl(row.question.value, NoAnchor));
      var after := DeleteComment(Tables(), id);
      DeleteCommentOnly(Tables(), id);
      Store(after);
    }

    /**
     * `CommentDeleteAnswerView`: the success URL goes through `comment.answer.question`, before
     * the row is deleted.
     */
    method CommentDeleteAnswer(actor: UserId, id: CommentId) returns (resp: Response)
      requires Valid()
      modifies this
      ensures Valid()
      ensures id !in old(comments) ==> resp == Failed(NotFound) && unchanged(this)
      ensures id in old(comments) && !MayModify(old(comments)[id].post.slots, actor) ==>
        resp == Failed(PermissionDenied) && unchanged(this)
      ensures id in old(comments) && MayModify(old(comments)[id].post.slots, actor) ==>
        match old(comments)[id].answer
        case Some(a) =>
          && a in old(answers)
          && resp == Redirect(DetailUrl(old(answers)[a].question, NoAnchor))
          && Tables() == DeleteComment(old(Tables()), id)
          && nextQuestion == old(nextQuestion) && nextAnswer == old(nextAnswer) && nextComment == old(nextComment)
        case None => resp == Failed(ServerError) && unchanged(this)
    {
      if id !in comments {
        return Failed(NotFound);
      }
      var row := comments[id];
      var inst := new Instance.Load(row.post);
      if inst.Owner() != UserOwner(actor) {
        return Failed(PermissionDenied);
      }
      if row.answer == None {
        return Failed(ServerError);
      }
      assert ParentStored(Tables(), row);
      resp := Redirect(DetailUrl(answers[row.answer.value].question, NoAnchor));
      var after := DeleteComment(Tables(), id);
      DeleteCommentOnly(Tables(), id);
      Store(after);
    }

    /** `VoteQuestionView.get`: refuse a self-vote, otherwise add the actor to the voters. */
    method VoteQuestion(actor: UserId, id: QuestionId) returns (resp: Response, errorShown: bool)
      requires Valid()
      modifies this
      ensures Valid()
      ensures id !in old(questions) ==> resp == Failed(NotFound) && !errorShown && unchanged(this)
      ensures id in old(questions) ==>
        var row := old(questions)[id];
        var (after, refused) := CastVote(row.post.voters, row.post.slots, actor);
        && resp == Redirect(DetailUrl(id, NoAnchor))
        && errorShown == refused
        && questions == old(questions)[id := row.(post := row.post.(voters := after))]
        && answers == old(answers) && comments == old(comments)
        && nextQuestion == old(nextQuestion) && nextAnswer == old(nextAnswer) && nextComment == old(nextComment)
    {
      if id !in questions {
        return Failed(NotFound), false;
      }
      var row := questions[id];
      var inst := new Instance.Load(row.post);
      errorShown := inst.Owner() == UserOwner(actor);
      if !errorShown {
        questions := questions[id := row.(post := row.post.(voters := row.post.voters + {actor}))];
      }
      resp := Redirect(DetailUrl(id, NoAnchor));
    }

    /** `VoteAnswerView.get`: the same rule; the redirect goes to the answer's question. */
    method VoteAnswer(actor: UserId, id: AnswerId) returns (resp: Response, errorShown: bool)
      requires Valid()
      modifies this
      ensures Valid()
      ensures id !in old(answers) ==> resp == Failed(NotFound) && !errorShown && unchanged(this)
      ensures id in old(answers) ==>
        var row := old(answers)[id];
        var (after, refused) := CastVote(row.post.voters, row.post.slots, actor);
        && resp == Redirect(DetailUrl(row.question, NoAnchor))
        && errorShown == refused
        && answers == old(answers)[id := row.(post := row.post.(voters := after))]
        && questions == old(questions) && comments == old(comments)
        && nextQuestion == old(nextQuestion) && nextAnswer == old(nextAnswer) && nextComment == old(nextComment)
    {
      if id !in answers {
        return Failed(NotFound), false;
      }
      var row := answers[id];
      var inst := new Instance.Load(row.post);
      errorShown := inst.Owner() == UserOwner(actor);
      if !errorShown {
        answers := answers[id := row.(post := row.post.(voters := row.post.voters + {actor}))];
      }
      resp := Redirect(DetailUrl(row.question, NoAnchor));
    }

    /**
     * `IndexView.get` over the stored questions: at most one page of them, each a stored
     * question with its subject, author and voter count as stored.
     */
    function List(params: Listing.Params, username: UserId -> string): (r: Listing.ListPage)
      reads this
      ensures |r.items| <= Listing.PageSize
      ensures forall e :: e in r.items ==>
        && e.id in questions
        && e.subject == questions[e.id].subject && e.author == questions[e.id].post.createdBy
        && e.voterCount == |questions[e.id].post.voters|
    {
      var s := Listing.Scan(Tables(), nextQuestion, nextAnswer);
      Listing.IndexSpec(s, params, username);
      Listing.Index(s, params, username)
    }

    /**
     * On a valid board, each listed question also carries one author per stored answer, and
     * under a keyword the stored question or one of its stored answers matches.
     */
    lemma ListShowsStore(params: Listing.Params, username: UserId -> string)
      requires Valid()
      ensures var r := List(params, username);
        forall e :: e in r.items ==>
          && e.id in questions
          && |e.answerAuthors| == |AnswersOf(Tables(), e.id)|
          && (r.kw != "" ==> Listing.StoredHit(Tables(), e.id, r.kw, username))
    {
      Listing.IndexOfStore(Tables(), nextQuestion, nextAnswer, params, username);
    }

    /** Every stored question that matches the keyword is shown on some page of the list. */
    lemma ListFindsStored(q: QuestionId, kw: string, so: string, username: UserId -> string)
      requires Valid() && q in questions
      requires kw != "" ==> Listing.StoredHit(Tables(), q, kw, username)
      ensures var e := Listing.EntryOf(Tables(), q, nextAnswer);
        exists p: nat :: 1 <= p && e in List(Listing.Params(Some(NatToString(p)), Some(kw), Some(so)), username).items
    {
      Listing.StoredQuestionListed(Tables(), nextQuestion, nextAnswer, q, kw, so, username);
    }
  }
}
