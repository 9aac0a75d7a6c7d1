/** What stands in the tables after any run of requests, in terms of the requests: each row is what the
    last request that was allowed to write it left. */
module FaithHistory {
  import opened Options
  import opened Text
  import opened LastWrites
  import opened FaithStore

  // Who may write

  predicate HasRole(u: User, name: string) {
    u.role.Some? && Lower(u.role.value) == name
  }

  /** Roles are compared without regard to case. */
  lemma RolesExactly(u: User)
    ensures IsAdmin(u) <==> u.superuser || HasRole(u, "admin")
    ensures IsPublisher(u)
       <==> u.superuser || HasRole(u, "admin") || HasRole(u, "predicateur") || HasRole(u, "evangeliste")
  {
  }

  // Friendships

  /** Request `i` is an answer to the friend request `f` by the user it was sent to. */
  ghost predicate Answers(users: map<Id, User>, rs: seq<Request>, f: Id, i: nat, accept: bool)
    requires i < |rs|
  {
    var fs := After(users, rs, i).friendships;
    f in fs && rs[i] == (fs[f].addressee, Respond(f, accept))
  }

  ghost predicate NoAnswer(users: map<Id, User>, rs: seq<Request>, f: Id, from: nat, n: nat)
    requires n <= |rs|
  {
    forall i | from <= i < n :: !Answers(users, rs, f, i, true) && !Answers(users, rs, f, i, false)
  }

  /** The last answer to `f` among the first `n` requests. */
  ghost predicate LastAnswer(users: map<Id, User>, rs: seq<Request>, f: Id, n: nat, accept: bool)
    requires n <= |rs|
  {
    exists i :: 0 <= i < n && Answers(users, rs, f, i, accept) && NoAnswer(users, rs, f, i + 1, n)
  }

  /** One request: an answer by the addressee is stored, nothing else changes a friendship. */
  lemma FriendshipStep(s: State, actor: Id, op: Op, f: Id)
    requires f in Step(s, actor, op).0.friendships
    ensures var g := Step(s, actor, op).0.friendships[f];
            if f !in s.friendships then g.status == Pending
            else if op.Respond? && op.id == f && actor == s.friendships[f].addressee then
              g == s.friendships[f].(status := if op.accept then Accepted else Rejected)
            else g == s.friendships[f]
  {
    hide Publish, ReviseSermon, RemoveSermon, Toggle, CommentOn, RemoveComment, Ask, ReviseQuestion,
         RemoveQuestion, AnswerQuestion, RemoveAnswer, Publishes, OwnerOrAdmin;
    match op {
      case SendRequest(_, _) =>
      case Respond(_, _) =>
      case _ =>
    }
  }

  /** Before a friendship is there it has no answer. */
  lemma NotYetAnswered(users: map<Id, User>, rs: seq<Request>, f: Id, n: nat)
    requires n <= |rs| && f !in After(users, rs, n).friendships
    ensures NoAnswer(users, rs, f, 0, n)
  {
    forall i | 0 <= i < n
      ensures f !in After(users, rs, i).friendships
    {
      if f in After(users, rs, i).friendships {
        FriendshipsStay(users, rs, f, i, n);
      }
    }
  }

  /** What the last answer left. */
  ghost predicate StatusExplained(users: map<Id, User>, rs: seq<Request>, f: Id, n: nat, status: Status)
    requires n <= |rs|
  {
    match status
    case Accepted => LastAnswer(users, rs, f, n, true)
    case Rejected => LastAnswer(users, rs, f, n, false)
    case Pending => NoAnswer(users, rs, f, 0, n)
  }

  lemma ExplainedNext(users: map<Id, User>, rs: seq<Request>, f: Id, n: nat, status: Status)
    requires n < |rs| && StatusExplained(users, rs, f, n, status)
    requires !Answers(users, rs, f, n, true) && !Answers(users, rs, f, n, false)
    ensures StatusExplained(users, rs, f, n + 1, status)
  {
    hide Answers;
    if !status.Pending? {
      var accept := status.Accepted?;
      var i :| 0 <= i < n && Answers(users, rs, f, i, accept) && NoAnswer(users, rs, f, i + 1, n);
      assert NoAnswer(users, rs, f, i + 1, n + 1);
    }
  }

  lemma {:induction false} StatusHasReason(users: map<Id, User>, rs: seq<Request>, f: Id, n: nat)
    requires n <= |rs| && f in After(users, rs, n).friendships
    ensures StatusExplained(users, rs, f, n, After(users, rs, n).friendships[f].status)
  {
    var s := After(users, rs, n - 1);
    var (actor, op) := rs[n - 1];
    FriendshipStep(s, actor, op, f);
    if op.Respond? && Answers(users, rs, f, n - 1, op.accept) {
      assert NoAnswer(users, rs, f, n - 1 + 1, n);
      assert LastAnswer(users, rs, f, n, op.accept);
    } else {
      if f in s.friendships {
        StatusHasReason(users, rs, f, n - 1);
      } else {
        NotYetAnswered(users, rs, f, n - 1);
      }
      ExplainedNext(users, rs, f, n - 1, After(users, rs, n).friendships[f].status);
    }
  }

  /** An answer is one or the other. */
  lemma OneReason(users: map<Id, User>, rs: seq<Request>, f: Id, n: nat, a: Status, b: Status)
    requires n <= |rs| && StatusExplained(users, rs, f, n, a) && StatusExplained(users, rs, f, n, b)
    ensures a == b
  {
  }

  /** After every run a friendship is accepted if and only if the last answer of its addressee accepted it,
      rejected if and only if that answer rejected it, and pending if and only if there was none. */
  lemma StatusExactly(users: map<Id, User>, rs: seq<Request>, f: Id, n: nat)
    requires n <= |rs| && f in After(users, rs, n).friendships
    ensures var status := After(users, rs, n).friendships[f].status;
            && (status == Accepted <==> LastAnswer(users, rs, f, n, true))
            && (status == Rejected <==> LastAnswer(users, rs, f, n, false))
            && (status == Pending <==> NoAnswer(users, rs, f, 0, n))
  {
    StatusHasReason(users, rs, f, n);
    var status := After(users, rs, n).friendships[f].status;
    forall other | StatusExplained(users, rs, f, n, other)
      ensures other == status
    {
      OneReason(users, rs, f, n, status, other);
    }
    assert StatusExplained(users, rs, f, n, Accepted) <==> LastAnswer(users, rs, f, n, true);
    assert StatusExplained(users, rs, f, n, Rejected) <==> LastAnswer(users, rs, f, n, false);
    assert StatusExplained(users, rs, f, n, Pending) <==> NoAnswer(users, rs, f, 0, n);
  }

  // What a request may write

  predicate Administers(s: State, actor: Id) {
    actor in s.users && (s.users[actor].superuser || HasRole(s.users[actor], "admin"))
  }

  predicate MayPublish(s: State, actor: Id) {
    Administers(s, actor)
    || (actor in s.users && (HasRole(s.users[actor], "predicateur") || HasRole(s.users[actor], "evangeliste")))
  }

  lemma RightsExactly(s: State, actor: Id, owner: Id)
    ensures OwnerOrAdmin(s, actor, owner) <==> actor == owner || Administers(s, actor)
    ensures Publishes(s, actor) <==> MayPublish(s, actor)
  {
    if actor in s.users {
      RolesExactly(s.users[actor]);
    }
  }

  predicate MayEdit(s: State, actor: Id, owner: Id) {
    actor == owner || Administers(s, actor)
  }

  predicate DropsSermon(s: State, actor: Id, op: Op, id: Id) {
    op == DeleteSermon(id) && id in s.sermons && MayEdit(s, actor, s.sermons[id].owner)
  }

  predicate DropsQuestion(s: State, actor: Id, op: Op, id: Id) {
    op == DeleteQuestion(id) && id in s.questions && MayEdit(s, actor, s.questions[id].owner)
  }

  /** Publishers create sermons; the owner or an administrator changes the text or deletes. */
  function SermonWrite(s: State, actor: Id, op: Op, id: Id): Write<Sermon> {
    if id !in s.sermons then
      if op.CreateSermon? && op.newId == id && MayPublish(s, actor) then Some(Some(Sermon(actor, op.text))) else None
    else if DropsSermon(s, actor, op, id) then Some(None)
    else if op.UpdateSermon? && op.id == id && MayEdit(s, actor, s.sermons[id].owner) then
      Some(Some(Sermon(s.sermons[id].owner, op.text)))
    else None
  }

  /** Anyone comments on a sermon that is there; the author or an administrator deletes the comment, and
      deleting the sermon does. */
  function CommentWrite(s: State, actor: Id, op: Op, id: Id): Write<Comment> {
    if id !in s.comments then
      if op.AddComment? && op.newId == id && op.sermon in s.sermons then
        Some(Some(Comment(actor, op.sermon, op.text)))
      else None
    else if DropsSermon(s, actor, op, s.comments[id].sermon)
         || (op == DeleteComment(id) && MayEdit(s, actor, s.comments[id].author)) then Some(None)
    else None
  }

  /** Anyone asks; the owner or an administrator changes the text or deletes; an answer of a publisher,
      under a new identifier, marks the question. */
  function QuestionWrite(s: State, actor: Id, op: Op, id: Id): Write<Question> {
    if id !in s.questions then
      if op.CreateQuestion? && op.newId == id then Some(Some(Question(actor, op.text, false))) else None
    else if DropsQuestion(s, actor, op, id) then Some(None)
    else if op.UpdateQuestion? && op.id == id && MayEdit(s, actor, s.questions[id].owner) then
      Some(Some(Question(s.questions[id].owner, op.text, s.questions[id].answered)))
    else if op.AddAnswer? && op.question == id && op.newId !in s.answers && MayPublish(s, actor) then
      Some(Some(Question(s.questions[id].owner, s.questions[id].text, true)))
    else None
  }

  /** Publishers answer a question that is there; the author or an administrator deletes the answer, and
      deleting the question does. */
  function AnswerWrite(s: State, actor: Id, op: Op, id: Id): Write<Answer> {
    if id !in s.answers then
      if op.AddAnswer? && op.newId == id && op.question in s.questions && MayPublish(s, actor) then
        Some(Some(Answer(actor, op.question, op.text)))
      else None
    else if DropsQuestion(s, actor, op, s.answers[id].question)
         || (op == DeleteAnswer(id) && MayEdit(s, actor, s.answers[id].author)) then Some(None)
    else None
  }

  /** A user asks another user with whom there is no friendship; only the addressee answers. */
  function FriendshipWrite(s: State, actor: Id, op: Op, id: Id): Write<Friendship> {
    if id !in s.friendships then
      if op.SendRequest? && op.newId == id && op.addressee != actor && op.addressee in s.users
         && !Befriended(s, actor, op.addressee) then
        Some(Some(Friendship(actor, op.addressee, Pending)))
      else None
    else if op.Respond? && op.id == id && actor == s.friendships[id].addressee then
      Some(Some(Friendship(s.friendships[id].requester, actor, if op.accept then Accepted else Rejected)))
    else None
  }

  /** There is a request between the two, whoever sent it. */
  predicate Befriended(s: State, a: Id, b: Id) {
    exists i | i in s.friendships :: {s.friendships[i].requester, s.friendships[i].addressee} == {a, b}
  }

  lemma LinksExactly(f: Friendship, a: Id, b: Id)
    ensures Links(f, a, b) <==> {f.requester, f.addressee} == {a, b}
  {
    assert Links(f, a, b) ==> {f.requester, f.addressee} == {a, b};
    if {f.requester, f.addressee} == {a, b} {
      assert f.requester in {a, b} && f.addressee in {a, b};
      assert a in {f.requester, f.addressee} && b in {f.requester, f.addressee};
    }
  }

  lemma BefriendedExactly(s: State, a: Id, b: Id)
    ensures HasFriendship(s, a, b) <==> Befriended(s, a, b)
  {
    forall i | i in s.friendships
      ensures Links(s.friendships[i], a, b) <==> {s.friendships[i].requester, s.friendships[i].addressee} == {a, b}
    {
      LinksExactly(s.friendships[i], a, b);
    }
    hide Links;
  }

  /** In every reached state, a friendship is between two users, and no other is between the same two. */
  lemma OneForEachPair(users: map<Id, User>, rs: seq<Request>, n: nat, i: Id, j: Id)
    requires n <= |rs| && i in After(users, rs, n).friendships && j in After(users, rs, n).friendships
    ensures var f, g := After(users, rs, n).friendships[i], After(users, rs, n).friendships[j];
            && f.requester != f.addressee
            && ({f.requester, f.addressee} == {g.requester, g.addressee} ==> i == j)
  {
    ReachableConsistent(users, rs, n);
    var fs := After(users, rs, n).friendships;
    LinksExactly(fs[i], fs[j].requester, fs[j].addressee);
    hide After, LikesOnce, ParentsExist, AnsweredAreMarked, Links;
  }

  datatype Mark = Mark

  /** A user's toggle turns their like of a sermon on, under a new identifier, or off; deleting the sermon
      turns it off. */
  function LikeWrite(s: State, actor: Id, op: Op, user: Id, sermon: Id): Write<Mark> {
    if DropsSermon(s, actor, op, sermon) then Some(None)
    else if op.ToggleLike? && op.sermon == sermon && actor == user && sermon in s.sermons then
      if LikeAt(s, user, sermon).Some? then Some(None) else if op.newId !in s.likes then Some(Some(Mark)) else None
    else None
  }

  // One request

  function At<V>(rows: map<Id, V>, id: Id): Option<V> {
    if id in rows then Some(rows[id]) else None
  }

  function LikeAt(s: State, user: Id, sermon: Id): Option<Mark> {
    if Like(user, sermon) in s.likes.Values then Some(Mark) else None
  }

  lemma SermonStep(s: State, actor: Id, op: Op, id: Id)
    ensures At(Step(s, actor, op).0.sermons, id) == Written(At(s.sermons, id), SermonWrite(s, actor, op, id))
  {
    if id in s.sermons {
      RightsExactly(s, actor, s.sermons[id].owner);
    }
    RightsExactly(s, actor, actor);
    hide Toggle, CommentOn, RemoveComment, Ask, ReviseQuestion, RemoveQuestion, AnswerQuestion, RemoveAnswer,
         Befriend, Answered, Publishes, OwnerOrAdmin, Administers, MayPublish;
  }

  lemma CommentDropped(s: State, actor: Id, sermon: Id, id: Id)
    requires ParentsExist(s)
    ensures At(RemoveSermon(s, actor, sermon).0.comments, id)
         == Written(At(s.comments, id), CommentWrite(s, actor, DeleteSermon(sermon), id))
  {
    if sermon in s.sermons {
      RightsExactly(s, actor, s.sermons[sermon].owner);
    }
    hide OwnerOrAdmin, Administers;
  }

  lemma CommentDeleted(s: State, actor: Id, comment: Id, id: Id)
    ensures At(RemoveComment(s, actor, comment).0.comments, id)
         == Written(At(s.comments, id), CommentWrite(s, actor, DeleteComment(comment), id))
  {
    if comment in s.comments {
      RightsExactly(s, actor, s.comments[comment].author);
    }
    hide OwnerOrAdmin, Administers;
  }

  lemma CommentStep(s: State, actor: Id, op: Op, id: Id)
    requires ParentsExist(s)
    ensures At(Step(s, actor, op).0.comments, id) == Written(At(s.comments, id), CommentWrite(s, actor, op, id))
  {
    hide Publish, ReviseSermon, RemoveSermon, Toggle, RemoveComment, Ask, ReviseQuestion, RemoveQuestion,
         AnswerQuestion, RemoveAnswer, Befriend, Answered, ParentsExist, MayEdit;
    match op {
      case DeleteSermon(sermon) => CommentDropped(s, actor, sermon, id);
      case DeleteComment(comment) => CommentDeleted(s, actor, comment, id);
      case _ =>
    }
  }

  lemma QuestionDropped(s: State, actor: Id, question: Id, id: Id)
    ensures At(RemoveQuestion(s, actor, question).0.questions, id)
         == Written(At(s.questions, id), QuestionWrite(s, actor, DeleteQuestion(question), id))
  {
    if question in s.questions {
      RightsExactly(s, actor, s.questions[question].owner);
    }
    hide OwnerOrAdmin, Administers;
  }

  lemma QuestionRevised(s: State, actor: Id, question: Id, text: string, id: Id)
    ensures At(ReviseQuestion(s, actor, question, text).0.questions, id)
         == Written(At(s.questions, id), QuestionWrite(s, actor, UpdateQuestion(question, text), id))
  {
    if question in s.questions {
      RightsExactly(s, actor, s.questions[question].owner);
    }
    hide OwnerOrAdmin, Administers;
  }

  lemma QuestionMarked(s: State, actor: Id, question: Id, newId: Id, text: string, id: Id)
    ensures At(AnswerQuestion(s, actor, question, newId, text).0.questions, id)
         == Written(At(s.questions, id), QuestionWrite(s, actor, AddAnswer(question, newId, text), id))
  {
    RightsExactly(s, actor, actor);
    hide Publishes, MayPublish;
  }

  lemma QuestionStep(s: State, actor: Id, op: Op, id: Id)
    ensures At(Step(s, actor, op).0.questions, id) == Written(At(s.questions, id), QuestionWrite(s, actor, op, id))
  {
    hide Publish, ReviseSermon, RemoveSermon, Toggle, CommentOn, RemoveComment, ReviseQuestion, RemoveQuestion,
         AnswerQuestion, RemoveAnswer, Befriend, Answered, MayEdit, MayPublish;
    match op {
      case DeleteQuestion(question) => QuestionDropped(s, actor, question, id);
      case UpdateQuestion(question, text) => QuestionRevised(s, actor, question, text, id);
      case AddAnswer(question, newId, text) => QuestionMarked(s, actor, question, newId, text, id);
      case _ =>
    }
  }

  lemma AnswerDropped(s: State, actor: Id, question: Id, id: Id)
    requires ParentsExist(s)
    ensures At(RemoveQuestion(s, actor, question).0.answers, id)
         == Written(At(s.answers, id), AnswerWrite(s, actor, DeleteQuestion(question), id))
  {
    if question in s.questions {
      RightsExactly(s, actor, s.questions[question].owner);
    }
    hide OwnerOrAdmin, Administers;
  }

  lemma AnswerDeleted(s: State, actor: Id, answer: Id, id: Id)
    ensures At(RemoveAnswer(s, actor, answer).0.answers, id)
         == Written(At(s.answers, id), AnswerWrite(s, actor, DeleteAnswer(answer), id))
  {
    if answer in s.answers {
      RightsExactly(s, actor, s.answers[answer].author);
    }
    hide OwnerOrAdmin, Administers;
  }

  lemma AnswerAdded(s: State, actor: Id, question: Id, newId: Id, text: string, id: Id)
    ensures At(AnswerQuestion(s, actor, question, newId, text).0.answers, id)
         == Written(At(s.answers, id), AnswerWrite(s, actor, AddAnswer(question, newId, text), id))
  {
    RightsExactly(s, actor, actor);
    hide Publishes, MayPublish;
  }

  lemma AnswerStep(s: State, actor: Id, op: Op, id: Id)
    requires ParentsExist(s)
    ensures At(Step(s, actor, op).0.answers, id) == Written(At(s.answers, id), AnswerWrite(s, actor, op, id))
  {
    hide Publish, ReviseSermon, RemoveSermon, Toggle, CommentOn, RemoveComment, Ask, ReviseQuestion, RemoveQuestion,
         AnswerQuestion, RemoveAnswer, Befriend, Answered, ParentsExist, MayEdit, MayPublish;
    match op {
      case DeleteQuestion(question) => AnswerDropped(s, actor, question, id);
      case DeleteAnswer(answer) => AnswerDeleted(s, actor, answer, id);
      case AddAnswer(question, newId, text) => AnswerAdded(s, actor, question, newId, text, id);
      case _ =>
    }
  }

  lemma FriendshipRowStep(s: State, actor: Id, op: Op, id: Id)
    ensures At(Step(s, actor, op).0.friendships, id)
         == Written(At(s.friendships, id), FriendshipWrite(s, actor, op, id))
  {
    if op.SendRequest? {
      BefriendedExactly(s, actor, op.addressee);
    }
    hide Publish, ReviseSermon, RemoveSermon, Toggle, CommentOn, RemoveComment, Ask, ReviseQuestion,
         RemoveQuestion, AnswerQuestion, RemoveAnswer, Publishes, OwnerOrAdmin, HasFriendship, Befriended;
  }

  lemma LikeAtExactly(s: State, user: Id, sermon: Id)
    ensures LikeAt(s, user, sermon) == if HasLike(s, user, sermon) then Some(Mark) else None
  {
    if i :| i in s.likes && LikedBy(s.likes[i], user, sermon) {
      assert s.likes[i] in s.likes.Values;
    }
    if Like(user, sermon) in s.likes.Values {
      var i :| i in s.likes && s.likes[i] == Like(user, sermon);
      assert LikedBy(s.likes[i], user, sermon);
    }
  }

  lemma LikeToggled(s: State, actor: Id, sermon: Id, newId: Id, user: Id, any: Id)
    ensures LikeAt(Toggle(s, actor, sermon, newId).0, user, any)
         == Written(LikeAt(s, user, any), LikeWrite(s, actor, ToggleLike(sermon, newId), user, any))
  {
    var t := Toggle(s, actor, sermon, newId).0;
    LikeAtExactly(s, user, any);
    LikeAtExactly(t, user, any);
    LikeAtExactly(s, actor, sermon);
    hide LikeAt;
    if i :| i in s.likes && LikedBy(s.likes[i], user, any) && i in t.likes {
      assert t.likes[i] == s.likes[i];
    }
    if t.likes != s.likes && !HasLike(s, actor, sermon) {
      assert LikedBy(t.likes[newId], actor, sermon);
    }
  }

  lemma LikeDropped(s: State, actor: Id, id: Id, user: Id, any: Id)
    requires ParentsExist(s)
    ensures LikeAt(RemoveSermon(s, actor, id).0, user, any)
         == Written(LikeAt(s, user, any), LikeWrite(s, actor, DeleteSermon(id), user, any))
  {
    var t := RemoveSermon(s, actor, id).0;
    if id in s.sermons {
      RightsExactly(s, actor, s.sermons[id].owner);
    }
    LikeAtExactly(s, user, any);
    LikeAtExactly(t, user, any);
    hide OwnerOrAdmin, Administers, LikeAt;
    if i :| i in s.likes && LikedBy(s.likes[i], user, any) && i in t.likes {
      assert t.likes[i] == s.likes[i];
    }
  }

  lemma LikeStep(s: State, actor: Id, op: Op, user: Id, sermon: Id)
    requires ParentsExist(s)
    ensures LikeAt(Step(s, actor, op).0, user, sermon)
         == Written(LikeAt(s, user, sermon), LikeWrite(s, actor, op, user, sermon))
  {
    hide Publish, ReviseSermon, RemoveSermon, Toggle, CommentOn, RemoveComment, Ask, ReviseQuestion, RemoveQuestion,
         AnswerQuestion, RemoveAnswer, Befriend, Answered, ParentsExist;
    match op {
      case ToggleLike(any, newId) => LikeToggled(s, actor, any, newId, user, sermon);
      case DeleteSermon(id) => LikeDropped(s, actor, id, user, sermon);
      case _ => assert Step(s, actor, op).0.likes == s.likes;
    }
  }

  // Runs

  /** What requests do to one row, as a function of the tables before. */
  type Writer<!V> = (State, Id, Op) -> Write<V>

  function Sermons(id: Id): Writer<Sermon> {
    (s: State, actor: Id, op: Op) => SermonWrite(s, actor, op, id)
  }

  function Comments(id: Id): Writer<Comment> {
    (s: State, actor: Id, op: Op) => CommentWrite(s, actor, op, id)
  }

  function Questions(id: Id): Writer<Question> {
    (s: State, actor: Id, op: Op) => QuestionWrite(s, actor, op, id)
  }

  function AnswersTo(id: Id): Writer<Answer> {
    (s: State, actor: Id, op: Op) => AnswerWrite(s, actor, op, id)
  }

  function Friendships(id: Id): Writer<Friendship> {
    (s: State, actor: Id, op: Op) => FriendshipWrite(s, actor, op, id)
  }

  function Likes(user: Id, sermon: Id): Writer<Mark> {
    (s: State, actor: Id, op: Op) => LikeWrite(s, actor, op, user, sermon)
  }

  /** What the requests of a run write to one row. */
  ghost function Writes<V>(users: map<Id, User>, rs: seq<Request>, w: Writer<V>): (ws: seq<Write<V>>)
    ensures |ws| == |rs|
    ensures forall n | 0 <= n < |rs| :: ws[n] == w(States(users, rs)[n], rs[n].0, rs[n].1)
  {
    seq(|rs|, n requires 0 <= n < |rs| => w(States(users, rs)[n], rs[n].0, rs[n].1))
  }

  ghost function RowsAlong<V>(ss: seq<State>, row: State -> Option<V>): (rows: seq<Option<V>>)
    ensures |rows| == |ss| && forall n | 0 <= n < |ss| :: rows[n] == row(ss[n])
  {
    seq(|ss|, n requires 0 <= n < |ss| => row(ss[n]))
  }

  /** One request does to the row what the writer says. */
  ghost predicate Goes<V(!new)>(row: State -> Option<V>, w: Writer<V>, s: State, actor: Id, op: Op) {
    row(Step(s, actor, op).0) == Written(row(s), w(s, actor, op))
  }

  lemma Starts(users: map<Id, User>, rs: seq<Request>)
    ensures States(users, rs)[0] == Initial(users)
  {
  }

  lemma NextState(users: map<Id, User>, rs: seq<Request>, m: nat)
    requires m < |rs|
    ensures ParentsExist(States(users, rs)[m])
    ensures States(users, rs)[m + 1] == Step(States(users, rs)[m], rs[m].0, rs[m].1).0
  {
    ReachableConsistent(users, rs, m);
    hide Step;
  }

  lemma RunIsLastWrite<V(!new)>(users: map<Id, User>, rs: seq<Request>, row: State -> Option<V>, w: Writer<V>,
                                n: nat, r: Option<V>)
    requires n <= |rs| && row(Initial(users)) == None
    requires forall s, actor: Id, op | ParentsExist(s) :: Goes(row, w, s, actor, op)
    ensures row(After(users, rs, n)) == r <==> Left(None, Writes(users, rs, w), n, r)
  {
    var ss := States(users, rs);
    assert ss[n] == After(users, rs, n);
    var rows, ws := RowsAlong(ss, row), Writes(users, rs, w);
    Starts(users, rs);
    hide After, States, Step, ParentsExist, Initial;
    forall m | 0 <= m < |rs|
      ensures rows[m + 1] == Written(rows[m], ws[m])
    {
      NextState(users, rs, m);
      assert Goes(row, w, ss[m], rs[m].0, rs[m].1);
    }
    ValueIsLastWrite(rows, ws, n, r);
  }

  /** After every run, a sermon is what the last request left that was allowed to write it. */
  lemma SermonsExactly(users: map<Id, User>, rs: seq<Request>, id: Id, n: nat, r: Option<Sermon>)
    requires n <= |rs|
    ensures At(After(users, rs, n).sermons, id) == r <==> Left(None, Writes(users, rs, Sermons(id)), n, r)
  {
    var row, w := (s: State) => At(s.sermons, id), Sermons(id);
    forall s, actor: Id, op | ParentsExist(s)
      ensures Goes(row, w, s, actor, op)
    {
      SermonStep(s, actor, op, id);
    }
    RunIsLastWrite(users, rs, row, w, n, r);
  }

  /** Likewise the other tables. */
  lemma CommentsExactly(users: map<Id, User>, rs: seq<Request>, id: Id, n: nat, r: Option<Comment>)
    requires n <= |rs|
    ensures At(After(users, rs, n).comments, id) == r <==> Left(None, Writes(users, rs, Comments(id)), n, r)
  {
    var row, w := (s: State) => At(s.comments, id), Comments(id);
    forall s, actor: Id, op | ParentsExist(s)
      ensures Goes(row, w, s, actor, op)
    {
      CommentStep(s, actor, op, id);
    }
    RunIsLastWrite(users, rs, row, w, n, r);
  }

  lemma QuestionsExactly(users: map<Id, User>, rs: seq<Request>, id: Id, n: nat, r: Option<Question>)
    requires n <= |rs|
    ensures At(After(users, rs, n).questions, id) == r <==> Left(None, Writes(users, rs, Questions(id)), n, r)
  {
    var row, w := (s: State) => At(s.questions, id), Questions(id);
    forall s, actor: Id, op | ParentsExist(s)
      ensures Goes(row, w, s, actor, op)
    {
      QuestionStep(s, actor, op, id);
    }
    RunIsLastWrite(users, rs, row, w, n, r);
  }

  lemma AnswersExactly(users: map<Id, User>, rs: seq<Request>, id: Id, n: nat, r: Option<Answer>)
    requires n <= |rs|
    ensures At(After(users, rs, n).answers, id) == r <==> Left(None, Writes(users, rs, AnswersTo(id)), n, r)
  {
    var row, w := (s: State) => At(s.answers, id), AnswersTo(id);
    forall s, actor: Id, op | ParentsExist(s)
      ensures Goes(row, w, s, actor, op)
    {
      AnswerStep(s, actor, op, id);
    }
    RunIsLastWrite(users, rs, row, w, n, r);
  }

  lemma FriendshipsExactly(users: map<Id, User>, rs: seq<Request>, id: Id, n: nat, r: Option<Friendship>)
    requires n <= |rs|
    ensures At(After(users, rs, n).friendships, id) == r <==> Left(None, Writes(users, rs, Friendships(id)), n, r)
  {
    var row, w := (s: State) => At(s.friendships, id), Friendships(id);
    forall s, actor: Id, op | ParentsExist(s)
      ensures Goes(row, w, s, actor, op)
    {
      FriendshipRowStep(s, actor, op, id);
    }
    RunIsLastWrite(users, rs, row, w, n, r);
  }

  /** A user likes a sermon exactly when the last of their toggles that took effect turned it on, and the
      sermon was not deleted since. */
  lemma LikesExactly(users: map<Id, User>, rs: seq<Request>, user: Id, sermon: Id, n: nat, r: Option<Mark>)
    requires n <= |rs|
    ensures LikeAt(After(users, rs, n), user, sermon) == r <==> Left(None, Writes(users, rs, Likes(user, sermon)), n, r)
  {
    var row, w := (s: State) => LikeAt(s, user, sermon), Likes(user, sermon);
    forall s, actor: Id, op | ParentsExist(s)
      ensures Goes(row, w, s, actor, op)
    {
      LikeStep(s, actor, op, user, sermon);
    }
    RunIsLastWrite(users, rs, row, w, n, r);
  }

  // Answers to the caller

  /** The row a request is about is not there. */
  predicate Missing(s: State, op: Op) {
    match op
    case UpdateSermon(id, _) => id !in s.sermons
    case DeleteSermon(id) => id !in s.sermons
    case ToggleLike(sermon, _) => sermon !in s.sermons
    case AddComment(sermon, _, _) => sermon !in s.sermons
    case DeleteComment(id) => id !in s.comments
    case UpdateQuestion(id, _) => id !in s.questions
    case DeleteQuestion(id) => id !in s.questions
    case AddAnswer(question, _, _) => question !in s.questions
    case DeleteAnswer(id) => id !in s.answers
    case Respond(id, _) => id !in s.friendships
    case _ => false
  }

  /** The sender may not make the request on the row, if it is there. */
  predicate Barred(s: State, actor: Id, op: Op) {
    match op
    case CreateSermon(_, _) => !MayPublish(s, actor)
    case AddAnswer(_, _, _) => !MayPublish(s, actor)
    case UpdateSermon(id, _) => id in s.sermons && !MayEdit(s, actor, s.sermons[id].owner)
    case DeleteSermon(id) => id in s.sermons && !MayEdit(s, actor, s.sermons[id].owner)
    case DeleteComment(id) => id in s.comments && !MayEdit(s, actor, s.comments[id].author)
    case UpdateQuestion(id, _) => id in s.questions && !MayEdit(s, actor, s.questions[id].owner)
    case DeleteQuestion(id) => id in s.questions && !MayEdit(s, actor, s.questions[id].owner)
    case DeleteAnswer(id) => id in s.answers && !MayEdit(s, actor, s.answers[id].author)
    case Respond(id, _) => id in s.friendships && actor != s.friendships[id].addressee
    case _ => false
  }

  /** A missing row is 404, a missing right 403 (checked first where a publisher is needed), a request to
      oneself 400 and a second one to the same user 409; what fails changes nothing. */
  lemma OutcomesExactly(s: State, actor: Id, op: Op)
    ensures var (t, outcome) := Step(s, actor, op);
            && (outcome == NotFound <==> Missing(s, op) && !(op.AddAnswer? && Barred(s, actor, op)))
            && (outcome == Forbidden <==> Barred(s, actor, op))
            && (outcome == BadRequest <==> op.SendRequest? && op.addressee == actor)
            && (outcome == Conflict <==> op.SendRequest? && op.addressee != actor && Befriended(s, actor, op.addressee))
            && (outcome != Done ==> t == s)
  {
    forall owner
      ensures OwnerOrAdmin(s, actor, owner) <==> MayEdit(s, actor, owner)
      ensures Publishes(s, actor) <==> MayPublish(s, actor)
    {
      RightsExactly(s, actor, owner);
    }
    RightsExactly(s, actor, actor);
    if op.SendRequest? {
      BefriendedExactly(s, actor, op.addressee);
    }
    hide OwnerOrAdmin, MayEdit, Publishes, MayPublish, HasLike, HasFriendship, Befriended;
  }
}
