/** Sermons, likes, comments, questions, answers and friendships: the service operations on the
    tables, each request one atomic step. Identifiers are UUIDs drawn by the caller (`newId`);
    inserting one that is already taken violates the primary key. */
module FaithStore {
  import opened Options
  import opened Text

  type Id = nat

  datatype User = User(role: Option<string>, superuser: bool)
  datatype Sermon = Sermon(owner: Id, text: string)
  datatype Like = Like(user: Id, sermon: Id)
  datatype Comment = Comment(author: Id, sermon: Id, text: string)
  datatype Question = Question(owner: Id, text: string, answered: bool)
  datatype Answer = Answer(author: Id, question: Id, text: string)
  datatype Status = Pending | Accepted | Rejected
  datatype Friendship = Friendship(requester: Id, addressee: Id, status: Status)

  datatype State = State(
    users: map<Id, User>,
    sermons: map<Id, Sermon>,
    likes: map<Id, Like>,
    comments: map<Id, Comment>,
    questions: map<Id, Question>,
    answers: map<Id, Answer>,
    friendships: map<Id, Friendship>)

  datatype Outcome = Done | NotFound | Forbidden | BadRequest | Conflict | IntegrityError

  datatype Op =
    | CreateSermon(newId: Id, text: string)
    | UpdateSermon(id: Id, text: string)
    | DeleteSermon(id: Id)
    | ToggleLike(sermon: Id, newId: Id)
    | AddComment(sermon: Id, newId: Id, text: string)
    | DeleteComment(id: Id)
    | CreateQuestion(newId: Id, text: string)
    | UpdateQuestion(id: Id, text: string)
    | DeleteQuestion(id: Id)
    | AddAnswer(question: Id, newId: Id, text: string)
    | DeleteAnswer(id: Id)
    | SendRequest(addressee: Id, newId: Id)
    | Respond(id: Id, accept: bool)

  // Permissions

  function RoleName(u: User): string {
    match u.role case None => "" case Some(r) => Lower(r)
  }

  predicate IsAdmin(u: User) {
    u.superuser || RoleName(u) == "admin"
  }

  predicate IsPublisher(u: User) {
    IsAdmin(u) || RoleName(u) in {"predicateur", "evangeliste", "admin"}
  }

  predicate OwnerOrAdmin(s: State, actor: Id, owner: Id) {
    actor == owner || (actor in s.users && IsAdmin(s.users[actor]))
  }

  /** A sender who is not among the users has no rights. */
  predicate Publishes(s: State, actor: Id) {
    actor in s.users && IsPublisher(s.users[actor])
  }

  // One operation, as a function

  predicate LikedBy(l: Like, user: Id, sermon: Id) {
    l.user == user && l.sermon == sermon
  }

  predicate HasLike(s: State, user: Id, sermon: Id) {
    exists i | i in s.likes :: LikedBy(s.likes[i], user, sermon)
  }

  predicate Links(f: Friendship, a: Id, b: Id) {
    (f.requester == a && f.addressee == b) || (f.requester == b && f.addressee == a)
  }

  predicate HasFriendship(s: State, a: Id, b: Id) {
    exists i | i in s.friendships :: Links(s.friendships[i], a, b)
  }

  /** Deleting a sermon takes its likes and comments along. */
  function WithoutSermon(s: State, id: Id): State {
    s.(sermons := s.sermons - {id},
       likes := map i | i in s.likes && s.likes[i].sermon != id :: s.likes[i],
       comments := map i | i in s.comments && s.comments[i].sermon != id :: s.comments[i])
  }

  /** Deleting a question takes its answers along. */
  function WithoutQuestion(s: State, id: Id): State {
    s.(questions := s.questions - {id},
       answers := map i | i in s.answers && s.answers[i].question != id :: s.answers[i])
  }

  function WithoutLike(likes: map<Id, Like>, user: Id, sermon: Id): map<Id, Like> {
    map i | i in likes && !LikedBy(likes[i], user, sermon) :: likes[i]
  }

  function Toggle(s: State, actor: Id, sermon: Id, newId: Id): (r: (State, Outcome))
    ensures r.0 == s.(likes := r.0.likes)
  {
    if sermon !in s.sermons then (s, NotFound)
    else if HasLike(s, actor, sermon) then
      (s.(likes := WithoutLike(s.likes, actor, sermon)), Done)
    else if newId in s.likes then (s, IntegrityError)
    else (s.(likes := s.likes[newId := Like(actor, sermon)]), Done)
  }

  function AnswerQuestion(s: State, actor: Id, question: Id, newId: Id, text: string): (r: (State, Outcome))
    ensures r.0 == s.(questions := r.0.questions, answers := r.0.answers)
  {
    if !Publishes(s, actor) then (s, Forbidden)
    else if question !in s.questions then (s, NotFound)
    else if newId in s.answers then (s, IntegrityError)
    else
      (s.(answers := s.answers[newId := Answer(actor, question, text)],
          questions := s.questions[question := s.questions[question].(answered := true)]), Done)
  }

  function Befriend(s: State, actor: Id, addressee: Id, newId: Id): (r: (State, Outcome))
    ensures r.0 == s.(friendships := r.0.friendships)
  {
    if addressee == actor then (s, BadRequest)
    else if HasFriendship(s, actor, addressee) then (s, Conflict)
    else if addressee !in s.users || newId in s.friendships then (s, IntegrityError)
    else (s.(friendships := s.friendships[newId := Friendship(actor, addressee, Pending)]), Done)
  }

  function Answered(s: State, actor: Id, id: Id, accept: bool): (r: (State, Outcome))
    ensures r.0 == s.(friendships := r.0.friendships)
  {
    if id !in s.friendships then (s, NotFound)
    else if s.friendships[id].addressee != actor then (s, Forbidden)
    else
      var f := s.friendships[id].(status := if accept then Accepted else Rejected);
      (s.(friendships := s.friendships[id := f]), Done)
  }

  function Publish(s: State, actor: Id, newId: Id, text: string): (r: (State, Outcome))
    ensures r.0 == s.(sermons := r.0.sermons)
  {
    if !Publishes(s, actor) then (s, Forbidden)
    else if newId in s.sermons then (s, IntegrityError)
    else (s.(sermons := s.sermons[newId := Sermon(actor, text)]), Done)
  }

  function ReviseSermon(s: State, actor: Id, id: Id, text: string): (r: (State, Outcome))
    ensures r.0 == s.(sermons := r.0.sermons)
  {
    if id !in s.sermons then (s, NotFound)
    else if !OwnerOrAdmin(s, actor, s.sermons[id].owner) then (s, Forbidden)
    else (s.(sermons := s.sermons[id := s.sermons[id].(text := text)]), Done)
  }

  function RemoveSermon(s: State, actor: Id, id: Id): (r: (State, Outcome))
    ensures r.0 == s.(sermons := r.0.sermons, likes := r.0.likes, comments := r.0.comments)
  {
    if id !in s.sermons then (s, NotFound)
    else if !OwnerOrAdmin(s, actor, s.sermons[id].owner) then (s, Forbidden)
    else (WithoutSermon(s, id), Done)
  }

  function CommentOn(s: State, actor: Id, sermon: Id, newId: Id, text: string): (r: (State, Outcome))
    ensures r.0 == s.(comments := r.0.comments)
  {
    if sermon !in s.sermons then (s, NotFound)
    else if newId in s.comments then (s, IntegrityError)
    else (s.(comments := s.comments[newId := Comment(actor, sermon, text)]), Done)
  }

  function RemoveComment(s: State, actor: Id, id: Id): (r: (State, Outcome))
    ensures r.0 == s.(comments := r.0.comments)
  {
    if id !in s.comments then (s, NotFound)
    else if !OwnerOrAdmin(s, actor, s.comments[id].author) then (s, Forbidden)
    else (s.(comments := s.comments - {id}), Done)
  }

  function Ask(s: State, actor: Id, newId: Id, text: string): (r: (State, Outcome))
    ensures r.0 == s.(questions := r.0.questions)
  {
    if newId in s.questions then (s, IntegrityError)
    else (s.(questions := s.questions[newId := Question(actor, text, false)]), Done)
  }

  function ReviseQuestion(s: State, actor: Id, id: Id, text: string): (r: (State, Outcome))
    ensures r.0 == s.(questions := r.0.questions)
  {
    if id !in s.questions then (s, NotFound)
    else if !OwnerOrAdmin(s, actor, s.questions[id].owner) then (s, Forbidden)
    else (s.(questions := s.questions[id := s.questions[id].(text := text)]), Done)
  }

  function RemoveQuestion(s: State, actor: Id, id: Id): (r: (State, Outcome))
    ensures r.0 == s.(questions := r.0.questions, answers := r.0.answers)
  {
    if id !in s.questions then (s, NotFound)
    else if !OwnerOrAdmin(s, actor, s.questions[id].owner) then (s, Forbidden)
    else (WithoutQuestion(s, id), Done)
  }

  function RemoveAnswer(s: State, actor: Id, id: Id): (r: (State, Outcome))
    ensures r.0 == s.(answers := r.0.answers)
  {
    if id !in s.answers then (s, NotFound)
    else if !OwnerOrAdmin(s, actor, s.answers[id].author) then (s, Forbidden)
    else (s.(answers := s.answers - {id}), Done)
  }

  /** The tables and the outcome after one request of the authenticated user `actor`. */
  function Step(s: State, actor: Id, op: Op): (r: (State, Outcome))
    ensures r.0.users == s.users
  {
    match op
    case CreateSermon(newId, text) => Publish(s, actor, newId, text)
    case UpdateSermon(id, text) => ReviseSermon(s, actor, id, text)
    case DeleteSermon(id) => RemoveSermon(s, actor, id)
    case ToggleLike(sermon, newId) => Toggle(s, actor, sermon, newId)
    case AddComment(sermon, newId, text) => CommentOn(s, actor, sermon, newId, text)
    case DeleteComment(id) => RemoveComment(s, actor, id)
    case CreateQuestion(newId, text) => Ask(s, actor, newId, text)
    case UpdateQuestion(id, text) => ReviseQuestion(s, actor, id, text)
    case DeleteQuestion(id) => RemoveQuestion(s, actor, id)
    case AddAnswer(question, newId, text) => AnswerQuestion(s, actor, question, newId, text)
    case DeleteAnswer(id) => RemoveAnswer(s, actor, id)
    case SendRequest(addressee, newId) => Befriend(s, actor, addressee, newId)
    case Respond(id, accept) => Answered(s, actor, id, accept)
  }

  // What every state satisfies

  ghost predicate LikesOnce(likes: map<Id, Like>) {
    forall i, j | i in likes && j in likes && likes[i] == likes[j] :: i == j
  }

  ghost predicate ParentsExist(s: State) {
    && (forall i | i in s.likes :: s.likes[i].sermon in s.sermons)
    && (forall i | i in s.comments :: s.comments[i].sermon in s.sermons)
    && (forall i | i in s.answers :: s.answers[i].question in s.questions)
  }

  ghost predicate AnsweredAreMarked(s: State) {
    forall i | i in s.answers && s.answers[i].question in s.questions ::
      s.questions[s.answers[i].question].answered
  }

  ghost predicate OneFriendshipPerPair(fs: map<Id, Friendship>) {
    && (forall i | i in fs :: fs[i].requester != fs[i].addressee)
    && forall i, j | i in fs && j in fs && Links(fs[i], fs[j].requester, fs[j].addressee) :: i == j
  }

  /** At most one like per user and sermon, at most one friendship per pair of users and none with
      oneself, parents exist, and a question with an answer is marked answered. */
  ghost predicate Consistent(s: State) {
    LikesOnce(s.likes) && ParentsExist(s) && AnsweredAreMarked(s) && OneFriendshipPerPair(s.friendships)
  }

  lemma StepKeepsLikesOnce(s: State, actor: Id, op: Op)
    requires LikesOnce(s.likes)
    ensures LikesOnce(Step(s, actor, op).0.likes)
  {
    hide Publish, ReviseSermon, CommentOn, RemoveComment, Ask, ReviseQuestion, RemoveQuestion,
         AnswerQuestion, RemoveAnswer, Befriend, Answered, Publishes, OwnerOrAdmin;
    var t := Step(s, actor, op).0;
    if op.ToggleLike? && t != s && !HasLike(s, actor, op.sermon) {
      assert t.likes == s.likes[op.newId := Like(actor, op.sermon)];
      forall i | i in s.likes
        ensures s.likes[i] != Like(actor, op.sermon)
      {
        assert !LikedBy(s.likes[i], actor, op.sermon);
      }
    }
  }

  lemma StepKeepsParents(s: State, actor: Id, op: Op)
    requires ParentsExist(s)
    ensures ParentsExist(Step(s, actor, op).0)
  {
    hide Befriend, Answered, Publishes, OwnerOrAdmin;
    match op {
      case DeleteSermon(_) =>
      case ToggleLike(_, _) =>
      case DeleteQuestion(_) =>
      case AddAnswer(_, _, _) =>
      case _ =>
    }
  }

  lemma StepKeepsMarks(s: State, actor: Id, op: Op)
    requires ParentsExist(s) && AnsweredAreMarked(s)
    ensures AnsweredAreMarked(Step(s, actor, op).0)
  {
    hide Publish, ReviseSermon, RemoveSermon, Toggle, CommentOn, RemoveComment, Befriend, Answered,
         Publishes, OwnerOrAdmin;
    hide Publishes, OwnerOrAdmin;
  }

  lemma NewFriendship(fs: map<Id, Friendship>, newId: Id, a: Id, b: Id)
    requires OneFriendshipPerPair(fs) && a != b && newId !in fs
    requires forall i | i in fs :: !Links(fs[i], a, b)
    ensures OneFriendshipPerPair(fs[newId := Friendship(a, b, Pending)])
  {
  }

  lemma NewStatus(fs: map<Id, Friendship>, id: Id, status: Status)
    requires OneFriendshipPerPair(fs) && id in fs
    ensures OneFriendshipPerPair(fs[id := fs[id].(status := status)])
  {
    var gs := fs[id := fs[id].(status := status)];
    forall i, j | i in gs && j in gs && Links(gs[i], gs[j].requester, gs[j].addressee)
      ensures i == j
    {
      assert Links(fs[i], fs[j].requester, fs[j].addressee);
    }
  }

  lemma StepKeepsFriendships(s: State, actor: Id, op: Op)
    requires OneFriendshipPerPair(s.friendships)
    ensures OneFriendshipPerPair(Step(s, actor, op).0.friendships)
  {
    hide Publish, ReviseSermon, RemoveSermon, Toggle, CommentOn, RemoveComment, Ask, ReviseQuestion,
         RemoveQuestion, AnswerQuestion, RemoveAnswer, Publishes, OwnerOrAdmin;
    var fs, gs := s.friendships, Step(s, actor, op).0.friendships;
    if gs != fs {
      if op.SendRequest? {
        NewFriendship(fs, op.newId, actor, op.addressee);
      } else {
        NewStatus(fs, op.id, if op.accept then Accepted else Rejected);
      }
    }
  }

  lemma StepKeepsConsistent(s: State, actor: Id, op: Op)
    requires Consistent(s)
    ensures Consistent(Step(s, actor, op).0)
  {
    StepKeepsLikesOnce(s, actor, op);
    StepKeepsParents(s, actor, op);
    StepKeepsMarks(s, actor, op);
    StepKeepsFriendships(s, actor, op);
  }

  /** A question that stays keeps its mark. */
  ghost predicate KeepsMarks(s: State, t: State) {
    forall q | q in s.questions && q in t.questions && s.questions[q].answered :: t.questions[q].answered
  }

  /** A friendship stays between its two users and once answered is not pending again. */
  ghost predicate KeepsFriendships(s: State, t: State) {
    forall f | f in s.friendships ::
      && f in t.friendships
      && t.friendships[f].requester == s.friendships[f].requester
      && t.friendships[f].addressee == s.friendships[f].addressee
      && (s.friendships[f].status != Pending ==> t.friendships[f].status != Pending)
  }

  /** What a step does not take back. */
  ghost predicate Keeps(s: State, t: State) {
    KeepsMarks(s, t) && KeepsFriendships(s, t)
  }

  lemma NoMarkLost(s: State, actor: Id, op: Op)
    ensures KeepsMarks(s, Step(s, actor, op).0)
  {
    hide Publish, ReviseSermon, RemoveSermon, Toggle, CommentOn, RemoveComment, RemoveAnswer, Befriend,
         Answered, Publishes, OwnerOrAdmin;
    match op {
      case UpdateQuestion(_, _) =>
      case AddAnswer(_, _, _) =>
      case _ =>
    }
  }

  lemma NoFriendshipLost(s: State, actor: Id, op: Op)
    ensures KeepsFriendships(s, Step(s, actor, op).0)
  {
    hide Publish, ReviseSermon, RemoveSermon, Toggle, CommentOn, RemoveComment, Ask, ReviseQuestion,
         RemoveQuestion, AnswerQuestion, RemoveAnswer, Publishes, OwnerOrAdmin;
    match op {
      case SendRequest(_, _) =>
      case Respond(_, _) =>
      case _ =>
    }
  }

  lemma StepKeeps(s: State, actor: Id, op: Op)
    ensures Keeps(s, Step(s, actor, op).0)
  {
    hide Step;
    NoMarkLost(s, actor, op);
    NoFriendshipLost(s, actor, op);
  }

  // Runs

  function Initial(users: map<Id, User>): State {
    State(users, map[], map[], map[], map[], map[], map[])
  }

  /** A request with its sender. */
  type Request = (Id, Op)

  /** The tables after the first `n` requests. */
  function After(users: map<Id, User>, rs: seq<Request>, n: nat): (s: State)
    requires n <= |rs|
    ensures s.users == users
  {
    if n == 0 then Initial(users)
    else Step(After(users, rs, n - 1), rs[n - 1].0, rs[n - 1].1).0
  }

  /** Every state reached by service calls is consistent. */
  lemma {:induction false} ReachableConsistent(users: map<Id, User>, rs: seq<Request>, n: nat)
    requires n <= |rs|
    ensures Consistent(After(users, rs, n))
  {
    if n > 0 {
      ReachableConsistent(users, rs, n - 1);
      StepKeepsConsistent(After(users, rs, n - 1), rs[n - 1].0, rs[n - 1].1);
    }
  }

  /** The states of a run. */
  ghost function States(users: map<Id, User>, rs: seq<Request>): (ss: seq<State>)
    ensures |ss| == |rs| + 1 && forall n | 0 <= n <= |rs| :: ss[n] == After(users, rs, n)
  {
    seq(|rs| + 1, n requires 0 <= n <= |rs| => After(users, rs, n))
  }

  ghost predicate KeepsAlong(ss: seq<State>) {
    forall n | 0 <= n < |ss| - 1 :: Keeps(ss[n], ss[n + 1])
  }

  lemma StatesKeep(users: map<Id, User>, rs: seq<Request>)
    ensures KeepsAlong(States(users, rs))
  {
    forall n | 0 <= n < |rs|
      ensures Keeps(States(users, rs)[n], States(users, rs)[n + 1])
    {
      StepKeeps(After(users, rs, n), rs[n].0, rs[n].1);
    }
  }

  lemma {:induction false} MarkAlong(ss: seq<State>, q: Id, i: nat, j: nat)
    requires KeepsAlong(ss) && i <= j < |ss|
    requires forall m | i <= m <= j :: q in ss[m].questions
    requires ss[i].questions[q].answered
    ensures ss[j].questions[q].answered
  {
    if i < j {
      MarkAlong(ss, q, i, j - 1);
      assert Keeps(ss[j - 1], ss[j - 1 + 1]);
    }
  }

  lemma {:induction false} FriendshipAlong(ss: seq<State>, f: Id, i: nat, j: nat)
    requires KeepsAlong(ss) && i <= j < |ss| && f in ss[i].friendships
    ensures f in ss[j].friendships
    ensures var before, after := ss[i].friendships[f], ss[j].friendships[f];
            && after.requester == before.requester && after.addressee == before.addressee
            && (before.status != Pending ==> after.status != Pending)
  {
    if i < j {
      FriendshipAlong(ss, f, i, j - 1);
      assert Keeps(ss[j - 1], ss[j - 1 + 1]);
    }
  }

  /** As long as a question exists it keeps its mark. */
  lemma MarkIsKept(users: map<Id, User>, rs: seq<Request>, q: Id, i: nat, j: nat)
    requires i <= j <= |rs|
    requires forall m: nat | i <= m <= j :: q in After(users, rs, m).questions
    requires After(users, rs, i).questions[q].answered
    ensures After(users, rs, j).questions[q].answered
  {
    StatesKeep(users, rs);
    MarkAlong(States(users, rs), q, i, j);
  }

  /** A friendship stays, between the same two users, and once answered is never pending again. */
  lemma FriendshipsStay(users: map<Id, User>, rs: seq<Request>, f: Id, i: nat, j: nat)
    requires i <= j <= |rs| && f in After(users, rs, i).friendships
    ensures f in After(users, rs, j).friendships
    ensures var before, after := After(users, rs, i).friendships[f], After(users, rs, j).friendships[f];
            && after.requester == before.requester && after.addressee == before.addressee
            && (before.status != Pending ==> after.status != Pending)
  {
    StatesKeep(users, rs);
    FriendshipAlong(States(users, rs), f, i, j);
  }

  // Who may change what

  /** Sermons change or go only through their owner or an administrator, and come from
      publishers. */
  ghost predicate SermonsAuthorised(s: State, t: State, actor: Id)
  {
    && (forall i | i in s.sermons && (i in t.sermons ==> t.sermons[i] != s.sermons[i]) ::
          OwnerOrAdmin(s, actor, s.sermons[i].owner))
    && (forall i | i in t.sermons && i !in s.sermons ::
          t.sermons[i].owner == actor && Publishes(s, actor))
  }

  /** Likes go only through their user, the owner of the sermon, or an administrator, and come from
      their user. */
  ghost predicate LikesAuthorised(s: State, t: State, actor: Id)
  {
    && (forall i | i in s.likes && (i in t.likes ==> t.likes[i] != s.likes[i]) ::
          actor == s.likes[i].user
          || (s.likes[i].sermon in s.sermons && OwnerOrAdmin(s, actor, s.sermons[s.likes[i].sermon].owner)))
    && (forall i | i in t.likes && i !in s.likes :: t.likes[i].user == actor)
  }

  /** Comments go only through their author, the owner of the sermon, or an administrator, and come
      from their author. */
  ghost predicate CommentsAuthorised(s: State, t: State, actor: Id)
  {
    && (forall i | i in s.comments && (i in t.comments ==> t.comments[i] != s.comments[i]) ::
          OwnerOrAdmin(s, actor, s.comments[i].author)
          || (s.comments[i].sermon in s.sermons && OwnerOrAdmin(s, actor, s.sermons[s.comments[i].sermon].owner)))
    && (forall i | i in t.comments && i !in s.comments :: t.comments[i].author == actor)
  }

  /** The text of a question changes, and a question goes, only through its owner or an administrator;
      its owner never changes. */
  ghost predicate QuestionsAuthorised(s: State, t: State, actor: Id)
  {
    && (forall i | i in s.questions && (i in t.questions ==> t.questions[i].text != s.questions[i].text) ::
          OwnerOrAdmin(s, actor, s.questions[i].owner))
    && (forall i | i in s.questions && i in t.questions :: t.questions[i].owner == s.questions[i].owner)
  }

  /** A question comes from its owner, not answered, and only a publisher marks it. */
  ghost predicate MarksAuthorised(s: State, t: State, actor: Id)
  {
    && (forall i | i in t.questions && i !in s.questions ::
          t.questions[i].owner == actor && !t.questions[i].answered)
    && (forall i | i in s.questions && i in t.questions && t.questions[i].answered != s.questions[i].answered ::
          t.questions[i].answered && Publishes(s, actor))
  }

  /** Answers come from publishers and go only through their author, the owner of the question, or
      an administrator. */
  ghost predicate AnswersAuthorised(s: State, t: State, actor: Id)
  {
    && (forall i | i in s.answers && (i in t.answers ==> t.answers[i] != s.answers[i]) ::
          OwnerOrAdmin(s, actor, s.answers[i].author)
          || (s.answers[i].question in s.questions
              && OwnerOrAdmin(s, actor, s.questions[s.answers[i].question].owner)))
    && (forall i | i in t.answers && i !in s.answers ::
          t.answers[i].author == actor && Publishes(s, actor))
  }

  /** Only the addressee answers a friend request, nobody takes one away, and a new one is pending and
      comes from its requester. */
  ghost predicate FriendshipsAuthorised(s: State, t: State, actor: Id) {
    && (forall i | i in s.friendships && i in t.friendships && t.friendships[i] != s.friendships[i] ::
          actor == s.friendships[i].addressee)
    && (forall i | i in s.friendships :: i in t.friendships)
    && (forall i | i in t.friendships && i !in s.friendships ::
          t.friendships[i].requester == actor && t.friendships[i].status == Pending)
  }

  /** Every change of every table is one the service allows its sender. */
  ghost predicate Authorised(s: State, t: State, actor: Id)
  {
    && SermonsAuthorised(s, t, actor) && LikesAuthorised(s, t, actor) && CommentsAuthorised(s, t, actor)
    && QuestionsAuthorised(s, t, actor) && MarksAuthorised(s, t, actor) && AnswersAuthorised(s, t, actor)
    && FriendshipsAuthorised(s, t, actor)
  }

  lemma PublishAuthorised(s: State, actor: Id, newId: Id, text: string)
    ensures Authorised(s, Publish(s, actor, newId, text).0, actor)
  {
    hide Publishes, OwnerOrAdmin, HasLike, HasFriendship;
  }

  lemma ReviseSermonAuthorised(s: State, actor: Id, id: Id, text: string)
    ensures Authorised(s, ReviseSermon(s, actor, id, text).0, actor)
  {
    hide Publishes, OwnerOrAdmin, HasLike, HasFriendship;
  }

  lemma RemoveSermonAuthorised(s: State, actor: Id, id: Id)
    ensures Authorised(s, RemoveSermon(s, actor, id).0, actor)
  {
    hide Publishes, OwnerOrAdmin, HasLike, HasFriendship;
  }

  lemma ToggleAuthorised(s: State, actor: Id, sermon: Id, newId: Id)
    ensures Authorised(s, Toggle(s, actor, sermon, newId).0, actor)
  {
    hide Publishes, OwnerOrAdmin, HasLike, HasFriendship;
  }

  lemma CommentOnAuthorised(s: State, actor: Id, sermon: Id, newId: Id, text: string)
    ensures Authorised(s, CommentOn(s, actor, sermon, newId, text).0, actor)
  {
    hide Publishes, OwnerOrAdmin, HasLike, HasFriendship;
  }

  lemma RemoveCommentAuthorised(s: State, actor: Id, id: Id)
    ensures Authorised(s, RemoveComment(s, actor, id).0, actor)
  {
    hide Publishes, OwnerOrAdmin, HasLike, HasFriendship;
  }

  lemma AskAuthorised(s: State, actor: Id, newId: Id, text: string)
    ensures Authorised(s, Ask(s, actor, newId, text).0, actor)
  {
    hide Publishes, OwnerOrAdmin, HasLike, HasFriendship;
  }

  lemma ReviseQuestionAuthorised(s: State, actor: Id, id: Id, text: string)
    ensures Authorised(s, ReviseQuestion(s, actor, id, text).0, actor)
  {
    hide Publishes, OwnerOrAdmin, HasLike, HasFriendship;
  }

  lemma RemoveQuestionAuthorised(s: State, actor: Id, id: Id)
    ensures Authorised(s, RemoveQuestion(s, actor, id).0, actor)
  {
    hide Publishes, OwnerOrAdmin, HasLike, HasFriendship;
  }

  lemma AnswerMarksAuthorised(s: State, actor: Id, question: Id, newId: Id, text: string)
    ensures var t := AnswerQuestion(s, actor, question, newId, text).0;
            QuestionsAuthorised(s, t, actor) && MarksAuthorised(s, t, actor)
  {
    hide Publishes, OwnerOrAdmin;
  }

  lemma AnswerQuestionAuthorised(s: State, actor: Id, question: Id, newId: Id, text: string)
    ensures Authorised(s, AnswerQuestion(s, actor, question, newId, text).0, actor)
  {
    hide Publishes, OwnerOrAdmin, QuestionsAuthorised, MarksAuthorised;
    AnswerMarksAuthorised(s, actor, question, newId, text);
  }

  lemma RemoveAnswerAuthorised(s: State, actor: Id, id: Id)
    ensures Authorised(s, RemoveAnswer(s, actor, id).0, actor)
  {
    hide Publishes, OwnerOrAdmin, HasLike, HasFriendship;
  }

  lemma BefriendAuthorised(s: State, actor: Id, addressee: Id, newId: Id)
    ensures Authorised(s, Befriend(s, actor, addressee, newId).0, actor)
  {
    hide Publishes, OwnerOrAdmin, HasLike, HasFriendship;
  }

  lemma AnsweredAuthorised(s: State, actor: Id, id: Id, accept: bool)
    ensures Authorised(s, Answered(s, actor, id, accept).0, actor)
  {
    hide Publishes, OwnerOrAdmin, HasLike, HasFriendship;
  }

  /** Whatever the request. */
  lemma ChangesAreAuthorised(s: State, actor: Id, op: Op)
    ensures Authorised(s, Step(s, actor, op).0, actor)
  {
    hide Publish, ReviseSermon, RemoveSermon, Toggle, CommentOn, RemoveComment, Ask, ReviseQuestion,
         RemoveQuestion, AnswerQuestion, RemoveAnswer, Befriend, Answered, Authorised;
    match op {
      case CreateSermon(newId, text) => PublishAuthorised(s, actor, newId, text);
      case UpdateSermon(id, text) => ReviseSermonAuthorised(s, actor, id, text);
      case DeleteSermon(id) => RemoveSermonAuthorised(s, actor, id);
      case ToggleLike(sermon, newId) => ToggleAuthorised(s, actor, sermon, newId);
      case AddComment(sermon, newId, text) => CommentOnAuthorised(s, actor, sermon, newId, text);
      case DeleteComment(id) => RemoveCommentAuthorised(s, actor, id);
      case CreateQuestion(newId, text) => AskAuthorised(s, actor, newId, text);
      case UpdateQuestion(id, text) => ReviseQuestionAuthorised(s, actor, id, text);
      case DeleteQuestion(id) => RemoveQuestionAuthorised(s, actor, id);
      case AddAnswer(question, newId, text) => AnswerQuestionAuthorised(s, actor, question, newId, text);
      case DeleteAnswer(id) => RemoveAnswerAuthorised(s, actor, id);
      case SendRequest(addressee, newId) => BefriendAuthorised(s, actor, addressee, newId);
      case Respond(id, accept) => AnsweredAuthorised(s, actor, id, accept);
    }
  }

  // Likes

  ghost function LikesOf(s: State, sermon: Id): set<Id> {
    set i | i in s.likes && s.likes[i].sermon == sermon
  }

  lemma Liked(s: State, actor: Id, sermon: Id, newId: Id)
    requires !HasLike(s, actor, sermon) && sermon in s.sermons && newId !in s.likes
    ensures var t := Toggle(s, actor, sermon, newId).0;
            HasLike(t, actor, sermon) && |LikesOf(t, sermon)| == |LikesOf(s, sermon)| + 1
  {
    var t := Toggle(s, actor, sermon, newId).0;
    assert LikesOf(t, sermon) == LikesOf(s, sermon) + {newId};
    assert LikedBy(t.likes[newId], actor, sermon);
  }

  lemma OtherLikes(s: State, actor: Id, sermon: Id, newId: Id, other: Id)
    requires other != sermon
    ensures LikesOf(Toggle(s, actor, sermon, newId).0, other) == LikesOf(s, other)
  {
    hide HasLike;
  }

  /** A toggle moves the like count of its sermon by exactly one, up if the user had not liked it
      and down if he had, and leaves the counts of other sermons alone. */
  lemma ToggleMovesCount(s: State, actor: Id, sermon: Id, newId: Id, other: Id)
    requires Consistent(s) && Toggle(s, actor, sermon, newId).1 == Done
    ensures var t := Toggle(s, actor, sermon, newId).0;
            && HasLike(t, actor, sermon) == !HasLike(s, actor, sermon)
            && |LikesOf(t, sermon)| == |LikesOf(s, sermon)| + (if HasLike(s, actor, sermon) then -1 else 1)
            && (other != sermon ==> LikesOf(t, other) == LikesOf(s, other))
  {
    assert sermon in s.sermons && (HasLike(s, actor, sermon) || newId !in s.likes);
    hide Toggle, HasLike, LikesOf, LikesOnce, ParentsExist, AnsweredAreMarked, OneFriendshipPerPair;
    if HasLike(s, actor, sermon) {
      Unliked(s, Toggle(s, actor, sermon, newId).0, actor, sermon, newId);
    } else {
      Liked(s, actor, sermon, newId);
    }
    if other != sermon {
      OtherLikes(s, actor, sermon, newId, other);
    }
  }

  lemma Unliked(s: State, t: State, actor: Id, sermon: Id, newId: Id)
    requires LikesOnce(s.likes) && HasLike(s, actor, sermon) && sermon in s.sermons
    requires t == Toggle(s, actor, sermon, newId).0
    ensures !HasLike(t, actor, sermon)
    ensures |LikesOf(t, sermon)| == |LikesOf(s, sermon)| - 1
  {
    var i :| i in s.likes && LikedBy(s.likes[i], actor, sermon);
    assert i !in LikesOf(t, sermon);
    assert LikesOf(s, sermon) == LikesOf(t, sermon) + {i};
  }

  /** Toggling twice restores who likes what. */
  lemma ToggleTwice(s: State, actor: Id, sermon: Id, newId: Id, newId': Id, user: Id, any: Id)
    requires Consistent(s) && sermon in s.sermons && newId !in s.likes && newId' !in s.likes
    ensures var t := Toggle(s, actor, sermon, newId).0;
            var u := Toggle(t, actor, sermon, newId').0;
            HasLike(u, user, any) == HasLike(s, user, any)
  {
    var t := Toggle(s, actor, sermon, newId).0;
    var u := Toggle(t, actor, sermon, newId').0;
    if HasLike(s, actor, sermon) {
      assert newId' !in t.likes;
      assert LikedBy(u.likes[newId'], actor, sermon);
      if i :| i in s.likes && LikedBy(s.likes[i], user, any) {
        assert LikedBy(u.likes[if LikedBy(s.likes[i], actor, sermon) then newId' else i], user, any);
      }
    } else {
      assert LikedBy(t.likes[newId], actor, sermon);
      assert u.likes == s.likes;
    }
  }

  // The service as written

  class FaithService {
    var users: map<Id, User>
    var sermons: map<Id, Sermon>
    var likes: map<Id, Like>
    var comments: map<Id, Comment>
    var questions: map<Id, Question>
    var answers: map<Id, Answer>
    var friendships: map<Id, Friendship>

    function Tables(): State
      reads this
    {
      State(users, sermons, likes, comments, questions, answers, friendships)
    }

    constructor (users: map<Id, User>)
      ensures Tables() == Initial(users)
    {
      this.users := users;
      sermons, likes, comments, questions, answers, friendships := map[], map[], map[], map[], map[], map[];
    }

    method CreateSermon(actor: Id, newId: Id, text: string) returns (outcome: Outcome)
      requires actor in users
      modifies this
      ensures (Tables(), outcome) == Step(old(Tables()), actor, Op.CreateSermon(newId, text))
    {
      if !IsPublisher(users[actor]) {
        return Forbidden;
      }
      if newId in sermons {
        return IntegrityError;
      }
      sermons := sermons[newId := Sermon(actor, text)];
      outcome := Done;
    }

    method UpdateSermon(actor: Id, id: Id, text: string) returns (outcome: Outcome)
      requires actor in users
      modifies this
      ensures (Tables(), outcome) == Step(old(Tables()), actor, Op.UpdateSermon(id, text))
    {
      if id !in sermons {
        return NotFound;
      }
      if !(actor == sermons[id].owner || IsAdmin(users[actor])) {
        return Forbidden;
      }
      sermons := sermons[id := sermons[id].(text := text)];
      outcome := Done;
    }

    method DeleteSermon(actor: Id, id: Id) returns (outcome: Outcome)
      requires actor in users
      modifies this
      ensures (Tables(), outcome) == Step(old(Tables()), actor, Op.DeleteSermon(id))
    {
      if id !in sermons {
        return NotFound;
      }
      if !(actor == sermons[id].owner || IsAdmin(users[actor])) {
        return Forbidden;
      }
      likes := map i | i in likes && likes[i].sermon != id :: likes[i];
      comments := map i | i in comments && comments[i].sermon != id :: comments[i];
      sermons := sermons - {id};
      outcome := Done;
    }

    /** Finds the user's like, if any, and removes that row; otherwise inserts one. */
    method ToggleSermonLike(actor: Id, sermon: Id, newId: Id) returns (outcome: Outcome)
      requires actor in users && LikesOnce(likes)
      modifies this
      ensures (Tables(), outcome) == Step(old(Tables()), actor, ToggleLike(sermon, newId))
    {
      if sermon !in sermons {
        return NotFound;
      }
      if exists i | i in likes :: LikedBy(likes[i], actor, sermon) {
        var i :| i in likes && LikedBy(likes[i], actor, sermon);
        assert HasLike(Tables(), actor, sermon);
        RemoveOnly(likes, actor, sermon, i);
        likes := likes - {i};
      } else {
        if newId in likes {
          return IntegrityError;
        }
        likes := likes[newId := Like(actor, sermon)];
      }
      outcome := Done;
    }

    method AddSermonComment(actor: Id, sermon: Id, newId: Id, text: string) returns (outcome: Outcome)
      requires actor in users
      modifies this
      ensures (Tables(), outcome) == Step(old(Tables()), actor, AddComment(sermon, newId, text))
    {
      if sermon !in sermons {
        return NotFound;
      }
      if newId in comments {
        return IntegrityError;
      }
      comments := comments[newId := Comment(actor, sermon, text)];
      outcome := Done;
    }

    method DeleteSermonComment(actor: Id, id: Id) returns (outcome: Outcome)
      requires actor in users
      modifies this
      ensures (Tables(), outcome) == Step(old(Tables()), actor, DeleteComment(id))
    {
      if id !in comments {
        return NotFound;
      }
      if !(actor == comments[id].author || IsAdmin(users[actor])) {
        return Forbidden;
      }
      comments := comments - {id};
      outcome := Done;
    }

    method CreateQuestion(actor: Id, newId: Id, text: string) returns (outcome: Outcome)
      requires actor in users
      modifies this
      ensures (Tables(), outcome) == Step(old(Tables()), actor, Op.CreateQuestion(newId, text))
    {
      if newId in questions {
        return IntegrityError;
      }
      questions := questions[newId := Question(actor, text, false)];
      outcome := Done;
    }

    method UpdateQuestion(actor: Id, id: Id, text: string) returns (outcome: Outcome)
      requires actor in users
      modifies this
      ensures (Tables(), outcome) == Step(old(Tables()), actor, Op.UpdateQuestion(id, text))
    {
      if id !in questions {
        return NotFound;
      }
      if !(actor == questions[id].owner || IsAdmin(users[actor])) {
        return Forbidden;
      }
      questions := questions[id := questions[id].(text := text)];
      outcome := Done;
    }

    method DeleteQuestion(actor: Id, id: Id) returns (outcome: Outcome)
      requires actor in users
      modifies this
      ensures (Tables(), outcome) == Step(old(Tables()), actor, Op.DeleteQuestion(id))
    {
      if id !in questions {
        return NotFound;
      }
      if !(actor == questions[id].owner || IsAdmin(users[actor])) {
        return Forbidden;
      }
      answers := map i | i in answers && answers[i].question != id :: answers[i];
      questions := questions - {id};
      outcome := Done;
    }

    /** Inserts the answer, then marks the question if it is not marked yet. */
    method AddAnswer(actor: Id, question: Id, newId: Id, text: string) returns (outcome: Outcome)
      requires actor in users
      modifies this
      ensures (Tables(), outcome) == Step(old(Tables()), actor, Op.AddAnswer(question, newId, text))
    {
      if !IsPublisher(users[actor]) {
        return Forbidden;
      }
      if question !in questions {
        return NotFound;
      }
      if newId in answers {
        return IntegrityError;
      }
      answers := answers[newId := Answer(actor, question, text)];
      if !questions[question].answered {
        questions := questions[question := questions[question].(answered := true)];
      } else {
        assert questions == questions[question := questions[question].(answered := true)];
      }
      outcome := Done;
    }

    method DeleteAnswer(actor: Id, id: Id) returns (outcome: Outcome)
      requires actor in users
      modifies this
      ensures (Tables(), outcome) == Step(old(Tables()), actor, Op.DeleteAnswer(id))
    {
      if id !in answers {
        return NotFound;
      }
      if !(actor == answers[id].author || IsAdmin(users[actor])) {
        return Forbidden;
      }
      answers := answers - {id};
      outcome := Done;
    }

    method SendFriendRequest(actor: Id, addressee: Id, newId: Id) returns (outcome: Outcome)
      requires actor in users
      modifies this
      ensures (Tables(), outcome) == Step(old(Tables()), actor, SendRequest(addressee, newId))
    {
      if addressee == actor {
        return BadRequest;
      }
      if exists i | i in friendships :: Links(friendships[i], actor, addressee) {
        return Conflict;
      }
      if addressee !in users || newId in friendships {
        return IntegrityError;
      }
      friendships := friendships[newId := Friendship(actor, addressee, Pending)];
      outcome := Done;
    }

    method RespondFriendRequest(actor: Id, id: Id, accept: bool) returns (outcome: Outcome)
      requires actor in users
      modifies this
      ensures (Tables(), outcome) == Step(old(Tables()), actor, Respond(id, accept))
    {
      if id !in friendships {
        return NotFound;
      }
      if friendships[id].addressee != actor {
        return Forbidden;
      }
      friendships := friendships[id := friendships[id].(status := if accept then Accepted else Rejected)];
      outcome := Done;
    }
  }

  /** When likes are unique, removing the row that was found removes every like of the pair. */
  lemma RemoveOnly(likes: map<Id, Like>, actor: Id, sermon: Id, i: Id)
    requires LikesOnce(likes) && i in likes && LikedBy(likes[i], actor, sermon)
    ensures likes - {i} == WithoutLike(likes, actor, sermon)
  {
  }
}
