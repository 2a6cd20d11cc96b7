/** The action of the add-friend route (app/routes/friend.add.ts): the
    caller is authorized outside the error handler, then the email is
    validated, the user looked up, self-requests refused and the request
    sent, each failure turned into a JSON error response. */
module FriendAdd {
  import opened Outcomes
  import Friends

  type UserId = Friends.UserId

  /** The JSON body: `{success: true}` or `{error: message}`. */
  datatype Body = SuccessBody | ErrorBody(error: string)

  datatype Response = Response(status: int, body: Body)

  /** The calls the action makes to its collaborators, in order. */
  datatype Call = LookUp(email: string) | SendRequest(sender: UserId, receiver: UserId)

  /** A response together with the calls made to produce it, or the redirect
      thrown by `authorize`, which the action does not catch. */
  datatype Outcome = RedirectTo(location: string) | Responded(response: Response, calls: seq<Call>)

  const InvalidEmail: string := "Invalid email address"
  const UserNotFound: string := "User not found"
  const CannotAddSelf: string := "You cannot add yourself as a friend"
  const GenericError: string := "An error occurred while sending friend request"

  /** The response for an error thrown inside the handler: the two known
      messages of the send operation are passed on with status 400, anything
      else becomes a generic 500. */
  function ErrorResponse(message: string): (r: Response)
    ensures r.status == 400 <==>
      (message == Friends.Message(Friends.AlreadySent) || message == Friends.Message(Friends.AlreadyFriends))
    ensures r.status == 400 ==> r.body == ErrorBody(message)
    ensures r.status != 400 ==> r == Response(500, ErrorBody(GenericError))
  {
    if message == "Friend request already sent" || message == "Already friends with this user" then
      Response(400, ErrorBody(message))
    else
      Response(500, ErrorBody(GenericError))
  }

  /** The action. `session` is the user id read from the session cookie
      (absent or 0 is not signed in), `email` the form field, `isEmail` the
      email validator, `lookup` the user search by email (which may throw,
      with a message) and `send` the friend-request operation (`None` when it
      succeeds, the thrown message otherwise). */
  function Action(session: Option<int>, email: Option<string>, isEmail: string -> bool,
                  lookup: string -> Result<Option<UserId>, string>,
                  send: (UserId, UserId) -> Option<string>): (r: Outcome)
    ensures r.RedirectTo? <==> session.None? || session.value == 0
    ensures r.RedirectTo? ==> r.location == "/login"
    ensures r.Responded? && (email.None? || !isEmail(email.value)) ==>
      r == Responded(Response(400, ErrorBody(InvalidEmail)), [])
    ensures r.Responded? && email.Some? && isEmail(email.value) ==>
      |r.calls| >= 1 && r.calls[0] == LookUp(email.value)
    ensures r.Responded? && email.Some? && isEmail(email.value) && lookup(email.value).Failure? ==>
      r == Responded(ErrorResponse(lookup(email.value).error), [LookUp(email.value)])
    ensures r.Responded? && email.Some? && isEmail(email.value) && lookup(email.value) == Success(None) ==>
      r == Responded(Response(404, ErrorBody(UserNotFound)), [LookUp(email.value)])
    ensures r.Responded? && email.Some? && isEmail(email.value) && lookup(email.value) == Success(Some(session.value)) ==>
      r == Responded(Response(400, ErrorBody(CannotAddSelf)), [LookUp(email.value)])
    ensures r.Responded? && r.response.body == SuccessBody ==>
      && r.response.status == 200
      && email.Some? && lookup(email.value).Success? && lookup(email.value).value.Some?
      && var target := lookup(email.value).value.value;
         target != session.value
         && r.calls == [LookUp(email.value), SendRequest(session.value, target)]
         && send(session.value, target).None?
    ensures r.Responded? && |r.calls| == 2 ==>
      && r.calls[1].SendRequest?
      && var outcome := send(r.calls[1].sender, r.calls[1].receiver);
         r.response == (if outcome.None? then Response(200, SuccessBody) else ErrorResponse(outcome.value))
    ensures r.Responded? ==> forall k :: 0 <= k < |r.calls| ==>
      r.calls[k].SendRequest? ==> r.calls[k].sender == session.value && r.calls[k].receiver != session.value
  {
    if session.None? || session.value == 0 then RedirectTo("/login")
    else
      var caller := session.value;
      if email.None? || !isEmail(email.value) then
        Responded(Response(400, ErrorBody(InvalidEmail)), [])
      else
        var address := email.value;
        match lookup(address)
        case Failure(message) => Responded(ErrorResponse(message), [LookUp(address)])
        case Success(None) => Responded(Response(404, ErrorBody(UserNotFound)), [LookUp(address)])
        case Success(Some(target)) =>
          if target == caller then
            Responded(Response(400, ErrorBody(CannotAddSelf)), [LookUp(address)])
          else
            var calls := [LookUp(address), SendRequest(caller, target)];
            match send(caller, target)
            case None => Responded(Response(200, SuccessBody), calls)
            case Some(message) => Responded(ErrorResponse(message), calls)
  }

  /** The user search over the user table, which maps each (unique) email to
      its user. */
  function LookupIn(users: map<string, UserId>): string -> Result<Option<UserId>, string>
  {
    (address: string) => Success(if address in users then Some(users[address]) else None)
  }

  /** The friend-request operation on a database state, reporting the
      message it throws. */
  function SendOn(db: Friends.Db): (UserId, UserId) -> Option<string>
  {
    (sender: UserId, receiver: UserId) =>
      match Friends.Send(db, sender, receiver)
      case Success(_) => None
      case Failure(e) => Some(Friends.Message(e))
  }

  /** The action run against a database: its response, and the database
      after it (changed only when the request was sent). */
  function AddFriend(db: Friends.Db, session: Option<int>, email: Option<string>,
                     isEmail: string -> bool, users: map<string, UserId>): (Outcome, Friends.Db)
  {
    var outcome := Action(session, email, isEmail, LookupIn(users), SendOn(db));
    if outcome.Responded? && outcome.response.body == SuccessBody then
      var target := users[email.value];
      (outcome, Friends.Send(db, session.value, target).value)
    else (outcome, db)
  }

  /** Against a database the route answers 200 exactly when the target exists,
      is not the caller, and the send is accepted; the database then gains the
      request and nothing else. Every other answer leaves the database alone. */
  lemma AddFriendEffect(db: Friends.Db, caller: UserId, address: string,
                        isEmail: string -> bool, users: map<string, UserId>)
    requires caller != 0 && isEmail(address)
    ensures var (outcome, db') := AddFriend(db, Some(caller), Some(address), isEmail, users);
            && outcome.Responded?
            && (outcome.response.status == 200 <==>
                  && address in users && users[address] != caller
                  && Friends.Send(db, caller, users[address]).Success?)
            && (outcome.response.status == 200 ==>
                  && Friends.HasRequest(db', caller, users[address])
                  && db'.friendships == db.friendships)
            && (outcome.response.status != 200 ==> db' == db)
  {
  }

  /** Asking twice in a row: the second attempt is refused with 400
      "Friend request already sent". */
  lemma SecondRequestRefused(db: Friends.Db, caller: UserId, address: string,
                             isEmail: string -> bool, users: map<string, UserId>)
    requires caller != 0 && isEmail(address)
    requires AddFriend(db, Some(caller), Some(address), isEmail, users).0.Responded?
    requires AddFriend(db, Some(caller), Some(address), isEmail, users).0.response.status == 200
    ensures var db' := AddFriend(db, Some(caller), Some(address), isEmail, users).1;
            AddFriend(db', Some(caller), Some(address), isEmail, users).0
              == Responded(Response(400, ErrorBody("Friend request already sent")),
                           [LookUp(address), SendRequest(caller, users[address])])
  {
    var db' := AddFriend(db, Some(caller), Some(address), isEmail, users).1;
    AddFriendEffect(db, caller, address, isEmail, users);
    assert (caller, users[address]) !in db'.friendships;
  }
}
