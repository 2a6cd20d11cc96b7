/** The friendship operations of app/crud/friends.server.ts over two
    relations: the friendship rows `(user_id, friend_id)` and the pending
    requests, keyed by their id. Each operation is one atomic step on the
    database; the ids are assumed to come from a counter that never hands
    out an id twice (the table definitions are not part of this model). */
module Friends {
  import opened Outcomes

  type UserId = int
  type RequestId = nat

  /** A pending request row without its id. */
  datatype Request = Request(sender: UserId, receiver: UserId)

  /** The two tables, and the next id the pending table will hand out. */
  datatype Db = Db(friendships: set<(UserId, UserId)>, pending: map<RequestId, Request>, nextId: RequestId)

  /** The errors the operations throw. */
  datatype FriendError = AlreadyFriends | AlreadySent | RequestNotFound

  /** The message each error is thrown with. */
  function Message(e: FriendError): string
  {
    match e
    case AlreadyFriends => "Already friends with this user"
    case AlreadySent => "Friend request already sent"
    case RequestNotFound => "Friend request not found"
  }

  /** Under the assumed id counter, every stored id is below the next one
      handed out. */
  predicate Valid(db: Db)
  {
    forall id :: id in db.pending ==> id < db.nextId
  }

  /** Friendship rows come in pairs, as accept inserts and remove deletes
      them. */
  predicate Symmetric(db: Db)
  {
    forall p :: p in db.friendships ==> (p.1, p.0) in db.friendships
  }

  /** Some pending row goes from `sender` to `receiver`. */
  predicate HasRequest(db: Db, sender: UserId, receiver: UserId)
  {
    exists id :: id in db.pending && db.pending[id] == Request(sender, receiver)
  }

  /** `sendFriendRequest(sender, receiver)`: refused when the sender already
      lists the receiver as a friend, then when a request in the same
      direction is pending (a request in the other direction is not looked
      at); otherwise one pending row is inserted. */
  function Send(db: Db, sender: UserId, receiver: UserId): (r: Result<Db, FriendError>)
    ensures (sender, receiver) in db.friendships ==> r == Failure(AlreadyFriends)
    ensures (sender, receiver) !in db.friendships && HasRequest(db, sender, receiver) ==> r == Failure(AlreadySent)
    ensures r.Success? <==> (sender, receiver) !in db.friendships && !HasRequest(db, sender, receiver)
    ensures r.Success? ==> && r.value.friendships == db.friendships
                           && HasRequest(r.value, sender, receiver)
    ensures r.Success? && Valid(db) ==>
              && Valid(r.value)
              && db.nextId !in db.pending
              && r.value.pending == db.pending[db.nextId := Request(sender, receiver)]
              && |r.value.pending| == |db.pending| + 1
  {
    if (sender, receiver) in db.friendships then Failure(AlreadyFriends)
    else if exists id :: id in db.pending && db.pending[id] == Request(sender, receiver) then Failure(AlreadySent)
    else
      var next := Db(db.friendships, db.pending[db.nextId := Request(sender, receiver)], db.nextId + 1);
      assert next.pending[db.nextId] == Request(sender, receiver);
      Success(next)
  }

  /** `acceptFriendRequest(requestId, receiver)`: refused unless the request
      with that id is addressed to `receiver`; otherwise both friendship rows
      are inserted and the request is deleted, in one transaction. */
  function Accept(db: Db, requestId: RequestId, receiver: UserId): (r: Result<Db, FriendError>)
    ensures r.Failure? <==> !(requestId in db.pending && db.pending[requestId].receiver == receiver)
    ensures r.Failure? ==> r.error == RequestNotFound
    ensures r.Success? ==>
      var sender := db.pending[requestId].sender;
      && r.value.friendships == db.friendships + {(sender, receiver), (receiver, sender)}
      && r.value.pending == db.pending - {requestId}
      && r.value.nextId == db.nextId
  {
    if requestId in db.pending && db.pending[requestId].receiver == receiver then
      var sender := db.pending[requestId].sender;
      Success(Db(db.friendships + {(sender, receiver), (receiver, sender)}, db.pending - {requestId}, db.nextId))
    else Failure(RequestNotFound)
  }

  /** `rejectFriendRequest(requestId, receiver)`: deletes the request when it
      is addressed to `receiver`, and nothing otherwise. */
  function Reject(db: Db, requestId: RequestId, receiver: UserId): (r: Db)
    ensures r.friendships == db.friendships && r.nextId == db.nextId
    ensures requestId in db.pending && db.pending[requestId].receiver == receiver ==>
      r.pending == db.pending - {requestId}
    ensures !(requestId in db.pending && db.pending[requestId].receiver == receiver) ==> r == db
  {
    if requestId in db.pending && db.pending[requestId].receiver == receiver then
      Db(db.friendships, db.pending - {requestId}, db.nextId)
    else db
  }

  /** `removeFriendship(user, friend)`: deletes both directions of the pair
      and nothing else. */
  function Remove(db: Db, user: UserId, friend: UserId): (r: Db)
    ensures r.friendships == db.friendships - {(user, friend), (friend, user)}
    ensures r.pending == db.pending && r.nextId == db.nextId
  {
    Db(db.friendships - {(user, friend), (friend, user)}, db.pending, db.nextId)
  }

  /** `getFriends(user)`: the ids the user lists as friends. */
  function FriendsOf(db: Db, user: UserId): (fs: set<UserId>)
    ensures forall f :: f in fs <==> (user, f) in db.friendships
  {
    set p | p in db.friendships && p.0 == user :: p.1
  }

  /** `getPendingReceivedRequests(user)`: the requests addressed to the user. */
  function PendingReceived(db: Db, user: UserId): (ids: set<RequestId>)
    ensures forall id :: id in ids <==> id in db.pending && db.pending[id].receiver == user
  {
    set id | id in db.pending && db.pending[id].receiver == user
  }

  /** `getPendingSentRequests(user)`: the requests the user sent. */
  function PendingSent(db: Db, user: UserId): (ids: set<RequestId>)
    ensures forall id :: id in ids <==> id in db.pending && db.pending[id].sender == user
  {
    set id | id in db.pending && db.pending[id].sender == user
  }

  datatype Status = Friends | PendingSentStatus | PendingReceivedStatus | NoRelation

  /** `checkFriendshipStatus(user, other)`: friends first, then a request
      sent by `user`, then one received by `user`, else none. */
  function StatusOf(db: Db, user: UserId, other: UserId): (s: Status)
    ensures s == Friends <==> (user, other) in db.friendships
    ensures s == PendingSentStatus <==> (user, other) !in db.friendships && HasRequest(db, user, other)
    ensures s == PendingReceivedStatus <==>
      (user, other) !in db.friendships && !HasRequest(db, user, other) && HasRequest(db, other, user)
  {
    if (user, other) in db.friendships then Friends
    else if exists id :: id in db.pending && db.pending[id] == Request(user, other) then PendingSentStatus
    else if exists id :: id in db.pending && db.pending[id] == Request(other, user) then PendingReceivedStatus
    else NoRelation
  }

  /** After a successful send the sender sees the request as sent, and the
      pair is no friendship in either direction of a symmetric table. */
  lemma SendThenStatus(db: Db, sender: UserId, receiver: UserId)
    requires Symmetric(db)
    requires Send(db, sender, receiver).Success?
    ensures var db' := Send(db, sender, receiver).value;
            && StatusOf(db', sender, receiver) == PendingSentStatus
            && StatusOf(db', receiver, sender) != Friends
            && Symmetric(db')
  {
  }

  /** After a successful accept both parties see each other as friends and
      the request is gone from both pending lists. */
  lemma AcceptThenStatus(db: Db, requestId: RequestId, receiver: UserId)
    requires Accept(db, requestId, receiver).Success?
    ensures var sender := db.pending[requestId].sender;
            var db' := Accept(db, requestId, receiver).value;
            && StatusOf(db', sender, receiver) == Friends
            && StatusOf(db', receiver, sender) == Friends
            && requestId !in PendingReceived(db', receiver)
            && requestId !in PendingSent(db', sender)
            && sender in FriendsOf(db', receiver) && receiver in FriendsOf(db', sender)
  {
  }

  /** Removing a friendship twice is the same as removing it once, and
      afterwards neither side lists the other. */
  lemma RemoveIdempotent(db: Db, user: UserId, friend: UserId)
    ensures Remove(Remove(db, user, friend), user, friend) == Remove(db, user, friend)
    ensures friend !in FriendsOf(Remove(db, user, friend), user)
    ensures user !in FriendsOf(Remove(db, user, friend), friend)
  {
  }

  /** Every operation keeps the friendship rows paired and the ids fresh. */
  lemma OperationsPreserveInvariants(db: Db, a: UserId, b: UserId, requestId: RequestId)
    requires Valid(db) && Symmetric(db)
    ensures var s := Send(db, a, b); s.Success? ==> Valid(s.value) && Symmetric(s.value)
    ensures var c := Accept(db, requestId, b); c.Success? ==> Valid(c.value) && Symmetric(c.value)
    ensures Valid(Reject(db, requestId, b)) && Symmetric(Reject(db, requestId, b))
    ensures Valid(Remove(db, a, b)) && Symmetric(Remove(db, a, b))
  {
  }

  /** Rejecting a request the caller did not receive changes nothing;
      rejecting one it did receive removes it and leaves friendships as they
      were. */
  lemma RejectOnlyOwnRequest(db: Db, requestId: RequestId, caller: UserId)
    ensures var db' := Reject(db, requestId, caller);
            && db'.friendships == db.friendships
            && requestId !in PendingReceived(db', caller)
            && forall id :: id != requestId ==> (id in db'.pending <==> id in db.pending)
  {
  }
}
