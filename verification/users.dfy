/**
 The admin's user list (`src/components/Admin/User.jsx`): what it renders
 and the removal of a user.
 */
module Users {
  import opened Common
  import Records

  /** A user record; `phone` and `address` may be missing or empty. */
  datatype User = User(id: Id, firstName: string, lastName: string, email: string,
                       phone: Option<string>, address: Option<string>)

  function UserId(u: User): Id {
    u.id
  }

  const NotAvailable := "not available"

  /** `value ? value : "not available"`. */
  function OrNotAvailable(v: Option<string>): (r: string)
    ensures Truthy(v) ==> r == v.value
    ensures !Truthy(v) ==> r == NotAvailable
    ensures r != ""
  {
    if Truthy(v) then v.value else NotAvailable
  }

  /** One user card as shown. */
  datatype UserCard = UserCard(id: Id, firstName: string, lastName: string, email: string,
                               phone: string, address: string)

  function Card(u: User): (c: UserCard)
    ensures c.id == u.id && c.firstName == u.firstName && c.lastName == u.lastName && c.email == u.email
    ensures c.phone == OrNotAvailable(u.phone) && c.address == OrNotAvailable(u.address)
    ensures c.phone != "" && c.address != ""
  {
    UserCard(u.id, u.firstName, u.lastName, u.email, OrNotAvailable(u.phone), OrNotAvailable(u.address))
  }

  function Cards(data: seq<User>): (cs: seq<UserCard>)
    ensures |cs| == |data|
    ensures forall i | 0 <= i < |data| :: cs[i] == Card(data[i])
  {
    if data == [] then [] else [Card(data[0])] + Cards(data[1..])
  }

  /** Either the "users list is empty" heading, or the count header and one card per user. */
  datatype UsersView = EmptyList | UserList(total: nat, cards: seq<UserCard>)

  /** `isEmpty` (no users) selects the empty heading; otherwise the header counts the users. */
  function RenderUsers(data: seq<User>): (v: UsersView)
    ensures v.EmptyList? <==> |data| == 0
    ensures v.UserList? ==> v.total == |data| && |v.cards| == |data|
    ensures v.UserList? ==> forall i | 0 <= i < |data| :: v.cards[i] == Card(data[i])
  {
    if |data| == 0 then EmptyList else UserList(|data|, Cards(data))
  }

  /**
   `remove(id)`: the DELETE's `.then` runs whenever the request resolves,
   whatever its status, and keeps exactly the users with another id; a
   rejected request changes nothing.
   */
  function RemoveUser(data: seq<User>, id: Id, reply: Reply<()>): (r: seq<User>)
    ensures reply.NetworkError? ==> r == data
    ensures !reply.NetworkError? ==>
      |r| == |data| - Records.CountId(data, UserId, id) &&
      (forall i | 0 <= i < |r| :: r[i] in data && r[i].id != id) &&
      (forall i | 0 <= i < |data| && data[i].id != id :: data[i] in r)
  {
    if reply.NetworkError? then data
    else
      Records.WithoutLength(data, UserId, id);
      Records.WithoutAt(data, UserId, id);
      Records.Without(data, UserId, id)
  }

  /**
   Removal keeps the surviving users in their order: removing from two halves
   of the list and concatenating gives the same list.
   */
  lemma RemoveUserKeepsOrder(xs: seq<User>, ys: seq<User>, id: Id, reply: Reply<()>)
    requires !reply.NetworkError?
    ensures RemoveUser(xs + ys, id, reply) == RemoveUser(xs, id, reply) + RemoveUser(ys, id, reply)
  {
    Records.WithoutAppend(xs, ys, UserId, id);
  }

  /** A removal that reaches the backend empties the view exactly when every listed user had that id. */
  lemma RemoveEmptiesView(data: seq<User>, id: Id, reply: Reply<()>)
    requires !reply.NetworkError?
    ensures RenderUsers(RemoveUser(data, id, reply)).EmptyList? <==> forall i | 0 <= i < |data| :: data[i].id == id
  {
    Records.CountIdAll(data, UserId, id);
  }
}
