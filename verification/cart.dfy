/**
 The cart view (`src/Addtocart.jsx`): the cart rows loaded from the backend
 and the confirmed removal of a row.
 */
module Cart {
  import opened Common
  import Records

  /** A cart row: the row's own `id` and the `cartid` of the book it holds. */
  datatype CartItem = CartItem(id: Id, cartid: Id, cartimage: string, carttitle: string)

  function ItemId(c: CartItem): Id {
    c.id
  }

  const Removed := "Book got removed"
  const NotRemoved := "book is not removed"

  /**
   `removeFromCart(id, name)`. Declining keeps the rows. Once confirmed,
   the DELETE's `.then` runs whenever the request resolves, whatever its
   status, and drops every row whose row `id` (not `cartid`) is `id`; a
   rejected request leaves the rows as they were.
   */
  function RemoveFromCart(data: seq<CartItem>, id: Id, confirmed: bool, reply: Reply<()>): (u: Update<CartItem>)
    ensures !confirmed ==> u == Update(data, Some(NotRemoved))
    ensures confirmed && reply.NetworkError? ==> u == Update(data, None)
    ensures confirmed && !reply.NetworkError? ==>
      u.alert == Some(Removed) &&
      |u.data| == |data| - Records.CountId(data, ItemId, id) &&
      (forall i | 0 <= i < |u.data| :: u.data[i] in data && u.data[i].id != id) &&
      (forall i | 0 <= i < |data| && data[i].id != id :: data[i] in u.data)
  {
    if !confirmed then Update(data, Some(NotRemoved))
    else if reply.NetworkError? then Update(data, None)
    else
      Records.WithoutLength(data, ItemId, id);
      Records.WithoutAt(data, ItemId, id);
      Update(Records.Without(data, ItemId, id), Some(Removed))
  }

  /**
   The Remove button of row `row`, which passes that row's `id`. A confirmed
   removal that reaches the backend takes the clicked row away and shortens
   the list, while rows that merely hold the same book (`cartid`) under
   another row id stay.
   */
  function RemoveRow(data: seq<CartItem>, row: nat, confirmed: bool, reply: Reply<()>): (u: Update<CartItem>)
    requires row < |data|
    ensures !confirmed ==> u == Update(data, Some(NotRemoved))
    ensures confirmed && reply.NetworkError? ==> u == Update(data, None)
    ensures confirmed && !reply.NetworkError? ==>
      u.alert == Some(Removed) && data[row] !in u.data && |u.data| < |data| &&
      forall i | 0 <= i < |data| && data[i].cartid == data[row].cartid && data[i].id != data[row].id ::
        data[i] in u.data
  {
    Records.CountIdAt(data, ItemId, data[row].id, row);
    RemoveFromCart(data, data[row].id, confirmed, reply)
  }

  /**
   Removal keeps the surviving rows in their order: removing from two halves
   of the cart and concatenating gives the same rows.
   */
  lemma RemoveFromCartKeepsOrder(xs: seq<CartItem>, ys: seq<CartItem>, id: Id, reply: Reply<()>)
    requires !reply.NetworkError?
    ensures RemoveFromCart(xs + ys, id, true, reply).data
         == RemoveFromCart(xs, id, true, reply).data + RemoveFromCart(ys, id, true, reply).data
  {
    Records.WithoutAppend(xs, ys, ItemId, id);
  }

  /** The header `total item: n` counts the rows. */
  function Total(data: seq<CartItem>): (n: nat)
    ensures n == |data|
    ensures n == 0 <==> data == []
  {
    |data|
  }

  /** After a confirmed removal that reached the backend the header drops by the number of rows with that id. */
  lemma TotalAfterRemove(data: seq<CartItem>, id: Id, reply: Reply<()>)
    requires !reply.NetworkError?
    ensures Total(RemoveFromCart(data, id, true, reply).data) == Total(data) - Records.CountId(data, ItemId, id)
  {
  }
}
