/**
 The book detail view (`src/Readbook.jsx`): the author line, the buttons it
 shows, the way back to the list, and the guarded add-to-cart action.
 */
module Readbook {
  import opened Common
  import Text
  import Routes
  import BookList
  import Cart

  /** The record the view posts to `/cart`: it carries no row id. */
  datatype CartRecord = CartRecord(cartid: Id, cartimage: string, carttitle: string)

  const CartPage := "/userportal/Addtocart"
  const AlreadyInCartAlert := "Book already in Cart!"
  const AddedAlert := "book to cart"

  /**
   Either the duplicate alert alone, or the POST of `record`, the
   confirmation alert, and navigation to `destination`.
   */
  datatype AddOutcome =
    | AlreadyInCart(alert: string)
    | Posted(record: CartRecord, alert: string, destination: string)

  /** `cart.some(item => item.cartid === id)`. */
  predicate InCart(cart: seq<Cart.CartItem>, id: Id)
    ensures InCart(cart, id) <==> exists i | 0 <= i < |cart| :: cart[i].cartid == id
  {
    if cart == [] then false
    else cart[0].cartid == id || InCart(cart[1..], id)
  }

  /**
   `addtocart(id, title, image)` against the cart as loaded on mount: a
   book already in the cart (by `cartid`) posts nothing; otherwise exactly
   `{cartid: id, cartimage: image, carttitle: title}` is posted and the
   view moves to the cart page.
   */
  function AddToCart(cart: seq<Cart.CartItem>, id: Id, title: string, image: string): (r: AddOutcome)
    ensures r.AlreadyInCart? <==> exists i | 0 <= i < |cart| :: cart[i].cartid == id
    ensures r.AlreadyInCart? ==> r.alert == AlreadyInCartAlert
    ensures r.Posted? ==> r.alert == AddedAlert
    ensures r.Posted? ==> r.record.cartid == id && r.record.cartimage == image && r.record.carttitle == title
    ensures r.Posted? ==> r.destination == CartPage && !Routes.IsAdmin(r.destination)
  {
    if InCart(cart, id) then AlreadyInCart(AlreadyInCartAlert)
    else
      Routes.UserRootIsNotAdmin(CartPage);
      Posted(CartRecord(id, image, title), AddedAlert, CartPage)
  }

  /** The button's click: the shown book's `id`, `title` and `thumbnailUrl`. */
  function AddBookToCart(cart: seq<Cart.CartItem>, book: BookList.Book): (r: AddOutcome)
    ensures r.AlreadyInCart? <==> exists i | 0 <= i < |cart| :: cart[i].cartid == book.id
    ensures r.Posted? ==> r.record == CartRecord(book.id, book.thumbnailUrl, book.title)
  {
    AddToCart(cart, book.id, book.title, book.thumbnailUrl)
  }

  /**
   The view never adds the posted record to its own `cart`, so a second
   click against the same cart posts the same record again; only a cart
   reloaded with the stored row (under whatever row id the backend gave
   it) makes the guard fire.
   */
  lemma ReloadedCartBlocksDuplicate(cart: seq<Cart.CartItem>, book: BookList.Book, rowId: Id)
    requires AddBookToCart(cart, book).Posted?
    ensures var rec := AddBookToCart(cart, book).record;
      AddBookToCart(cart + [Cart.CartItem(rowId, rec.cartid, rec.cartimage, rec.carttitle)], book).AlreadyInCart?
  {
    var rec := AddBookToCart(cart, book).record;
    var cart' := cart + [Cart.CartItem(rowId, rec.cartid, rec.cartimage, rec.carttitle)];
    assert cart'[|cart|].cartid == book.id;
  }

  /**
   `Array.isArray(authors) ? authors.join(', ') : authors`; an absent value
   renders as nothing. With `AuthorLineAppend`, the single-name case fixes
   the line of every non-empty array.
   */
  function AuthorLine(a: BookList.Authors): (line: string)
    ensures a.Single? ==> line == a.text
    ensures a.NoAuthors? ==> line == ""
    ensures a == BookList.Names([]) ==> line == ""
    ensures a.Names? && |a.names| == 1 ==> line == a.names[0]
    ensures a.Names? && a.names != [] ==> |line| == Text.TotalLength(a.names) + 2 * (|a.names| - 1)
  {
    match a
    case Names(names) =>
      Text.JoinLength(names, ", ");
      Text.Join(names, ", ")
    case Single(text) => text
    case NoAuthors => ""
  }

  /** One more author extends the line by ", " and that name. */
  lemma AuthorLineAppend(names: seq<string>, name: string)
    requires names != []
    ensures AuthorLine(BookList.Names(names + [name])) == AuthorLine(BookList.Names(names)) + ", " + name
  {
    Text.JoinSnoc(names, name, ", ");
  }

  datatype Button = Back | AddToCartButton

  /** The Back button always; the Add to Cart button only outside the admin portal. */
  function Buttons(pathname: string): (bs: seq<Button>)
    ensures Back in bs
    ensures AddToCartButton in bs <==> !Routes.IsAdmin(pathname)
  {
    [Back] + (if Routes.IsAdmin(pathname) then [] else [AddToCartButton])
  }

  /** `goBack()`: the book list of the portal the view is in. */
  function GoBack(pathname: string): (p: string)
    ensures Routes.IsAdmin(p) == Routes.IsAdmin(pathname)
    ensures Text.StartsWith(p, Routes.PortalRoot(Routes.IsAdmin(pathname))) && Text.EndsWith(p, "/books")
    ensures |p| == |Routes.PortalRoot(Routes.IsAdmin(pathname))| + |"/books"|
  {
    Routes.BooksPath(Routes.IsAdmin(pathname))
  }
}
