/**
 The book list view (`src/Book.jsx`): loading the list with its fallback to
 the static snapshot, choosing what to render, and the three list updates
 (delete, add, update) with their HTTP outcomes given as inputs.
 */
module BookList {
  import opened Common
  import Records
  import Routes
  import Text

  /** A book's `authors` field: an array of names, some other value, or absent. */
  datatype Authors = Names(names: seq<string>) | Single(text: string) | NoAuthors

  datatype Book = Book(id: Id, title: string, authors: Authors, thumbnailUrl: string)

  function BookId(b: Book): Id {
    b.id
  }

  const LoadError := "Failed to load books. Please check if backend is running on port 10000."
  const Deleted := "Book deleted successfully!"
  const DeleteFailed := "Failed to delete book. Please try again."

  /**
   What the fetch of the static `data.json` delivered: a parsed document
   with or without a usable `books` array, or nothing (the request
   rejected or the body was not JSON).
   */
  datatype LocalReply = Parsed(books: Option<seq<Book>>) | Unparsed

  /** The view's state: `data`, `loading` and `error`. */
  datatype BookState = BookState(data: seq<Book>, loading: bool, error: Option<string>)

  /** The state on mount, before `fetchBooks` settles. */
  const Initial := BookState([], true, None)

  /** `json.books || []`, or `[]` when the snapshot could not be read. */
  function SnapshotBooks(local: LocalReply): (r: seq<Book>)
    ensures local.Parsed? && local.books.Some? ==> r == local.books.value
    ensures local.Unparsed? || local.books.None? ==> r == []
  {
    match local
    case Parsed(Some(books)) => books
    case _ => []
  }

  /**
   The state once `fetchBooks` and the fallback it starts have settled.
   A backend list wins outright and clears the error; otherwise the fixed
   error message is set and the data comes from the snapshot.
   */
  function FetchBooks(backend: Reply<seq<Book>>, local: LocalReply): (s: BookState)
    ensures !s.loading
    ensures s.error.None? <==> backend.Ok?
    ensures s.error.Some? ==> s.error.value == LoadError
    ensures backend.Ok? ==> s.data == backend.body
    ensures !backend.Ok? ==> s.data == SnapshotBooks(local)
  {
    if backend.Ok? then BookState(backend.body, false, None)
    else BookState(SnapshotBooks(local), false, Some(LoadError))
  }

  /** The four branches the view can render. */
  datatype View = Loading | ConnectionError(message: string) | NoBooks | Grid(total: nat, books: seq<Book>)

  /** Loading before error, error before the list, and an empty list before the grid. */
  function Render(s: BookState): (v: View)
    ensures v.Loading? <==> s.loading
    ensures v.ConnectionError? <==> !s.loading && Truthy(s.error)
    ensures v.ConnectionError? ==> v.message == s.error.value
    ensures v.NoBooks? <==> !s.loading && !Truthy(s.error) && |s.data| == 0
    ensures v.Grid? ==> v.total == |s.data| > 0 && v.books == s.data
  {
    if s.loading then Loading
    else if Truthy(s.error) then ConnectionError(s.error.value)
    else if |s.data| == 0 then NoBooks
    else Grid(|s.data|, s.data)
  }

  /** On mount the view shows the loading branch. */
  lemma MountShowsLoading()
    ensures Render(Initial) == Loading
  {
  }

  /** A failed backend always ends on the error view, whatever the snapshot held. */
  lemma BackendFailureShowsError(backend: Reply<seq<Book>>, local: LocalReply)
    requires !backend.Ok?
    ensures Render(FetchBooks(backend, local)) == ConnectionError(LoadError)
  {
  }

  /** A list from the backend is shown as it came, or as "no books" when it is empty. */
  lemma BackendListShown(books: seq<Book>, local: LocalReply)
    ensures Render(FetchBooks(Ok(books), local)) == if books == [] then NoBooks else Grid(|books|, books)
  {
  }

  /**
   `remove(id)`: nothing happens outside the admin portal or when the
   confirmation is declined; an ok DELETE drops every book with that id,
   any other outcome keeps the list and reports the failure.
   */
  function Remove(data: seq<Book>, pathname: string, id: Id, confirmed: bool, reply: Reply<()>): (u: Update<Book>)
    ensures !Routes.IsAdmin(pathname) || !confirmed ==> u == Update(data, None)
    ensures Routes.IsAdmin(pathname) && confirmed && reply.Ok? ==>
      u.alert == Some(Deleted) &&
      |u.data| == |data| - Records.CountId(data, BookId, id) &&
      (forall i | 0 <= i < |u.data| :: u.data[i] in data && u.data[i].id != id) &&
      (forall i | 0 <= i < |data| && data[i].id != id :: data[i] in u.data)
    ensures Routes.IsAdmin(pathname) && confirmed && !reply.Ok? ==> u == Update(data, Some(DeleteFailed))
  {
    if !Routes.IsAdmin(pathname) || !confirmed then Update(data, None)
    else if reply.Ok? then
      Records.WithoutLength(data, BookId, id);
      Records.WithoutAt(data, BookId, id);
      Update(Records.Without(data, BookId, id), Some(Deleted))
    else Update(data, Some(DeleteFailed))
  }

  /**
   Deletion keeps the surviving books in their order: deleting from two
   halves of the list and concatenating gives the same list.
   */
  lemma RemoveKeepsOrder(xs: seq<Book>, ys: seq<Book>, pathname: string, id: Id)
    requires Routes.IsAdmin(pathname)
    ensures Remove(xs + ys, pathname, id, true, Ok(())).data
         == Remove(xs, pathname, id, true, Ok(())).data + Remove(ys, pathname, id, true, Ok(())).data
  {
    Records.WithoutAppend(xs, ys, BookId, id);
  }

  /** The list and the value `handleAddBook`/`handleUpdateBook` resolve to. */
  datatype Saved = Saved(data: seq<Book>, returned: Option<Book>)

  /** `handleAddBook`: an ok POST appends the created book; anything else changes nothing. */
  function AddBook(data: seq<Book>, reply: Reply<Book>): (r: Saved)
    ensures reply.Ok? ==>
      |r.data| == |data| + 1 && r.data[..|data|] == data && r.data[|data|] == reply.body &&
      r.returned == Some(reply.body)
    ensures !reply.Ok? ==> r == Saved(data, None)
  {
    if reply.Ok? then Saved(data + [reply.body], Some(reply.body))
    else Saved(data, None)
  }

  /**
   `handleUpdateBook`: an ok PUT replaces every book whose id is `id` by
   the returned book, in place; anything else changes nothing.
   */
  function UpdateBook(data: seq<Book>, id: Id, reply: Reply<Book>): (r: Saved)
    ensures reply.Ok? ==>
      |r.data| == |data| && r.returned == Some(reply.body) &&
      forall i | 0 <= i < |data| :: r.data[i] == if data[i].id == id then reply.body else data[i]
    ensures !reply.Ok? ==> r == Saved(data, None)
  {
    if reply.Ok? then Saved(Records.ReplaceWhere(data, BookId, id, reply.body), Some(reply.body))
    else Saved(data, None)
  }

  /**
   Deleting a freshly created book (one whose id no listed book had) gives
   back the list as it was before the add.
   */
  lemma AddThenRemove(data: seq<Book>, created: Book, pathname: string)
    requires Routes.IsAdmin(pathname)
    requires forall i | 0 <= i < |data| :: data[i].id != created.id
    ensures Remove(AddBook(data, Ok(created)).data, pathname, created.id, true, Ok(())).data == data
  {
    Records.WithoutAppend(data, [created], BookId, created.id);
    Records.WithoutAbsent(data, BookId, created.id);
    assert Records.Without([created], BookId, created.id) == [];
  }

  /**
   An update that keeps the id touches only the books with that id:
   deleting the id afterwards leaves the same list as deleting it before.
   */
  lemma UpdateThenRemove(data: seq<Book>, id: Id, updated: Book, pathname: string)
    requires Routes.IsAdmin(pathname) && updated.id == id
    ensures Remove(UpdateBook(data, id, Ok(updated)).data, pathname, id, true, Ok(())).data
         == Remove(data, pathname, id, true, Ok(())).data
  {
    Records.ReplaceThenWithout(data, BookId, id, updated);
  }

  /** `navigate(id)`: the detail page of the book, in the portal the list is shown in. */
  function Navigate(pathname: string, id: Id): (p: string)
    ensures Routes.IsAdmin(p) == Routes.IsAdmin(pathname)
    ensures Text.StartsWith(p, Routes.PortalRoot(Routes.IsAdmin(pathname))) && Text.EndsWith(p, "/readbook/" + id)
    ensures |p| == |Routes.PortalRoot(Routes.IsAdmin(pathname))| + |"/readbook/" + id|
  {
    Routes.ReadbookPath(Routes.IsAdmin(pathname), id)
  }
}
