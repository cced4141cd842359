/**
 The two portals of the demo and the paths the book views navigate to.
 A view is in admin mode when the current pathname starts with
 `/adminportal`; every path it builds stays inside the portal it is in.
 */
module Routes {
  import opened Common
  import Text

  const AdminRoot := "/adminportal"
  const UserRoot := "/userportal"

  /** `loc.pathname.startsWith("/adminportal")`. */
  predicate IsAdmin(pathname: string)
    ensures IsAdmin(pathname) <==> Text.OccursAt(pathname, AdminRoot, 0)
  {
    Text.StartsWith(pathname, AdminRoot)
  }

  function PortalRoot(admin: bool): string {
    if admin then AdminRoot else UserRoot
  }

  /** Every path under the user portal's root is a non-admin path. */
  lemma UserRootIsNotAdmin(p: string)
    requires Text.StartsWith(p, UserRoot)
    ensures !IsAdmin(p)
  {
    assert p[1] == 'u';
  }

  /** A path under the portal root selected by `admin` is in admin mode exactly when `admin` holds. */
  lemma UnderPortal(admin: bool, rest: string)
    ensures IsAdmin(PortalRoot(admin) + rest) == admin
  {
    var p := PortalRoot(admin) + rest;
    if admin {
      assert p[..|AdminRoot|] == AdminRoot;
    } else {
      assert p[..|UserRoot|] == UserRoot;
      UserRootIsNotAdmin(p);
    }
  }

  /** The detail page of book `id` (`navigate(id)` in the list view). */
  function ReadbookPath(admin: bool, id: Id): (p: string)
    ensures IsAdmin(p) == admin
    ensures Text.StartsWith(p, PortalRoot(admin)) && Text.EndsWith(p, "/readbook/" + id)
    ensures |p| == |PortalRoot(admin)| + |"/readbook/" + id|
  {
    UnderPortal(admin, "/readbook/" + id);
    PortalRoot(admin) + "/readbook/" + id
  }

  /** The book list (`goBack()` in the detail view). */
  function BooksPath(admin: bool): (p: string)
    ensures IsAdmin(p) == admin
    ensures Text.StartsWith(p, PortalRoot(admin)) && Text.EndsWith(p, "/books")
    ensures |p| == |PortalRoot(admin)| + |"/books"|
  {
    UnderPortal(admin, "/books");
    PortalRoot(admin) + "/books"
  }
}
