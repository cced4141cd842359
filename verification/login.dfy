/**
 The two login forms (`src/Userlogin.jsx`, `src/Adminlogin.jsx`). Each
 submit ends in exactly one of three outcomes, checked in a fixed order:
 a missing field, the portal's own credentials, anything else.
 */
module Login {
  import Routes

  /** What a submit does: show an alert, or navigate to a path. */
  datatype Outcome = Alert(message: string) | Navigate(path: string)

  const MissingInput := "Enter the name && password"
  const InvalidCredentials := "Enter the valid credentials"

  /** The shared decision: empty fields first, then an exact, case-sensitive match. */
  function Decide(name: string, password: string, expectedName: string, expectedPassword: string,
                  portal: string): Outcome
  {
    if name == "" || password == "" then Alert(MissingInput)
    else if name == expectedName && password == expectedPassword then Navigate(portal)
    else Alert(InvalidCredentials)
  }

  /** The user form: only `User` / `User123` enters the user portal. */
  function UserLogin(name: string, password: string): (r: Outcome)
    ensures r == Alert(MissingInput) <==> name == "" || password == ""
    ensures r == Navigate(Routes.UserRoot) <==> name == "User" && password == "User123"
    ensures r == Alert(InvalidCredentials) <==>
      name != "" && password != "" && (name != "User" || password != "User123")
    ensures r.Navigate? ==> !Routes.IsAdmin(r.path)
  {
    Routes.UserRootIsNotAdmin(Routes.UserRoot);
    Decide(name, password, "User", "User123", Routes.UserRoot)
  }

  /** The admin form: only `Admin` / `Admin123` enters the admin portal. */
  function AdminLogin(name: string, password: string): (r: Outcome)
    ensures r == Alert(MissingInput) <==> name == "" || password == ""
    ensures r == Navigate(Routes.AdminRoot) <==> name == "Admin" && password == "Admin123"
    ensures r == Alert(InvalidCredentials) <==>
      name != "" && password != "" && (name != "Admin" || password != "Admin123")
    ensures r.Navigate? ==> Routes.IsAdmin(r.path)
  {
    Decide(name, password, "Admin", "Admin123", Routes.AdminRoot)
  }

  /** Each form rejects the other form's credentials, and matching is case-sensitive. */
  lemma CredentialsDoNotCross()
    ensures AdminLogin("User", "User123") == Alert(InvalidCredentials)
    ensures UserLogin("Admin", "Admin123") == Alert(InvalidCredentials)
    ensures UserLogin("user", "User123") == Alert(InvalidCredentials)
    ensures AdminLogin("Admin", "admin123") == Alert(InvalidCredentials)
  {
  }
}
