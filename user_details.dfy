/**
 * The user record the token utility is handed, and the repository's lookup
 * stub, which answers every name with the same hard-coded user.
 */
module UserDetailsService {

  /** A user: name, password and granted authorities. */
  datatype UserDetails = UserDetails(username: string, password: string, authorities: seq<string>)

  /** The stub lookup: whatever name is asked for, the user "foo" with no authorities. */
  function LoadUserByUsername(name: string): (user: UserDetails)
    ensures user.username == "foo" && user.authorities == []
  {
    UserDetails("foo", "foo", [])
  }
}
