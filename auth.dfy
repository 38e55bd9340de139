/** The scope rule of auth_config.py that guards every file operation. */
module Auth {

  /** `check_scope`: the required scope is granted when the token lists it,
      or when it lists `admin`. */
  function CheckScope(required: string, scopes: seq<string>): (granted: bool)
    ensures required in scopes ==> granted
    ensures "admin" in scopes ==> granted
    ensures scopes == [] ==> !granted
    ensures granted ==> exists s :: s in scopes && (s == required || s == "admin")
  {
    required in scopes || "admin" in scopes
  }

  /** A token that lists neither the required scope nor `admin` is refused;
      a read-only token, for one, does not grant `write`. */
  lemma MissingScopeRefused(required: string, scopes: seq<string>)
    requires required !in scopes && "admin" !in scopes
    ensures !CheckScope(required, scopes)
  {
  }

  /** Adding scopes never withdraws a grant. */
  lemma CheckScopeMonotone(required: string, scopes: seq<string>, more: seq<string>)
    requires forall s :: s in scopes ==> s in more
    ensures CheckScope(required, scopes) ==> CheckScope(required, more)
  {
  }
}
