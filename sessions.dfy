/** The server-side session of one client: a small map from string keys to string values. */
module Sessions {
  import opened Wrappers

  /** The session keys the controllers use. */
  const UsernameKey: string := "username"
  const RoleKey: string := "role"

  /** `GetString` on a session's values: `None` when the key was never set. */
  function Lookup(values: map<string, string>, key: string): Option<string>
  {
    if key in values then Some(values[key]) else None
  }

  /** `HttpContext.Session`. */
  class Session {
    var values: map<string, string>

    /** A new client's session holds nothing. */
    constructor ()
      ensures values == map[]
    {
      values := map[];
    }

    /** `SetString`: sets one key and leaves the others as they were. */
    method SetString(key: string, value: string)
      modifies this
      ensures values == old(values)[key := value]
    {
      values := values[key := value];
    }

    /** `Clear`: removes every key. */
    method Clear()
      modifies this
      ensures values == map[]
    {
      values := map[];
    }
  }
}
