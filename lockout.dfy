/** The server's set of blocked usernames (`blockedAccounts`). */
module Lockout {

  class LockoutRegistry {
    var blocked: set<string>

    /** The server starts with nobody blocked. */
    constructor ()
      ensures blocked == {}
    {
      blocked := {};
    }

    /** `checkBlocked`: membership in the blocked set; nothing changes. */
    method CheckBlocked(username: string) returns (r: bool)
      ensures r <==> username in blocked
    {
      r := username in blocked;
    }

    /** The first half of `blockAccount`: the username joins the set. */
    method Block(username: string)
      modifies this
      ensures blocked == old(blocked) + {username}
    {
      blocked := blocked + {username};
    }

    /** The second half of `blockAccount`: `set.remove`, which raises
        `KeyError` for a username that is not in the set. */
    method Unblock(username: string)
      requires username in blocked
      modifies this
      ensures blocked == old(blocked) - {username}
    {
      blocked := blocked - {username};
    }

    /** `blockAccount` as one connection sees it: block, wait (the ten
        seconds are not modelled), unblock. Whatever the set held before,
        the username is no longer blocked afterwards. */
    method BlockAccount(username: string)
      modifies this
      ensures blocked == old(blocked) - {username}
    {
      Block(username);
      Unblock(username);
    }
  }
}
