/**
 * The `Connection` model of the file manager: one stored SFTP credential
 * owned by an application user.
 *
 * Two views of the same record are kept apart, as Django keeps them apart:
 * `Row` is what the database table holds, and the class `Connection` is a
 * model instance in memory, whose fields a view assigns one by one before
 * it calls `save()`.
 */
module Models {

  /** Primary key of the application user who owns a credential. */
  type UserId = nat

  /** The `max_length` of the three character columns. */
  const HostMaxLength: nat := 30
  const UsernameMaxLength: nat := 20
  const PasswordMaxLength: nat := 50

  /** One row of the connection table; `id` is the primary key assigned on insert. */
  datatype Row = Row(id: nat, user: UserId, host: string, username: string, password: string)

  /** The row fits the widths declared for its columns. */
  predicate Fits(r: Row) {
    |r.host| <= HostMaxLength && |r.username| <= UsernameMaxLength && |r.password| <= PasswordMaxLength
  }

  /** `__str__`: a credential is shown as `username@host`. */
  function Display(username: string, host: string): (s: string)
    ensures |s| == |username| + 1 + |host|
    ensures s[..|username|] == username
    ensures s[|username|] == '@'
    ensures s[|username| + 1..] == host
  {
    username + "@" + host
  }

  /** The representation the model test expects. */
  lemma DisplayExample()
    ensures Display("anna", "34.56.78.39") == "anna@34.56.78.39"
  {
  }

  /**
   * The string determines the credential when the host holds no `@`: the
   * separator is then the last `@` of the string, whatever the username holds.
   */
  lemma DisplayDeterminesParts(u1: string, h1: string, u2: string, h2: string)
    requires '@' !in h1 && '@' !in h2
    requires Display(u1, h1) == Display(u2, h2)
    ensures u1 == u2 && h1 == h2
  {
  }

  /** A model instance of `Connection`. */
  class Connection {
    var id: nat
    var user: UserId
    var host: string
    var username: string
    var password: string

    /** The instance the ORM builds from a stored row. */
    constructor FromRow(r: Row)
      ensures Value() == r
    {
      id, user, host, username, password := r.id, r.user, r.host, r.username, r.password;
    }

    /** The row that `save()` writes for this instance. */
    function Value(): Row
      reads this
    {
      Row(id, user, host, username, password)
    }

    /** `__str__` of the instance. */
    function ToString(): (s: string)
      reads this
      ensures |s| == |username| + 1 + |host|
      ensures s[..|username|] == username && s[|username|] == '@' && s[|username| + 1..] == host
    {
      Display(username, host)
    }

    /** `set_user`: only the owner changes. */
    method SetUser(value: UserId)
      modifies this
      ensures user == value
      ensures id == old(id) && host == old(host) && username == old(username) && password == old(password)
    {
      user := value;
    }
  }
}
