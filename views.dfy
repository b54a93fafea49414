/**
 * The views of the file manager that touch the connection table or a
 * remote server, once the request has been authenticated: the current
 * user arrives as a `UserId`, the verdict of the connection form as a
 * boolean, and whatever the remote server answers as a parameter.
 */
module Views {
  import opened Models
  import opened Paths
  import opened Store

  datatype Option<T> = None | Some(value: T)

  type Byte = bv8

  /** What a browsing or download view sends back. */
  datatype Response<T> =
    | Render(body: T)                 // a page or an attachment
    | PlainText(text: string)         // a short message
    | ServerError(exception: Exception)

  /** The page of `open_connection`. */
  datatype BrowsePage = BrowsePage(listing: Browsing, flagged: Row, connections: seq<Row>)

  /** The response of `get_file`. */
  datatype Attachment = Attachment(contentType: string, disposition: string, body: seq<Byte>)

  const CannotConnect := "Can`t connect to remote server."

  /** The connection table. */
  class ConnectionTable {
    var rows: seq<Row>
    /** The primary key the next insert receives. */
    var nextId: nat

    ghost predicate Valid()
      reads this
    {
      IdsDistinct(rows) && forall r :: r in rows ==> r.id < nextId && Fits(r)
    }

    constructor ()
      ensures Valid() && rows == [] && nextId == 0
    {
      rows, nextId := [], 0;
    }

    /** Every stored row fits the column widths of the model. */
    lemma StoredRowsFit()
      requires Valid()
      ensures forall r :: r in rows ==>
                |r.host| <= HostMaxLength && |r.username| <= UsernameMaxLength && |r.password| <= PasswordMaxLength
    {
    }

    /** `all_connections`: the rows of `user`. */
    function AllConnections(user: UserId): (conns: seq<Row>)
      reads this
      ensures forall c :: c in conns <==> c in rows && c.user == user
    {
      OwnedBy(rows, user)
    }

    /** `Connection.objects.create(...)`; the database refuses a row wider than its columns. */
    method Create(user: UserId, host: string, username: string, password: string) returns (o: Outcome)
      requires Valid()
      modifies this
      ensures Valid()
      ensures var row := Row(old(nextId), user, host, username, password);
              if Fits(row) then o == Created && rows == old(rows) + [row] && nextId == old(nextId) + 1
              else o == Raised(DataError) && rows == old(rows) && nextId == old(nextId)
    {
      var row := Row(nextId, user, host, username, password);
      if !Fits(row) {
        return Raised(DataError);
      }
      forall i, j | 0 <= i < j < |rows + [row]| ensures (rows + [row])[i].id != (rows + [row])[j].id {
        assert (rows + [row])[i] in rows;
      }
      rows := rows + [row];
      nextId := nextId + 1;
      o := Created;
    }

    /** `conn.save()` for an instance loaded from this table. */
    method Save(conn: Connection) returns (o: Outcome)
      requires Valid()
      requires exists r :: r in rows && r.id == conn.id
      modifies this
      ensures Valid() && nextId == old(nextId)
      ensures if Fits(conn.Value()) then o == Saved && rows == SaveRow(old(rows), conn.Value())
              else o == Raised(DataError) && rows == old(rows)
    {
      var row := conn.Value();
      if !Fits(row) {
        return Raised(DataError);
      }
      var saved := SaveRow(rows, row);
      forall r | r in saved ensures r.id < nextId && Fits(r) {
        var k :| 0 <= k < |saved| && saved[k] == r;
        assert rows[k] in rows;
      }
      rows := saved;
      o := Saved;
    }

    /** `add_connection` on a POST. */
    method AddConnection(user: UserId, host: string, username: string, password: string,
                         formValid: bool, probe: Probe) returns (o: Outcome)
      requires Valid()
      modifies this
      ensures Valid()
      ensures Step(o, rows) == AddStep(old(rows), old(nextId), user, host, username, password, formValid, probe)
      ensures nextId == if o == Created then old(nextId) + 1 else old(nextId)
    {
      var existing := Get(rows, user, username, host);
      if existing.Found? {
        return AlreadyExists;
      } else if existing.Multiple? {
        return Raised(MultipleObjectsReturned);
      }
      if !formValid {
        return FormRejected;
      }
      match probe
      case NotADirectory =>
        return ProbeFailed;
      case OtherFailure =>
        return Raised(RemoteError);
      case Reachable =>
        o := Create(user, host, username, password);
    }

    /**
     * `edit_connection` on a POST for the credential `username@host` of the
     * URL, with the posted host, username and password. The fields of the
     * loaded instance are assigned in the order of the view.
     */
    method EditConnection(user: UserId, username: string, host: string, formValid: bool,
                          postHost: string, postUsername: string, postPassword: string) returns (o: Outcome)
      requires Valid()
      modifies this
      ensures Valid() && nextId == old(nextId)
      ensures Step(o, rows) == EditStep(old(rows), user, username, host, formValid, postHost, postUsername, postPassword)
    {
      var found := Get(rows, user, username, host);
      if found.NotFound? {
        return Raised(DoesNotExist);
      } else if found.Multiple? {
        return Raised(MultipleObjectsReturned);
      }
      if !formValid {
        return FormRejected;
      }
      var conn := new Connection.FromRow(found.row);
      var host' := postHost;
      conn.host := host';
      conn.username := username;
      var username' := postUsername;
      conn.password := postPassword;
      var clash := Get(rows, user, username', host');
      if clash.Found? {
        return AlreadyExists;
      } else if clash.Multiple? {
        return Raised(MultipleObjectsReturned);
      }
      ghost var edited := found.row.(host := postHost, username := username, password := postPassword);
      assert conn.Value() == edited;
      assert found.row in rows;
      o := Save(conn);
    }

    /** The edit as evidently intended: the posted username is stored, and the edited row does not collide with itself. */
    method EditConnectionIntended(user: UserId, username: string, host: string, formValid: bool,
                                  postHost: string, postUsername: string, postPassword: string) returns (o: Outcome)
      requires Valid()
      modifies this
      ensures Valid() && nextId == old(nextId)
      ensures Step(o, rows) == EditIntendedStep(old(rows), user, username, host, formValid, postHost, postUsername, postPassword)
    {
      var found := Get(rows, user, username, host);
      if found.NotFound? {
        return Raised(DoesNotExist);
      } else if found.Multiple? {
        return Raised(MultipleObjectsReturned);
      }
      if !formValid {
        return FormRejected;
      }
      var conn := new Connection.FromRow(found.row);
      conn.host := postHost;
      conn.username := postUsername;
      conn.password := postPassword;
      if exists k :: 0 <= k < |rows| && rows[k].id != found.row.id && HasKey(rows[k], user, postUsername, postHost) {
        return AlreadyExists;
      }
      ghost var edited := found.row.(host := postHost, username := postUsername, password := postPassword);
      assert conn.Value() == edited;
      assert found.row in rows;
      assert EditIntendedStep(rows, user, username, host, formValid, postHost, postUsername, postPassword)
             == if Fits(edited) then Step(Saved, SaveRow(rows, edited)) else Step(Raised(DataError), rows);
      o := Save(conn);
    }

    /** `delete_connection` for the credential `username@host` of the URL. */
    method DeleteConnection(user: UserId, username: string, host: string) returns (o: Outcome)
      requires Valid()
      modifies this
      ensures Valid() && nextId == old(nextId)
      ensures Step(o, rows) == DeleteStep(old(rows), user, username, host)
    {
      var found := Get(rows, user, username, host);
      if found.NotFound? {
        return Raised(DoesNotExist);
      } else if found.Multiple? {
        return Raised(MultipleObjectsReturned);
      }
      RemoveIdKeepsIdsDistinct(rows, found.row.id);
      rows := RemoveId(rows, found.row.id);
      o := Deleted;
    }

    /**
     * `open_connection` for the credential `username@host` and the
     * directory `token`; `listing` is what the server lists for the decoded
     * directory, `None` when opening the session or listing raises `SSHException`.
     */
    function OpenConnection(user: UserId, username: string, host: string, token: string,
                            listing: Option<seq<Entry>>): (r: Response<BrowsePage>)
      reads this
      ensures (forall c :: c in rows ==> !HasKey(c, user, username, host)) ==> r == ServerError(DoesNotExist)
      ensures Get(rows, user, username, host).Found? && listing.None? ==> r == PlainText(CannotConnect)
      ensures Get(rows, user, username, host).Found? && listing.Some? ==> r.Render?
      ensures r.Render? ==>
                listing.Some? && HasKey(r.body.flagged, user, username, host) && r.body.flagged in rows
                && r.body.listing == Browse(token, listing.value)
                && (forall c :: c in r.body.connections <==> c in rows && c.user == user)
    {
      match Get(rows, user, username, host)
      case NotFound => ServerError(DoesNotExist)
      case Multiple => ServerError(MultipleObjectsReturned)
      case Found(conn) =>
        match listing
        case None => PlainText(CannotConnect)
        case Some(elms) => Render(BrowsePage(Browse(token, elms), conn, AllConnections(user)))
    }

    /**
     * `get_file` for the credential `username@host` and the file `token`;
     * `content` is what the server sends for the decoded path, `None` when
     * the transfer fails (the view does not catch that error).
     */
    function GetFile(user: UserId, username: string, host: string, token: string,
                     content: Option<seq<Byte>>): (r: Response<Attachment>)
      reads this
      ensures (forall c :: c in rows ==> !HasKey(c, user, username, host)) ==> r == ServerError(DoesNotExist)
      ensures Get(rows, user, username, host).Found? && content.None? ==> r == ServerError(RemoteError)
      ensures r.Render? ==>
                content.Some? && r.body.body == content.value
                && r.body.contentType == "application/octet-stream"
                && r.body.disposition == "attachment; filename=" + Filename(Decode(token))
                && '/' !in Filename(Decode(token))
    {
      var path := Decode(token);
      match Get(rows, user, username, host)
      case NotFound => ServerError(DoesNotExist)
      case Multiple => ServerError(MultipleObjectsReturned)
      case Found(_) =>
        match content
        case None => ServerError(RemoteError)
        case Some(bytes) => Render(Attachment("application/octet-stream", Disposition(path), bytes))
    }

    /** A stored credential and a completed transfer give the attachment of the decoded path. */
    lemma GetFileFound(user: UserId, username: string, host: string, token: string, content: seq<Byte>)
      requires Get(rows, user, username, host).Found?
      ensures GetFile(user, username, host, token, Some(content))
              == Render(Attachment("application/octet-stream", Disposition(Decode(token)), content))
    {
    }
  }

  /** Every listed entry carries the child token of the browsed directory. */
  lemma ListedTokenIsChild(dirToken: string, elms: seq<Entry>, l: Listed)
    requires l in Browse(dirToken, elms).folders + Browse(dirToken, elms).files
    ensures l.token == ChildToken(Decode(dirToken), l.entry.filename)
  {
    var dir := Decode(dirToken);
    assert l in Folders(dir, elms) || l in Files(dir, elms);
  }

  /** The download of a listed entry is offered under that entry's name. */
  lemma ListedEntryDownloadsUnderItsName(t: ConnectionTable, user: UserId, username: string, host: string,
                                         dirToken: string, elms: seq<Entry>, l: Listed, content: seq<Byte>)
    requires Get(t.rows, user, username, host).Found?
    requires l in Browse(dirToken, elms).folders + Browse(dirToken, elms).files
    requires '^' !in l.entry.filename && '/' !in l.entry.filename
    ensures t.GetFile(user, username, host, l.token, Some(content))
            == Render(Attachment("application/octet-stream", "attachment; filename=" + l.entry.filename, content))
  {
    var dir := Decode(dirToken);
    ListedTokenIsChild(dirToken, elms, l);
    DownloadNameOfListed(dir, l.entry.filename);
    t.GetFileFound(user, username, host, l.token, content);
  }

  /** Two additions of the same credential store it once. */
  method AddTwice(user: UserId, password: string) returns (t: ConnectionTable, first: Outcome, second: Outcome)
    requires |password| <= PasswordMaxLength
    ensures first == Created && second == AlreadyExists
    ensures |t.rows| == 1 && t.rows[0].username == "anna" && t.rows[0].host == "34.56.78.39"
  {
    t := new ConnectionTable();
    first := t.AddConnection(user, "34.56.78.39", "anna", password, true, Reachable);
    second := t.AddConnection(user, "34.56.78.39", "anna", password, true, Reachable);
  }
}
