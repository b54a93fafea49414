/**
 * The connection table as the views use it through Django's ORM, and what
 * each store operation of the views does to it, as functions of the table
 * before the request.
 *
 * `Connection.objects.get` raises `DoesNotExist` when no row matches and
 * `MultipleObjectsReturned` when more than one does; the views catch only
 * the first, and only in some places, so both are modelled.
 */
module Store {
  import opened Models

  /** `r` is stored for `user` with this remote username and host. */
  predicate HasKey(r: Row, user: UserId, username: string, host: string) {
    r.user == user && r.username == username && r.host == host
  }

  /** No two rows share `(user, username, host)`. */
  predicate KeysUnique(rows: seq<Row>) {
    forall i, j :: 0 <= i < j < |rows| ==> !HasKey(rows[j], rows[i].user, rows[i].username, rows[i].host)
  }

  /** No two rows share a primary key. */
  predicate IdsDistinct(rows: seq<Row>) {
    forall i, j :: 0 <= i < j < |rows| ==> rows[i].id != rows[j].id
  }

  /** With distinct primary keys, a primary key names one stored row. */
  lemma SameIdSameRow(rows: seq<Row>, r1: Row, r2: Row)
    requires IdsDistinct(rows) && r1 in rows && r2 in rows && r1.id == r2.id
    ensures r1 == r2
  {
    var i :| 0 <= i < |rows| && rows[i] == r1;
    var j :| 0 <= j < |rows| && rows[j] == r2;
  }

  /** `filter(user_id=user, username=username, host=host)` */
  function Matches(rows: seq<Row>, user: UserId, username: string, host: string): (m: seq<Row>)
    ensures |m| <= |rows|
    ensures forall r :: r in m <==> r in rows && HasKey(r, user, username, host)
  {
    if rows == [] then []
    else
      var head := if HasKey(rows[0], user, username, host) then [rows[0]] else [];
      head + Matches(rows[1..], user, username, host)
  }

  /** The three ways `objects.get` can end. */
  datatype Lookup = NotFound | Multiple | Found(row: Row)

  /** `Connection.objects.get(user_id=user, username=username, host=host)` */
  function Get(rows: seq<Row>, user: UserId, username: string, host: string): (l: Lookup)
    ensures l.NotFound? <==> forall r :: r in rows ==> !HasKey(r, user, username, host)
    ensures l.Found? ==> l.row in rows && HasKey(l.row, user, username, host)
    ensures l.Found? ==> forall r :: r in rows && HasKey(r, user, username, host) ==> r == l.row
  {
    var m := Matches(rows, user, username, host);
    if |m| == 0 then NotFound
    else
      assert m[0] in m;
      if |m| == 1 then Found(m[0]) else Multiple
  }

  /** With unique keys, `objects.get` never raises `MultipleObjectsReturned`. */
  lemma {:induction false} UniqueKeysSingleMatch(rows: seq<Row>, user: UserId, username: string, host: string)
    requires KeysUnique(rows)
    ensures |Matches(rows, user, username, host)| <= 1
    ensures !Get(rows, user, username, host).Multiple?
  {
    if rows != [] {
      var rest := rows[1..];
      assert KeysUnique(rest) by {
        forall i, j | 0 <= i < j < |rest|
          ensures !HasKey(rest[j], rest[i].user, rest[i].username, rest[i].host)
        {
          assert rest[i] == rows[i + 1] && rest[j] == rows[j + 1];
        }
      }
      UniqueKeysSingleMatch(rest, user, username, host);
      if HasKey(rows[0], user, username, host) {
        forall r | r in rest
          ensures !HasKey(r, user, username, host)
        {
          var j :| 0 <= j < |rest| && rest[j] == r;
          assert rows[j + 1] == r;
        }
        assert Matches(rest, user, username, host) == [];
      }
    }
  }

  /** `filter(user_id=user)`: the connections listed for `user`. */
  function OwnedBy(rows: seq<Row>, user: UserId): (m: seq<Row>)
    ensures |m| <= |rows|
    ensures forall r :: r in m <==> r in rows && r.user == user
  {
    if rows == [] then []
    else
      var head := if rows[0].user == user then [rows[0]] else [];
      head + OwnedBy(rows[1..], user)
  }

  /** `save()` of an instance whose row exists: the row with its primary key is overwritten. */
  function SaveRow(rows: seq<Row>, row: Row): (r: seq<Row>)
    ensures |r| == |rows|
    ensures forall i :: 0 <= i < |rows| ==> r[i] == (if rows[i].id == row.id then row else rows[i])
  {
    if rows == [] then []
    else [if rows[0].id == row.id then row else rows[0]] + SaveRow(rows[1..], row)
  }

  /** With distinct primary keys, saving over the row at `i` replaces that row alone. */
  lemma SaveRowAt(rows: seq<Row>, i: nat, row: Row)
    requires IdsDistinct(rows) && i < |rows| && row.id == rows[i].id
    ensures SaveRow(rows, row) == rows[i := row]
  {
    forall k | 0 <= k < |rows| ensures SaveRow(rows, row)[k] == rows[i := row][k] {
      if k < i {
        assert rows[k].id != rows[i].id;
      } else if k > i {
        assert rows[i].id != rows[k].id;
      }
    }
  }

  /** `delete()` of an instance: the row with its primary key is removed. */
  function RemoveId(rows: seq<Row>, id: nat): (r: seq<Row>)
    ensures |r| <= |rows|
    ensures forall x :: x in r <==> x in rows && x.id != id
  {
    if rows == [] then []
    else
      var head := if rows[0].id != id then [rows[0]] else [];
      head + RemoveId(rows[1..], id)
  }

  /** Distinct primary keys stay distinct in the tail. */
  lemma TailIdsDistinct(rows: seq<Row>)
    requires IdsDistinct(rows) && rows != []
    ensures IdsDistinct(rows[1..])
    ensures forall x :: x in rows[1..] ==> x.id != rows[0].id
  {
    var rest := rows[1..];
    forall a, b | 0 <= a < b < |rest| ensures rest[a].id != rest[b].id {
      assert rest[a] == rows[a + 1] && rest[b] == rows[b + 1];
    }
    forall x | x in rest ensures x.id != rows[0].id {
      var j :| 0 <= j < |rest| && rest[j] == x;
      assert rows[j + 1] == x;
    }
  }

  /** A row whose primary key no other row carries keeps the keys distinct in front of them. */
  lemma ConsIdsDistinct(x: Row, rows: seq<Row>)
    requires IdsDistinct(rows) && forall y :: y in rows ==> y.id != x.id
    ensures IdsDistinct([x] + rows)
  {
    var s := [x] + rows;
    forall a, b | 0 <= a < b < |s| ensures s[a].id != s[b].id {
      assert s[b] == rows[b - 1];
      if a > 0 {
        assert s[a] == rows[a - 1];
      }
    }
  }

  /** Dropping the element at `i > 0` keeps the head in front. */
  lemma DropAfterHead<T>(s: seq<T>, i: nat)
    requires 0 < i < |s|
    ensures s[..i] + s[i + 1..] == [s[0]] + (s[1..][..i - 1] + s[1..][i..])
  {
    assert s[1..][..i - 1] == s[1..i] && s[1..][i..] == s[i + 1..];
    assert s[..i] == [s[0]] + s[1..i];
  }

  /** With distinct primary keys, deleting the row at `i` removes it and nothing else, keeping the order. */
  lemma {:induction false} RemoveIdAt(rows: seq<Row>, i: nat)
    requires IdsDistinct(rows) && i < |rows|
    ensures RemoveId(rows, rows[i].id) == rows[..i] + rows[i + 1..]
  {
    var id := rows[i].id;
    var rest := rows[1..];
    TailIdsDistinct(rows);
    if i == 0 {
      KeepAllIds(rest, id);
    } else {
      assert rest[i - 1] == rows[i];
      RemoveIdAt(rest, i - 1);
      assert rows[0].id != id;
      assert RemoveId(rows, id) == [rows[0]] + RemoveId(rest, id);
      DropAfterHead(rows, i);
    }
  }

  /** Removing a primary key no row carries changes nothing. */
  lemma {:induction false} KeepAllIds(rows: seq<Row>, id: nat)
    requires forall x :: x in rows ==> x.id != id
    ensures RemoveId(rows, id) == rows
  {
    if rows != [] {
      KeepAllIds(rows[1..], id);
      assert rows == [rows[0]] + rows[1..];
    }
  }

  /** Distinct primary keys stay distinct when one is removed. */
  lemma {:induction false} RemoveIdKeepsIdsDistinct(rows: seq<Row>, id: nat)
    requires IdsDistinct(rows)
    ensures IdsDistinct(RemoveId(rows, id))
  {
    if rows != [] {
      TailIdsDistinct(rows);
      var tail := RemoveId(rows[1..], id);
      RemoveIdKeepsIdsDistinct(rows[1..], id);
      if rows[0].id != id {
        ConsIdsDistinct(rows[0], tail);
      } else {
        assert RemoveId(rows, id) == tail;
      }
    }
  }

  /** An exception that escapes a view and ends the request as a server error. */
  datatype Exception = DoesNotExist | MultipleObjectsReturned | RemoteError | DataError

  /** How a store view answers. */
  datatype Outcome =
    | Created        // add: the new row is inserted, redirect to the index
    | Saved          // edit: `conn.save()`, redirect to the index
    | Deleted        // delete: `conn.delete()`, redirect to the index
    | AlreadyExists  // 'SFTP Connection already exist.'
    | FormRejected   // the form does not validate; nothing is stored
    | ProbeFailed    // 'SFTP Connection cant be established.'
    | Raised(exception: Exception)

  /** What the connectivity probe of `add_connection` does. */
  datatype Probe =
    | Reachable      // the session opens
    | NotADirectory  // raises `NotADirectoryError`, the one error the view catches
    | OtherFailure   // raises anything else, which escapes the view

  /** The answer of a view and the table after it. */
  datatype Step = Step(outcome: Outcome, rows: seq<Row>)

  /**
   * `add_connection` on a POST whose fields are `host`, `username` and
   * `password`; `id` is the primary key the database would assign,
   * `formValid` the verdict of the form and `probe` what the remote server
   * does. A row that does not fit its columns is refused by the database.
   */
  function AddStep(rows: seq<Row>, id: nat, user: UserId, host: string, username: string, password: string,
                   formValid: bool, probe: Probe): (s: Step)
    ensures s.outcome == Created <==>
              (forall r :: r in rows ==> !HasKey(r, user, username, host)) && formValid && probe == Reachable
              && Fits(Row(id, user, host, username, password))
    ensures s.outcome == Created ==> s.rows == rows + [Row(id, user, host, username, password)]
    ensures s.outcome != Created ==> s.rows == rows
    ensures (exists r :: r in rows && HasKey(r, user, username, host)) ==>
              s.outcome == AlreadyExists || s.outcome == Raised(MultipleObjectsReturned)
    ensures (forall r :: r in rows ==> !HasKey(r, user, username, host)) && formValid && probe == NotADirectory ==>
              s.outcome == ProbeFailed
  {
    match Get(rows, user, username, host)
    case Found(_) => Step(AlreadyExists, rows)
    case Multiple => Step(Raised(MultipleObjectsReturned), rows)
    case NotFound =>
      if !formValid then Step(FormRejected, rows)
      else
        match probe
        case NotADirectory => Step(ProbeFailed, rows)
        case OtherFailure => Step(Raised(RemoteError), rows)
        case Reachable =>
          var row := Row(id, user, host, username, password);
          if Fits(row) then Step(Created, rows + [row]) else Step(Raised(DataError), rows)
  }

  /** An insert keeps the keys unique. */
  lemma AddKeepsKeysUnique(rows: seq<Row>, id: nat, user: UserId, host: string, username: string, password: string,
                           formValid: bool, probe: Probe)
    requires KeysUnique(rows)
    ensures KeysUnique(AddStep(rows, id, user, host, username, password, formValid, probe).rows)
  {
    var s := AddStep(rows, id, user, host, username, password, formValid, probe);
    if s.outcome == Created {
      var n := s.rows;
      forall i, j | 0 <= i < j < |n| ensures !HasKey(n[j], n[i].user, n[i].username, n[i].host) {
        if j == |rows| {
          assert n[i] == rows[i];
          assert n[i] in rows;
        } else {
          assert n[i] == rows[i] && n[j] == rows[j];
        }
      }
    }
  }

  /** Adding the same credential twice: the second request is refused and one row is stored. */
  lemma AddTwiceRefused(rows: seq<Row>, id1: nat, id2: nat, user: UserId, password: string)
    requires forall r :: r in rows ==> !HasKey(r, user, "anna", "34.56.78.39")
    requires |password| <= PasswordMaxLength
    ensures var first := AddStep(rows, id1, user, "34.56.78.39", "anna", password, true, Reachable);
            var second := AddStep(first.rows, id2, user, "34.56.78.39", "anna", password, true, Reachable);
            first.outcome == Created && second.outcome == AlreadyExists && second.rows == first.rows
            && |Matches(second.rows, user, "anna", "34.56.78.39")| == 1
  {
    var first := AddStep(rows, id1, user, "34.56.78.39", "anna", password, true, Reachable);
    var row := Row(id1, user, "34.56.78.39", "anna", password);
    assert first.rows == rows + [row];
    MatchesAppend(rows, row, user, "anna", "34.56.78.39");
  }

  lemma {:induction false} MatchesAppend(rows: seq<Row>, row: Row, user: UserId, username: string, host: string)
    requires forall r :: r in rows ==> !HasKey(r, user, username, host)
    requires HasKey(row, user, username, host)
    ensures Matches(rows + [row], user, username, host) == [row]
  {
    if rows == [] {
      assert [row][1..] == [];
    } else {
      assert (rows + [row])[1..] == rows[1..] + [row];
      MatchesAppend(rows[1..], row, user, username, host);
    }
  }

  /**
   * `edit_connection` on a POST for the row `(user, username, host)` of the
   * URL, with the posted `postHost`, `postUsername` and `postPassword`.
   * As written, the instance takes the new host and password but keeps the
   * username of the URL (it is assigned before the name is rebound to the
   * posted one), while the collision check uses the posted username.
   */
  function EditStep(rows: seq<Row>, user: UserId, username: string, host: string, formValid: bool,
                    postHost: string, postUsername: string, postPassword: string): (s: Step)
    ensures |s.rows| == |rows|
    ensures forall i :: 0 <= i < |rows| ==> s.rows[i].id == rows[i].id
    ensures IdsDistinct(rows) ==>
              forall i :: 0 <= i < |rows| ==> s.rows[i].user == rows[i].user && s.rows[i].username == rows[i].username
    ensures s.outcome != Saved ==> s.rows == rows
    ensures (forall r :: r in rows ==> !HasKey(r, user, username, host)) ==> s == Step(Raised(DoesNotExist), rows)
    ensures (exists r :: r in rows && HasKey(r, user, postUsername, postHost)) ==> s.rows == rows
    ensures s.outcome == Saved ==>
              Get(rows, user, username, host).Found?
              && (forall r :: r in rows ==> !HasKey(r, user, postUsername, postHost))
              && formValid
    ensures Get(rows, user, username, host).Found? && formValid
            && (forall r :: r in rows ==> !HasKey(r, user, postUsername, postHost))
            && Fits(Get(rows, user, username, host).row.(host := postHost, password := postPassword))
            ==> s.outcome == Saved
  {
    match Get(rows, user, username, host)
    case NotFound => Step(Raised(DoesNotExist), rows)
    case Multiple => Step(Raised(MultipleObjectsReturned), rows)
    case Found(conn) =>
      if !formValid then Step(FormRejected, rows)
      else
        var edited := conn.(host := postHost, username := username, password := postPassword);
        EditedRowOnly(rows, conn, edited);
        match Get(rows, user, postUsername, postHost)
        case Found(_) => Step(AlreadyExists, rows)
        case Multiple => Step(Raised(MultipleObjectsReturned), rows)
        case NotFound =>
          if Fits(edited) then Step(Saved, SaveRow(rows, edited)) else Step(Raised(DataError), rows)
  }

  /** Overwriting the row of `conn` by `edited`, which keeps its key parts, keeps every other row. */
  lemma EditedRowOnly(rows: seq<Row>, conn: Row, edited: Row)
    requires conn in rows && edited.id == conn.id
    ensures IdsDistinct(rows) ==> forall i :: 0 <= i < |rows| ==> SaveRow(rows, edited)[i] == (if rows[i] == conn then edited else rows[i])
  {
    if IdsDistinct(rows) {
      forall i | 0 <= i < |rows| && rows[i].id == conn.id ensures rows[i] == conn {
        SameIdSameRow(rows, rows[i], conn);
      }
    }
  }

  /** A saved edit overwrites the row of the URL's key with the posted host and password. */
  lemma EditSaved(rows: seq<Row>, user: UserId, username: string, host: string, formValid: bool,
                  postHost: string, postUsername: string, postPassword: string) returns (c: nat)
    requires EditStep(rows, user, username, host, formValid, postHost, postUsername, postPassword).outcome == Saved
    ensures c < |rows| && HasKey(rows[c], user, username, host)
    ensures EditStep(rows, user, username, host, formValid, postHost, postUsername, postPassword).rows
            == SaveRow(rows, rows[c].(host := postHost, password := postPassword))
  {
    var conn := Get(rows, user, username, host).row;
    c :| 0 <= c < |rows| && rows[c] == conn;
  }

  /** A saved edit changes the host and password of the edited row and nothing else. */
  lemma EditChangesOnlyTarget(rows: seq<Row>, user: UserId, username: string, host: string, formValid: bool,
                              postHost: string, postUsername: string, postPassword: string, i: nat)
    requires IdsDistinct(rows) && i < |rows| && HasKey(rows[i], user, username, host)
    requires EditStep(rows, user, username, host, formValid, postHost, postUsername, postPassword).outcome == Saved
    ensures var n := EditStep(rows, user, username, host, formValid, postHost, postUsername, postPassword).rows;
            n == rows[i := rows[i].(host := postHost, password := postPassword)]
  {
    var c := EditSaved(rows, user, username, host, formValid, postHost, postUsername, postPassword);
    assert rows[c] in rows && rows[i] in rows;
    assert rows[c] == rows[i];
    assert c == i;
    SaveRowAt(rows, i, rows[i].(host := postHost, password := postPassword));
  }

  /**
   * An edit that keeps the username and the host collides with the row
   * being edited and is always refused, so the password cannot be changed
   * by posting the credential's own username and host.
   */
  lemma EditKeepingKeyRefused(rows: seq<Row>, user: UserId, username: string, host: string, postPassword: string)
    requires Get(rows, user, username, host).Found?
    ensures EditStep(rows, user, username, host, true, host, username, postPassword) == Step(AlreadyExists, rows)
  {
  }

  /**
   * The only way around the refusal: posting the same host with an unused
   * username passes the collision check, and the new password is saved
   * under the URL's username, while the posted username is dropped.
   */
  lemma EditPasswordViaOtherUsername()
    ensures EditStep([Row(1, 7, "h1", "a", "p")], 7, "a", "h1", true, "h1", "zzz", "q")
            == Step(Saved, [Row(1, 7, "h1", "a", "q")])
  {
    var rows := [Row(1, 7, "h1", "a", "p")];
    assert Matches(rows, 7, "a", "h1") == [rows[0]];
    assert Matches(rows, 7, "zzz", "h1") == [];
  }

  /**
   * The edit as written can store two rows with one key: editing `a@h1`
   * into `b@h2` saves `a@h2` beside an existing `a@h2`.
   */
  lemma EditBreaksKeyUniqueness()
    ensures var rows := [Row(1, 7, "h1", "a", "p"), Row(2, 7, "h2", "a", "p")];
            var s := EditStep(rows, 7, "a", "h1", true, "h2", "b", "q");
            KeysUnique(rows) && IdsDistinct(rows) && s.outcome == Saved && !KeysUnique(s.rows)
  {
    var rows := [Row(1, 7, "h1", "a", "p"), Row(2, 7, "h2", "a", "p")];
    assert Matches(rows, 7, "a", "h1") == [rows[0]];
    assert Matches(rows, 7, "b", "h2") == [];
    var s := EditStep(rows, 7, "a", "h1", true, "h2", "b", "q");
    assert s.rows == [Row(1, 7, "h2", "a", "q"), Row(2, 7, "h2", "a", "p")];
  }

  /**
   * The edit as evidently intended: the instance takes the posted username
   * too, and the collision check ignores the row being edited.
   */
  function EditIntendedStep(rows: seq<Row>, user: UserId, username: string, host: string, formValid: bool,
                            postHost: string, postUsername: string, postPassword: string): (s: Step)
    ensures |s.rows| == |rows|
    ensures s.outcome != Saved ==> s.rows == rows
    ensures (forall r :: r in rows ==> !HasKey(r, user, username, host)) ==> s == Step(Raised(DoesNotExist), rows)
  {
    match Get(rows, user, username, host)
    case NotFound => Step(Raised(DoesNotExist), rows)
    case Multiple => Step(Raised(MultipleObjectsReturned), rows)
    case Found(conn) =>
      if !formValid then Step(FormRejected, rows)
      else
        var edited := conn.(host := postHost, username := postUsername, password := postPassword);
        if exists k :: 0 <= k < |rows| && rows[k].id != conn.id && HasKey(rows[k], user, postUsername, postHost) then
          Step(AlreadyExists, rows)
        else if Fits(edited) then Step(Saved, SaveRow(rows, edited))
        else Step(Raised(DataError), rows)
  }

  /** A saved intended edit overwrites the row of the URL's key, and no other row holds the posted key. */
  lemma EditIntendedSaved(rows: seq<Row>, user: UserId, username: string, host: string, formValid: bool,
                          postHost: string, postUsername: string, postPassword: string) returns (c: nat)
    requires EditIntendedStep(rows, user, username, host, formValid, postHost, postUsername, postPassword).outcome == Saved
    ensures c < |rows| && HasKey(rows[c], user, username, host)
    ensures EditIntendedStep(rows, user, username, host, formValid, postHost, postUsername, postPassword).rows
            == SaveRow(rows, rows[c].(host := postHost, username := postUsername, password := postPassword))
    ensures forall k :: 0 <= k < |rows| && rows[k].id != rows[c].id ==> !HasKey(rows[k], user, postUsername, postHost)
  {
    var g := Get(rows, user, username, host);
    assert g.Found? && formValid;
    c :| 0 <= c < |rows| && rows[c] == g.row;
    assert !exists k :: 0 <= k < |rows| && rows[k].id != g.row.id && HasKey(rows[k], user, postUsername, postHost);
  }

  /** The intended edit keeps the keys unique. */
  lemma EditIntendedKeepsKeysUnique(rows: seq<Row>, user: UserId, username: string, host: string, formValid: bool,
                                    postHost: string, postUsername: string, postPassword: string)
    requires KeysUnique(rows) && IdsDistinct(rows)
    ensures KeysUnique(EditIntendedStep(rows, user, username, host, formValid, postHost, postUsername, postPassword).rows)
  {
    var s := EditIntendedStep(rows, user, username, host, formValid, postHost, postUsername, postPassword);
    if s.outcome == Saved {
      var c := EditIntendedSaved(rows, user, username, host, formValid, postHost, postUsername, postPassword);
      var edited := rows[c].(host := postHost, username := postUsername, password := postPassword);
      SaveRowAt(rows, c, edited);
      forall k | 0 <= k < |rows| && k != c ensures !HasKey(rows[k], edited.user, edited.username, edited.host) {
        if k < c {
          assert rows[k].id != rows[c].id;
        } else {
          assert rows[c].id != rows[k].id;
        }
      }
      OverwriteKeepsKeysUnique(rows, c, edited);
    }
  }

  /** Overwriting one row by a row whose key no other row holds keeps the keys unique. */
  lemma OverwriteKeepsKeysUnique(rows: seq<Row>, c: nat, edited: Row)
    requires KeysUnique(rows) && c < |rows|
    requires forall k :: 0 <= k < |rows| && k != c ==> !HasKey(rows[k], edited.user, edited.username, edited.host)
    ensures KeysUnique(rows[c := edited])
  {
    var n := rows[c := edited];
    forall i, j | 0 <= i < j < |n| ensures !HasKey(n[j], n[i].user, n[i].username, n[i].host) {
      if i != c && j != c {
        assert n[i] == rows[i] && n[j] == rows[j];
      }
    }
  }

  /** The intended edit saves a new password for an unchanged username and host. */
  lemma EditIntendedAllowsPasswordChange(rows: seq<Row>, user: UserId, username: string, host: string,
                                         postPassword: string)
    requires Get(rows, user, username, host).Found?
    requires forall r :: r in rows ==> Fits(r)
    requires |postPassword| <= PasswordMaxLength
    ensures var s := EditIntendedStep(rows, user, username, host, true, host, username, postPassword);
            s.outcome == Saved
            && s.rows == SaveRow(rows, Get(rows, user, username, host).row.(password := postPassword))
  {
    var conn := Get(rows, user, username, host).row;
    assert Fits(conn);
    assert conn.(host := host, username := username, password := postPassword) == conn.(password := postPassword);
    forall k | 0 <= k < |rows| && HasKey(rows[k], user, username, host) ensures rows[k].id == conn.id {
      assert rows[k] in rows;
    }
    assert !exists k :: 0 <= k < |rows| && rows[k].id != conn.id && HasKey(rows[k], user, username, host);
  }

  /** `delete_connection` for the row `(user, username, host)` of the URL. */
  function DeleteStep(rows: seq<Row>, user: UserId, username: string, host: string): (s: Step)
    ensures s.outcome == Deleted || s.rows == rows
    ensures (forall r :: r in rows ==> !HasKey(r, user, username, host)) ==> s == Step(Raised(DoesNotExist), rows)
    ensures s.outcome == Deleted && IdsDistinct(rows) ==>
              |s.rows| == |rows| - 1 && forall r :: r in s.rows <==> r in rows && !HasKey(r, user, username, host)
  {
    match Get(rows, user, username, host)
    case NotFound => Step(Raised(DoesNotExist), rows)
    case Multiple => Step(Raised(MultipleObjectsReturned), rows)
    case Found(conn) =>
      DeleteFound(rows, user, username, host);
      Step(Deleted, RemoveId(rows, conn.id))
  }

  lemma DeleteFound(rows: seq<Row>, user: UserId, username: string, host: string)
    requires Get(rows, user, username, host).Found?
    ensures var conn := Get(rows, user, username, host).row;
            IdsDistinct(rows) ==>
              |RemoveId(rows, conn.id)| == |rows| - 1
              && forall r :: r in RemoveId(rows, conn.id) <==> r in rows && !HasKey(r, user, username, host)
  {
    var conn := Get(rows, user, username, host).row;
    if IdsDistinct(rows) {
      var c :| 0 <= c < |rows| && rows[c] == conn;
      RemoveIdAt(rows, c);
      forall r | r in rows && r.id == conn.id ensures r == conn {
        SameIdSameRow(rows, r, conn);
      }
    }
  }

  /** Deleting the row at `i` that holds the key removes that row and keeps the rest in order. */
  lemma DeleteAt(rows: seq<Row>, user: UserId, username: string, host: string, i: nat)
    requires IdsDistinct(rows) && i < |rows| && HasKey(rows[i], user, username, host)
    requires !Get(rows, user, username, host).Multiple?
    ensures DeleteStep(rows, user, username, host) == Step(Deleted, rows[..i] + rows[i + 1..])
  {
    assert rows[i] in rows;
    RemoveIdAt(rows, i);
  }
}
