/**
 * The bot's WhatsApp sessions: the start guard of `startSession`, one pass of its life
 * loop (a new socket), and the `connection.update` handler that keeps the session's
 * status text, its pending QR code and its auth folder up to date.
 */
module Sessions {
  import opened Options
  import opened JsText
  import opened StatusPage

  /** The `connection` field of an update. */
  datatype Connection = Connecting | Open | Close

  /** `lastDisconnect.error`: a `Boom` error, which may carry `output.statusCode`, or any other error. */
  datatype DisconnectError = BoomError(statusCode: Option<int>) | OtherError

  /** The parts of a `connection.update` event the handler reads. */
  datatype ConnectionUpdate = ConnectionUpdate(
    connection: Option<Connection>,
    lastDisconnectError: Option<DisconnectError>,
    qr: Option<string>)

  /** `DisconnectReason.loggedOut` of the WhatsApp client library. */
  const LoggedOutCode: int := 401

  /** The waits, in milliseconds, after a logged-out close and after any other close. */
  const LoggedOutBackoff: nat := 3000
  const RetryBackoff: nat := 5000

  const UnknownReason := "desconocida"

  /**
   * How far the first pass of `startSession` gets: it opens its socket, or the creation of the
   * auth folder, the loading of the client version or auth state, or the creation of the socket
   * throws.
   */
  datatype StartStep = OpensSocket | MkdirThrows | LoadThrows | SocketThrows

  /** How `startSession` ends for the caller: skipped, running on its socket, or thrown. */
  datatype StartOutcome = Skipped | Running(sock: nat) | Threw

  /** The status code of the close: the one a `Boom` error carries, and none for any other error. */
  function StatusCode(err: Option<DisconnectError>): (code: Option<int>)
    ensures code.Some? ==> err.Some? && err.value.BoomError?
  {
    if err.Some? && err.value.BoomError? then err.value.statusCode else None
  }

  /** The logged-out test compares with the library's constant and with 401, which are the same code. */
  function IsLoggedOut(code: Option<int>): (r: bool)
    ensures r <==> code == Some(401)
  {
    code == Some(LoggedOutCode) || code == Some(401)
  }

  /**
   * The reason shown for a close: the name of the code in the library's reverse table
   * `names` when it has a non-empty one, else the code itself unless it is missing or 0,
   * else "desconocida".
   */
  function ReasonText(code: Option<int>, names: map<int, string>): (r: string)
    ensures r != ""
  {
    if code.None? then UnknownReason
    else if code.value in names && names[code.value] != "" then names[code.value]
    else if code.value != 0 then IntToString(code.value)
    else UnknownReason
  }

  /** The status text the close branch writes. */
  function CloseStatus(err: Option<DisconnectError>, names: map<int, string>): string {
    var code := StatusCode(err);
    if IsLoggedOut(code) then LoggedOutStatus else DisconnectedStatus(ReasonText(code, names))
  }

  /** How long the close branch waits before it returns. */
  function CloseDelay(err: Option<DisconnectError>): nat {
    if IsLoggedOut(StatusCode(err)) then LoggedOutBackoff else RetryBackoff
  }

  /** `if (qr)`: a QR code that is present and not the empty string. */
  predicate HasQr(u: ConnectionUpdate) {
    u.qr.Some? && u.qr.value != ""
  }

  /** The last status text an update writes, if any (the close branch runs last, then open, then qr). */
  function StatusWrite(u: ConnectionUpdate, names: map<int, string>): Option<string> {
    if u.connection == Some(Close) then Some(CloseStatus(u.lastDisconnectError, names))
    else QrOrOpenStatus(u)
  }

  /** The last status text the `qr` and `open` branches write, if any. */
  function QrOrOpenStatus(u: ConnectionUpdate): Option<string> {
    if u.connection == Some(Open) then Some(ConnectedStatus)
    else if HasQr(u) then Some(ScanStatus)
    else None
  }

  /** The last QR entry an update writes, if any: `null` once open, else the new code. */
  function QrWrite(u: ConnectionUpdate): Option<Option<string>> {
    if u.connection == Some(Open) then Some(None)
    else if HasQr(u) then Some(u.qr)
    else None
  }

  /** `m` with `k` set to the written value, or `m` itself when nothing was written. */
  function Put<V>(m: map<string, V>, k: string, w: Option<V>): (r: map<string, V>)
    ensures w.Some? ==> k in r && r[k] == w.value
    ensures forall j :: j != k ==> (j in r <==> j in m)
    ensures forall j :: j in m && j != k ==> r[j] == m[j]
    ensures w.None? ==> r == m
  {
    if w.Some? then m[k := w.value] else m
  }

  /** None of the words the status page looks for to pick a non-error class. */
  predicate PlainReason(r: string) {
    !Includes(r, "Conectado") && !Includes(r, "Escanea") && !Includes(r, "QR")
  }

  /** A reverse table whose names are all plain, as the library's camel-case names are. */
  predicate PlainNames(names: map<int, string>) {
    forall c {:trigger names[c]} :: c in names ==> PlainReason(names[c])
  }

  /** A decimal rendering of an integer holds none of the capitals the status page looks for. */
  lemma IntToStringPlain(i: int)
    ensures PlainReason(IntToString(i))
  {
    var s := IntToString(i);
    forall k | 0 <= k < |s|
      ensures s[k] != 'C' && s[k] != 'E' && s[k] != 'Q'
    {
      if i < 0 {
        assert s[k] == '-' || s[k] == NatToString(-i)[k - 1];
      }
    }
    NotIncludesMissingChar(s, "Conectado");
    NotIncludesMissingChar(s, "Escanea");
    NotIncludesMissingChar(s, "QR");
  }

  /** With plain names, every reason text is plain. */
  lemma ReasonTextPlain(code: Option<int>, names: map<int, string>)
    requires PlainNames(names)
    ensures PlainReason(ReasonText(code, names))
  {
    var r := ReasonText(code, names);
    if code.Some? && code.value in names && names[code.value] != "" {
      var c := code.value;
      assert r == names[c] && PlainReason(names[c]);
    } else if code.Some? && code.value != 0 {
      IntToStringPlain(code.value);
    } else {
      assert r == UnknownReason;
      assert 'C' !in r && 'E' !in r && 'Q' !in r;
      NotIncludesMissingChar(r, "Conectado");
      NotIncludesMissingChar(r, "Escanea");
      NotIncludesMissingChar(r, "QR");
    }
  }

  /**
   * A code the table does not name is written in decimal, so it can be read back from the
   * status; a missing code and the code 0 are both reported as "desconocida".
   */
  lemma ReasonTextCode(code: Option<int>, names: map<int, string>)
    ensures code.Some? && code.value != 0 && (code.value !in names || names[code.value] == "")
      ==> ParseInt(ReasonText(code, names)) == code
    ensures code.Some? && code.value in names && names[code.value] != ""
      ==> ReasonText(code, names) == names[code.value]
    ensures code.None? || (code.value == 0 && (0 !in names || names[0] == ""))
      ==> ReasonText(code, names) == UnknownReason
  {
    if code.Some? && code.value != 0 && (code.value !in names || names[code.value] == "") {
      ParseIntOfIntToString(code.value);
    }
  }

  /**
   * A close by log-out waits 3 seconds and shows the logged-out status, which the status page
   * classes as waiting for a QR scan; any other close waits 5 seconds and, when the reason
   * names are plain, is classed as an error. A close whose error is not a `Boom` never counts
   * as a log-out and is reported as "desconocida".
   */
  lemma CloseOutcome(err: Option<DisconnectError>, names: map<int, string>)
    requires PlainNames(names)
    ensures IsLoggedOut(StatusCode(err)) <==> err == Some(BoomError(Some(LoggedOutCode)))
    ensures IsLoggedOut(StatusCode(err)) ==>
      CloseDelay(err) == 3000 && ClassOf(CloseStatus(err, names)) == StatusQr
    ensures !IsLoggedOut(StatusCode(err)) ==>
      CloseDelay(err) == 5000 && ClassOf(CloseStatus(err, names)) == StatusError
    ensures err.None? || err == Some(OtherError) ==>
      CloseStatus(err, names) == DisconnectedStatus(UnknownReason)
  {
    if IsLoggedOut(StatusCode(err)) {
      LoggedOutClass();
    } else {
      var reason := ReasonText(StatusCode(err), names);
      ReasonTextPlain(StatusCode(err), names);
      DisconnectedClass(reason);
    }
  }

  /** The class the status page should show after an update that writes a status. */
  function ExpectedClass(u: ConnectionUpdate): StatusClass {
    if u.connection == Some(Close) then
      if u.lastDisconnectError == Some(BoomError(Some(LoggedOutCode))) then StatusQr else StatusError
    else if u.connection == Some(Open) then StatusOk
    else StatusQr
  }

  /**
   * An update writes a status exactly when it opens or closes the connection or brings a QR
   * code, and the status page then shows the class the update calls for.
   */
  lemma StatusWriteClass(u: ConnectionUpdate, names: map<int, string>)
    requires PlainNames(names)
    ensures StatusWrite(u, names).Some? <==> u.connection == Some(Open) || u.connection == Some(Close) || HasQr(u)
    ensures StatusWrite(u, names).Some? ==> ClassOf(StatusWrite(u, names).value) == ExpectedClass(u)
  {
    if u.connection == Some(Close) {
      CloseOutcome(u.lastDisconnectError, names);
    } else if u.connection == Some(Open) {
      ConnectedClass();
    } else if HasQr(u) {
      ScanClass();
    }
  }

  /**
   * How the session maps hang together: every handle was handed out before `next`; the socket
   * a session waits on belongs to it; a session with a socket holds its lock and has a status;
   * a socket that still listens is its session's current socket, and no ended socket listens.
   */
  ghost predicate Consistent(locks: set<string>, statusKeys: set<string>, sockets: map<string, nat>,
                             owners: map<nat, string>, listening: set<nat>, ended: set<nat>, next: nat)
  {
    (forall s :: s in owners ==> s < next)
    && (forall id :: id in sockets ==> sockets[id] in owners && owners[sockets[id]] == id)
    && (forall id :: id in sockets ==> id in locks && id in statusKeys)
    && (forall s :: s in listening ==> s in owners && owners[s] in sockets && sockets[owners[s]] == s)
    && ended <= owners.Keys
    && listening !! ended
  }

  /** Taking a lock and writing statuses keep the maps consistent. */
  lemma ConsistentGrow(locks: set<string>, statusKeys: set<string>, sockets: map<string, nat>,
                       owners: map<nat, string>, listening: set<nat>, ended: set<nat>, next: nat,
                       locks': set<string>, statusKeys': set<string>)
    requires Consistent(locks, statusKeys, sockets, owners, listening, ended, next)
    requires locks <= locks' && statusKeys <= statusKeys'
    ensures Consistent(locks', statusKeys', sockets, owners, listening, ended, next)
  {
  }

  /** A new listening socket for a locked session without one keeps the maps consistent. */
  lemma ConsistentOpen(locks: set<string>, statusKeys: set<string>, sockets: map<string, nat>,
                       owners: map<nat, string>, listening: set<nat>, ended: set<nat>, next: nat, id: string)
    requires Consistent(locks, statusKeys, sockets, owners, listening, ended, next)
    requires id in locks && id !in sockets
    ensures next !in owners
    ensures Consistent(locks, statusKeys + {id}, sockets[id := next], owners[next := id],
                       listening + {next}, ended, next + 1)
  {
    var sockets', owners' := sockets[id := next], owners[next := id];
    forall s | s in listening + {next}
      ensures s in owners' && owners'[s] in sockets' && sockets'[owners'[s]] == s
    {
      if s != next {
        assert owners[s] != id;
      }
    }
  }

  /** Ending a listening socket keeps the maps consistent. */
  lemma ConsistentEnd(locks: set<string>, statusKeys: set<string>, sockets: map<string, nat>,
                      owners: map<nat, string>, listening: set<nat>, ended: set<nat>, next: nat, sock: nat)
    requires Consistent(locks, statusKeys, sockets, owners, listening, ended, next)
    requires sock in listening
    ensures Consistent(locks, statusKeys, sockets, owners, listening - {sock}, ended + {sock}, next)
  {
  }

  /** A session that lets go of its socket once that socket stopped listening keeps the maps consistent. */
  lemma ConsistentRelease(locks: set<string>, statusKeys: set<string>, sockets: map<string, nat>,
                          owners: map<nat, string>, listening: set<nat>, ended: set<nat>, next: nat, id: string)
    requires Consistent(locks, statusKeys, sockets, owners, listening, ended, next)
    requires id in sockets && sockets[id] !in listening
    ensures Consistent(locks, statusKeys, sockets - {id}, owners, listening, ended, next)
  {
    forall s | s in listening
      ensures owners[s] != id
    {
    }
  }

  /**
   * The module-level maps of the bot (`sessionLocks`, `sessionStatuses`, `activeQRCodes`,
   * `sockets`) together with what the model needs to know about sockets: which session
   * each belongs to, which still have listeners, which were ended, and which sessions have
   * an auth folder on disk. Sockets are handles `0, 1, 2, ...`.
   */
  class SessionRegistry {
    var locks: set<string>
    var statuses: map<string, string>
    var qrCodes: map<string, Option<string>>
    var sockets: map<string, nat>
    var owners: map<nat, string>
    var listening: set<nat>
    var ended: set<nat>
    var authPresent: set<string>
    var nextSocket: nat

    /** The registry's fields are `Consistent`. */
    ghost predicate Valid()
      reads this
    {
      Consistent(locks, statuses.Keys, sockets, owners, listening, ended, nextSocket)
    }

    /** The life loop of `id` still waits on `sock`: `sock` is still the session's current socket. */
    predicate Waiting(id: string, sock: nat)
      reads this
    {
      id in sockets && sockets[id] == sock
    }

    constructor ()
      ensures Valid()
      ensures locks == {} && statuses == map[] && qrCodes == map[] && sockets == map[]
      ensures owners == map[] && listening == {} && ended == {} && authPresent == {}
      ensures nextSocket == 0
    {
      locks, statuses, qrCodes, sockets := {}, map[], map[], map[];
      owners, listening, ended, authPresent := map[], {}, {}, {};
      nextSocket := 0;
    }

    /**
     * One pass of the life loop: the auth state is loaded (its folder created if missing), the
     * status is reset, and a new socket becomes the session's current socket with its listeners.
     */
    method OpenSocket(id: string) returns (sock: nat)
      requires Valid() && id in locks && id !in sockets
      modifies this
      ensures Valid()
      ensures sock == old(nextSocket) && sock !in old(owners) && nextSocket == sock + 1
      ensures sockets == old(sockets)[id := sock] && owners == old(owners)[sock := id]
      ensures listening == old(listening) + {sock} && ended == old(ended)
      ensures statuses == old(statuses)[id := InitiatingStatus]
      ensures authPresent == old(authPresent) + {id}
      ensures locks == old(locks) && qrCodes == old(qrCodes)
      ensures Waiting(id, sock)
    {
      sock := nextSocket;
      ConsistentOpen(locks, statuses.Keys, sockets, owners, listening, ended, nextSocket, id);
      assert statuses[id := InitiatingStatus].Keys == statuses.Keys + {id};
      authPresent, statuses := authPresent + {id}, statuses[id := InitiatingStatus];
      sockets, owners, listening := sockets[id := sock], owners[sock := id], listening + {sock};
      nextSocket := nextSocket + 1;
    }

    /**
     * `startSession`: a session whose start is already under way is skipped and nothing changes;
     * otherwise it takes the lock, creates its auth folder and opens its first socket. When one
     * of those steps throws, the lock stays taken (its release after the life loop is skipped),
     * and no socket is installed.
     */
    method StartSession(id: string, step: StartStep) returns (outcome: StartOutcome)
      requires Valid()
      modifies this
      ensures Valid()
      ensures outcome.Skipped? <==> id in old(locks)
      ensures outcome.Skipped? ==> unchanged(this)
      ensures !outcome.Skipped? ==> locks == old(locks) + {id} && (outcome.Threw? <==> step != OpensSocket)
      ensures outcome.Running? ==>
        outcome.sock == old(nextSocket)
        && statuses == old(statuses)[id := InitiatingStatus]
        && authPresent == old(authPresent) + {id}
        && sockets == old(sockets)[id := old(nextSocket)]
        && owners == old(owners)[old(nextSocket) := id]
        && listening == old(listening) + {old(nextSocket)}
        && ended == old(ended) && qrCodes == old(qrCodes)
        && nextSocket == old(nextSocket) + 1
      ensures outcome.Threw? ==>
        statuses == (if step == SocketThrows then old(statuses)[id := InitiatingStatus] else old(statuses))
        && authPresent == (if step == MkdirThrows then old(authPresent) else old(authPresent) + {id})
        && sockets == old(sockets) && owners == old(owners) && listening == old(listening)
        && ended == old(ended) && qrCodes == old(qrCodes) && nextSocket == old(nextSocket)
    {
      if id in locks {
        return Skipped;
      }
      ConsistentGrow(locks, statuses.Keys, sockets, owners, listening, ended, nextSocket, locks + {id}, statuses.Keys);
      locks := locks + {id};
      if step == MkdirThrows {
        return Threw;
      }
      authPresent := authPresent + {id};
      if step == LoadThrows {
        return Threw;
      }
      if step == SocketThrows {
        assert statuses[id := InitiatingStatus].Keys == statuses.Keys + {id};
        ConsistentGrow(locks, statuses.Keys, sockets, owners, listening, ended, nextSocket, locks, statuses.Keys + {id});
        statuses := statuses[id := InitiatingStatus];
        return Threw;
      }
      var sock := OpenSocket(id);
      return Running(sock);
    }

    /**
     * One turn of `main`'s loop over the configured sessions: a session without a status (or
     * with an empty one) is first marked pending, then started; a start that throws is caught
     * and reported with the critical status, and its lock stays taken.
     */
    method StartFromMain(id: string, step: StartStep) returns (outcome: StartOutcome)
      requires Valid()
      modifies this
      ensures Valid()
      ensures outcome.Skipped? <==> id in old(locks)
      ensures outcome.Threw? <==> id !in old(locks) && step != OpensSocket
      ensures locks == old(locks) + {id}
      ensures outcome.Skipped? ==>
        statuses == (if id in old(statuses) && old(statuses)[id] != "" then old(statuses)
                     else old(statuses)[id := PendingStatus])
      ensures outcome.Running? ==> statuses == old(statuses)[id := InitiatingStatus] && Waiting(id, outcome.sock)
      ensures outcome.Threw? ==> statuses == old(statuses)[id := CriticalStatus] && id !in sockets
      ensures outcome.Skipped? ==>
        sockets == old(sockets) && owners == old(owners) && listening == old(listening)
        && ended == old(ended) && qrCodes == old(qrCodes) && authPresent == old(authPresent)
        && nextSocket == old(nextSocket)
      ensures outcome.Running? ==>
        outcome.sock == old(nextSocket)
        && sockets == old(sockets)[id := old(nextSocket)]
        && owners == old(owners)[old(nextSocket) := id]
        && listening == old(listening) + {old(nextSocket)}
        && ended == old(ended) && qrCodes == old(qrCodes)
        && authPresent == old(authPresent) + {id}
        && nextSocket == old(nextSocket) + 1
      ensures outcome.Threw? ==>
        sockets == old(sockets) && owners == old(owners) && listening == old(listening)
        && ended == old(ended) && qrCodes == old(qrCodes) && nextSocket == old(nextSocket)
        && authPresent == (if step == MkdirThrows then old(authPresent) else old(authPresent) + {id})
    {
      if id !in statuses || statuses[id] == "" {
        assert statuses[id := PendingStatus].Keys == statuses.Keys + {id};
        ConsistentGrow(locks, statuses.Keys, sockets, owners, listening, ended, nextSocket, locks, statuses.Keys + {id});
        statuses := statuses[id := PendingStatus];
      }
      ghost var pending := statuses;
      outcome := StartSession(id, step);
      if outcome.Threw? {
        assert statuses[id := CriticalStatus].Keys == statuses.Keys + {id};
        ConsistentGrow(locks, statuses.Keys, sockets, owners, listening, ended, nextSocket, locks, statuses.Keys + {id});
        statuses := statuses[id := CriticalStatus];
        assert statuses == pending[id := CriticalStatus];
      } else if outcome.Running? {
        assert statuses == pending[id := InitiatingStatus];
      }
    }

    /**
     * The `connection.update` listener of socket `sock`. A QR code is stored and announced;
     * opening clears the QR code and reports the connection; closing removes the socket's
     * listeners, ends it, deletes the auth folder on a log-out (when the removal succeeds),
     * writes the close status and returns the wait before the handler finishes. The handler
     * never touches `sockets`, so the life loop keeps waiting on the closed socket.
     */
    method OnConnectionUpdate(sock: nat, update: ConnectionUpdate, names: map<int, string>, removeSucceeds: bool)
      returns (delay: Option<nat>)
      requires Valid()
      modifies this
      ensures Valid()
      ensures sock !in old(listening) ==> unchanged(this) && delay.None?
      ensures sock in old(listening) ==>
        var id := old(owners[sock]);
        statuses == Put(old(statuses), id, StatusWrite(update, names))
        && qrCodes == Put(old(qrCodes), id, QrWrite(update))
        && (update.connection == Some(Close) <==> delay.Some?)
        && (delay.Some? ==> delay.value == CloseDelay(update.lastDisconnectError))
        && listening == (if delay.Some? then old(listening) - {sock} else old(listening))
        && ended == (if delay.Some? then old(ended) + {sock} else old(ended))
        && authPresent ==
          (if delay.Some? && IsLoggedOut(StatusCode(update.lastDisconnectError)) && removeSucceeds
           then old(authPresent) - {id} else old(authPresent))
      ensures locks == old(locks) && sockets == old(sockets) && owners == old(owners)
      ensures nextSocket == old(nextSocket)
    {
      delay := None;
      if sock !in listening {
        return;
      }
      var id := owners[sock];
      ShowQrOrOpen(id, update);
      if update.connection == Some(Close) {
        delay := CloseSocket(sock, update.lastDisconnectError, names, removeSucceeds);
      }
    }

    /** The `qr` and `open` branches of the handler, in that order, for session `id`. */
    method ShowQrOrOpen(id: string, update: ConnectionUpdate)
      requires Valid()
      modifies this
      ensures Valid()
      ensures statuses == Put(old(statuses), id, QrOrOpenStatus(update))
      ensures qrCodes == Put(old(qrCodes), id, QrWrite(update))
      ensures locks == old(locks) && sockets == old(sockets) && owners == old(owners)
      ensures listening == old(listening) && ended == old(ended) && authPresent == old(authPresent)
      ensures nextSocket == old(nextSocket)
    {
      var qrs, texts := qrCodes, statuses;
      if update.qr.Some? && update.qr.value != "" {
        qrs, texts := qrs[id := update.qr], texts[id := ScanStatus];
      }
      if update.connection == Some(Open) {
        qrs, texts := qrs[id := None], texts[id := ConnectedStatus];
      }
      ConsistentGrow(locks, statuses.Keys, sockets, owners, listening, ended, nextSocket, locks, texts.Keys);
      qrCodes, statuses := qrs, texts;
    }

    /**
     * The `close` branch for the listening socket `sock`: its listeners go, it is ended, a
     * log-out deletes the auth folder when the removal succeeds, and the close status is written.
     */
    method CloseSocket(sock: nat, err: Option<DisconnectError>, names: map<int, string>, removeSucceeds: bool)
      returns (delay: Option<nat>)
      requires Valid() && sock in listening
      modifies this
      ensures Valid()
      ensures var id := old(owners[sock]);
        statuses == old(statuses)[id := CloseStatus(err, names)]
        && authPresent == (if IsLoggedOut(StatusCode(err)) && removeSucceeds then old(authPresent) - {id}
                           else old(authPresent))
      ensures delay == Some(CloseDelay(err))
      ensures listening == old(listening) - {sock} && ended == old(ended) + {sock}
      ensures locks == old(locks) && sockets == old(sockets) && owners == old(owners)
      ensures qrCodes == old(qrCodes) && nextSocket == old(nextSocket)
    {
      var id := owners[sock];
      var code := StatusCode(err);
      var loggedOut := IsLoggedOut(code);
      var reasonText := ReasonText(code, names);
      ConsistentEnd(locks, statuses.Keys, sockets, owners, listening, ended, nextSocket, sock);
      listening, ended := listening - {sock}, ended + {sock};
      var text;
      if loggedOut {
        if removeSucceeds {
          authPresent := authPresent - {id};
        }
        text, delay := LoggedOutStatus, Some(LoggedOutBackoff);
      } else {
        text, delay := DisconnectedStatus(reasonText), Some(RetryBackoff);
      }
      ConsistentGrow(locks, statuses.Keys, sockets, owners, listening, ended, nextSocket, locks, statuses[id := text].Keys);
      statuses := statuses[id := text];
    }

    /**
     * The handler as its comments intend it: after the close branch has waited, the session
     * lets go of the closed socket, so the life loop stops waiting and opens the next one.
     */
    method OnConnectionUpdateReleasing(sock: nat, update: ConnectionUpdate, names: map<int, string>, removeSucceeds: bool)
      returns (delay: Option<nat>)
      requires Valid()
      modifies this
      ensures Valid()
      ensures sock !in old(listening) ==> unchanged(this) && delay.None?
      ensures sock in old(listening) ==>
        var id := old(owners[sock]);
        statuses == Put(old(statuses), id, StatusWrite(update, names))
        && qrCodes == Put(old(qrCodes), id, QrWrite(update))
        && (update.connection == Some(Close) <==> delay.Some?)
        && (delay.Some? ==> delay.value == CloseDelay(update.lastDisconnectError))
        && listening == (if delay.Some? then old(listening) - {sock} else old(listening))
        && ended == (if delay.Some? then old(ended) + {sock} else old(ended))
        && authPresent ==
          (if delay.Some? && IsLoggedOut(StatusCode(update.lastDisconnectError)) && removeSucceeds
           then old(authPresent) - {id} else old(authPresent))
        && sockets == (if delay.Some? then old(sockets) - {id} else old(sockets))
        && (delay.Some? ==> !Waiting(id, sock) && id in locks && id !in sockets)
      ensures locks == old(locks) && owners == old(owners) && nextSocket == old(nextSocket)
    {
      delay := OnConnectionUpdate(sock, update, names, removeSucceeds);
      if delay.Some? {
        var owner := owners[sock];
        ConsistentRelease(locks, statuses.Keys, sockets, owners, listening, ended, nextSocket, owner);
        sockets := sockets - {owner};
      }
    }
  }

  /**
   * A session that starts and then loses its connection, with the handler as written: the
   * socket is ended and deaf, yet the life loop still waits on it, so the session never
   * reconnects.
   */
  method CloseLeavesSessionWaiting() returns (registry: SessionRegistry, sock: nat)
    ensures registry.Waiting("jony_lager", sock)
    ensures sock in registry.ended && sock !in registry.listening
    ensures "jony_lager" in registry.statuses
      && registry.statuses["jony_lager"] == DisconnectedStatus("connectionClosed")
  {
    registry := new SessionRegistry();
    var started := registry.StartSession("jony_lager", OpensSocket);
    sock := started.sock;
    assert sock in registry.listening && registry.owners[sock] == "jony_lager";
    var update := ConnectionUpdate(Some(Close), Some(BoomError(Some(428))), None);
    var names := map[428 := "connectionClosed"];
    assert ReasonText(Some(428), names) == "connectionClosed";
    var delay := registry.OnConnectionUpdate(sock, update, names, true);
    assert delay.Some?;
  }

  /**
   * The same session with the releasing handler: after the close the loop stops waiting
   * and its next pass opens a fresh socket that listens again.
   */
  method CloseThenReconnect() returns (registry: SessionRegistry, first: nat, second: nat)
    ensures first != second
    ensures !registry.Waiting("jony_lager", first) && registry.Waiting("jony_lager", second)
    ensures first in registry.ended && second in registry.listening
    ensures "jony_lager" in registry.statuses && registry.statuses["jony_lager"] == InitiatingStatus
  {
    registry := new SessionRegistry();
    var started := registry.StartSession("jony_lager", OpensSocket);
    first := started.sock;
    assert first in registry.listening && registry.owners[first] == "jony_lager";
    var update := ConnectionUpdate(Some(Close), Some(BoomError(Some(428))), None);
    var delay := registry.OnConnectionUpdateReleasing(first, update, map[428 := "connectionClosed"], true);
    assert delay.Some?;
    second := registry.OpenSocket("jony_lager");
  }

  /**
   * A session whose start throws while loading the client: `main` reports the critical status,
   * the lock stays taken with no socket, and any later start of the session is skipped.
   */
  method FailedStartStaysLocked() returns (registry: SessionRegistry, retry: StartOutcome)
    ensures retry == Skipped
    ensures "jony_lager" in registry.locks && "jony_lager" !in registry.sockets
    ensures "jony_lager" in registry.statuses && registry.statuses["jony_lager"] == CriticalStatus
  {
    registry := new SessionRegistry();
    var first := registry.StartFromMain("jony_lager", LoadThrows);
    assert first == Threw;
    retry := registry.StartSession("jony_lager", OpensSocket);
  }
}
