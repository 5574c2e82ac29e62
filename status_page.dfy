/**
 * The status class the bot's status page gives each session: a priority chain of
 * substring tests on the session's status text.
 */
module StatusPage {
  import opened Options
  import opened JsText

  /** The CSS classes `status-ok`, `status-qr`, `status-error` and `status-init`. */
  datatype StatusClass = StatusOk | StatusQr | StatusError | StatusInit

  /** The status texts the session handlers write. */
  const InitiatingStatus := "Iniciando conexión... 🤔"
  const ScanStatus := "📱 Escanea el código QR con WhatsApp."
  const ConnectedStatus := "Conectado ✅ ¡Listo para trabajar!"
  const LoggedOutStatus := "⚠️ Sesión cerrada. Necesita escanear nuevo QR."
  const NotStartedStatus := "No Iniciado Aún"
  const PendingStatus := "Pendiente de inicio..."
  const CriticalStatus := "Error Crítico al Iniciar ❌"

  const DisconnectedPrefix := "🔴 Desconectado ("
  const DisconnectedSuffix := "). Reintentando..."

  /** The status after a transient close, naming its reason. */
  function DisconnectedStatus(reasonText: string): string {
    DisconnectedPrefix + reasonText + DisconnectedSuffix
  }

  /** The text the page shows for a session: its status, or "No Iniciado Aún" when it has none or it is empty. */
  function StatusMessage(status: Option<string>): string {
    if status.None? || status.value == "" then NotStartedStatus else status.value
  }

  /** The `if` / `else if` chain that picks the class of a status text. */
  function ClassOf(statusMsg: string): StatusClass {
    if Includes(statusMsg, "Conectado") then StatusOk
    else if Includes(statusMsg, "Escanea") || Includes(statusMsg, "QR") then StatusQr
    else if Includes(statusMsg, "Desconectado") || Includes(statusMsg, "Sesión cerrada") || Includes(statusMsg, "Error")
    then StatusError
    else StatusInit
  }

  /** A text that says "Escanea" or "QR" but not "Conectado" is classed as waiting for a QR scan. */
  lemma QrWhen(s: string)
    requires !Includes(s, "Conectado")
    requires Includes(s, "Escanea") || Includes(s, "QR")
    ensures ClassOf(s) == StatusQr
  {
  }

  /** The connected status is classed as connected. */
  lemma ConnectedClass()
    ensures ClassOf(ConnectedStatus) == StatusOk
  {
    var tail := " ✅ ¡Listo para trabajar!";
    assert ConnectedStatus == "Conectado" + tail;
    assert "" + "Conectado" + tail == "Conectado" + tail;
    IncludesMiddle("", "Conectado", tail);
  }

  /** A text made of `a`, then "Escanea" or "QR", then `b`, with no capital C, is classed as waiting for a QR scan. */
  lemma QrBetween(a: string, mid: string, b: string)
    requires mid == "Escanea" || mid == "QR"
    requires 'C' !in a && 'C' !in b
    ensures ClassOf(a + mid + b) == StatusQr
  {
    var s := a + mid + b;
    assert 'C' !in s;
    NotIncludesMissingChar(s, "Conectado");
    IncludesMiddle(a, mid, b);
    QrWhen(s);
  }

  /** The scan status is "Escanea" between texts without capital C. */
  lemma ScanStatusParts()
    ensures ScanStatus == "📱 " + "Escanea" + ScanTail
    ensures 'C' !in ScanTail
  {
    ScanTailNoC();
  }

  lemma ScanTailNoC()
    ensures 'C' !in ScanTail
  {
    assert forall i | 0 <= i < |ScanTail| :: ScanTail[i] != 'C';
  }

  const ScanTail := " el código QR con WhatsApp."

  /** The status asking for a scan is classed as waiting for a QR scan. */
  lemma ScanClass()
    ensures ClassOf(ScanStatus) == StatusQr
  {
    ScanStatusParts();
    QrBetween("📱 ", "Escanea", ScanTail);
  }

  const LoggedOutHead := "⚠️ Sesión cerrada. Necesita escanear nuevo "

  /** The logged-out status is a text without capital C that ends in "QR.". */
  lemma LoggedOutStatusParts()
    ensures LoggedOutStatus == LoggedOutHead + "QR" + "." && 'C' !in LoggedOutHead
  {
    assert forall i | 0 <= i < |LoggedOutHead| :: LoggedOutHead[i] != 'C';
  }

  /**
   * The logged-out status mentions the QR code, so it is classed as waiting for a QR scan
   * rather than as an error, although it also says "Sesión cerrada".
   */
  lemma LoggedOutClass()
    ensures ClassOf(LoggedOutStatus) == StatusQr
  {
    LoggedOutStatusParts();
    QrBetween(LoggedOutHead, "QR", ".");
  }

  /** None of the capitals that start the words the status page looks for. */
  predicate NoClassCapitals(s: string) {
    forall i | 0 <= i < |s| :: s[i] != 'C' && s[i] != 'E' && s[i] != 'Q' && s[i] != 'D' && s[i] != 'S'
  }

  /** The status a session starts with is classed as initiating. */
  lemma InitiatingClass()
    ensures ClassOf(InitiatingStatus) == StatusInit
  {
    assert NoClassCapitals(InitiatingStatus);
    NotStartedIsInit(InitiatingStatus);
  }

  /** A session with no status, or an empty one, is shown as not started and classed as initiating. */
  lemma NotStartedClass(status: Option<string>)
    requires status.None? || status.value == ""
    ensures StatusMessage(status) == NotStartedStatus
    ensures ClassOf(StatusMessage(status)) == StatusInit
  {
    assert NoClassCapitals(NotStartedStatus);
    NotStartedIsInit(NotStartedStatus);
  }

  /** A text with none of the capitals C, E, Q, D and S is classed as not started. */
  lemma NotStartedIsInit(s: string)
    requires NoClassCapitals(s)
    ensures ClassOf(s) == StatusInit
  {
    assert 'C' !in s && 'E' !in s && 'Q' !in s && 'D' !in s && 'S' !in s;
    NotIncludesMissingChar(s, "Conectado");
    NotIncludesMissingChar(s, "Escanea");
    NotIncludesMissingChar(s, "QR");
    NotIncludesMissingChar(s, "Desconectado");
    NotIncludesMissingChar(s, "Sesión cerrada");
    NotIncludesMissingChar(s, "Error");
  }

  /** The status `main` writes before starting a session that has none is classed as initiating. */
  lemma PendingClass()
    ensures ClassOf(PendingStatus) == StatusInit
  {
    assert NoClassCapitals(PendingStatus);
    NotStartedIsInit(PendingStatus);
  }

  const CriticalTail := " Crítico al Iniciar ❌"

  /**
   * The critical status starts with "Error"; its capital C is followed by "r" and its capital E
   * by "r", and it holds no Q.
   */
  lemma CriticalStatusParts()
    ensures CriticalStatus == "Error" + CriticalTail
    ensures 'Q' !in CriticalStatus
    ensures forall i :: 0 <= i < |CriticalStatus| - 1 && CriticalStatus[i] == 'C' ==> CriticalStatus[i + 1] == 'r'
    ensures forall i :: 0 <= i < |CriticalStatus| - 1 && CriticalStatus[i] == 'E' ==> CriticalStatus[i + 1] == 'r'
  {
    assert forall i | 0 <= i < |CriticalStatus| :: CriticalStatus[i] != 'Q';
  }

  /**
   * The status written when a start throws says "Error" without "Conectado", "Escanea" or "QR",
   * so it is classed as an error.
   */
  lemma CriticalClass()
    ensures ClassOf(CriticalStatus) == StatusError
  {
    CriticalStatusParts();
    NotIncludesSecondChar(CriticalStatus, "Conectado");
    NotIncludesSecondChar(CriticalStatus, "Escanea");
    NotIncludesMissingChar(CriticalStatus, "QR");
    assert "" + "Error" + CriticalTail == CriticalStatus;
    IncludesMiddle("", "Error", CriticalTail);
  }

  /** Every status after a transient close mentions "Desconectado". */
  lemma DisconnectedMentionsDisconnected(reasonText: string)
    ensures Includes(DisconnectedStatus(reasonText), "Desconectado")
  {
    var tail := " (" + reasonText + DisconnectedSuffix;
    assert DisconnectedStatus(reasonText) == "🔴 " + "Desconectado" + tail;
    IncludesMiddle("🔴 ", "Desconectado", tail);
  }

  /** The text around the reason holds none of C, E and Q, and its closing part starts with `)`. */
  lemma DisconnectedFrame()
    ensures 'C' !in DisconnectedPrefix && 'E' !in DisconnectedPrefix && 'Q' !in DisconnectedPrefix
    ensures 'C' !in DisconnectedSuffix && 'E' !in DisconnectedSuffix && 'Q' !in DisconnectedSuffix
    ensures DisconnectedSuffix[0] == ')'
  {
    assert forall i | 0 <= i < |DisconnectedPrefix| ::
      DisconnectedPrefix[i] != 'C' && DisconnectedPrefix[i] != 'E' && DisconnectedPrefix[i] != 'Q';
    assert forall i | 0 <= i < |DisconnectedSuffix| ::
      DisconnectedSuffix[i] != 'C' && DisconnectedSuffix[i] != 'E' && DisconnectedSuffix[i] != 'Q';
  }

  /**
   * The status after a transient close is an error, unless its reason text itself holds
   * "Conectado" (then ok) or "Escanea" or "QR" (then qr).
   */
  lemma DisconnectedClass(reasonText: string)
    ensures ClassOf(DisconnectedStatus(reasonText)) ==
      if Includes(reasonText, "Conectado") then StatusOk
      else if Includes(reasonText, "Escanea") || Includes(reasonText, "QR") then StatusQr
      else StatusError
  {
    DisconnectedFrame();
    IncludesFramed(DisconnectedPrefix, reasonText, DisconnectedSuffix, "Conectado");
    IncludesFramed(DisconnectedPrefix, reasonText, DisconnectedSuffix, "Escanea");
    IncludesFramed(DisconnectedPrefix, reasonText, DisconnectedSuffix, "QR");
    DisconnectedMentionsDisconnected(reasonText);
  }
}
