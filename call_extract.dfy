/** The call extractor: read_call_logs turns each call record row into a
    call log (type table, rejected override, subscription choice, constant
    fields), and write_to_csv orders the logs by date. */
module CallExtract {
  import opened Text
  import opened Decimal
  import opened Sorting
  import opened Batch

  /** One row of the call record query; None is SQL NULL. */
  datatype CallRow = CallRow(
    rowid: int,
    address: Option<string>,
    duration: Option<int>,          // already rounded to whole seconds
    date: Option<real>,             // seconds since 2001-01-01; None for SQL NULL
    originated: Option<int>,
    answered: Option<int>,
    disconnectedCause: Option<int>,
    serviceProvider: Option<string>)

  /** A call log, as read_call_logs appends it. */
  datatype CallLog = CallLog(
    rowid: int,
    phoneNumber: string,
    duration: int,
    date: int,                      // milliseconds since the Unix epoch
    callType: int,
    typeOfCall: string,
    presentation: int,
    subscriptionId: string,
    postDialDigits: string,
    subscriptionComponentName: string,
    readableDate: string,
    contactName: string,
    serviceProvider: Option<string>)

  const UNKNOWN := 0
  const INCOMING := 1
  const OUTGOING := 2
  const MISSED := 3
  const REJECTED := 5
  const DISCONNECTED_REJECTED := 6

  const WHATSAPP_SUFFIX := "@s.whatsapp.net"
  const WHATSAPP_COMPONENT := "com.whatsapp/com.whatsapp.calling.telecom.SelfManagedConnectionService"
  const TELEPHONY_ID := "1"
  const TELEPHONY_COMPONENT := "com.android.phone/com.android.services.telephony.TelephonyConnectionService"
  const PRESENTATION_ALLOWED := 1
  const UNKNOWN_CONTACT := "(Unknown)"

  /** The type_of_call label: it depends on `originated` alone. */
  function TypeOfCall(originated: Option<int>): (kind: string)
    ensures kind == "Incoming" <==> originated == Some(0)
    ensures kind == "Outgoing" <==> originated == Some(1)
    ensures kind == "Unknown" <==> originated != Some(0) && originated != Some(1)
  {
    if originated == Some(0) then "Incoming"
    else if originated == Some(1) then "Outgoing"
    else "Unknown"
  }

  /** The call type before the rejected override. */
  function BaseCallType(originated: Option<int>, answered: Option<int>): (t: int)
    ensures t == MISSED <==> originated == Some(0) && answered == Some(0)
    ensures t == INCOMING <==> originated == Some(0) && answered != Some(0)
    ensures t == OUTGOING <==> originated == Some(1)
    ensures t == UNKNOWN <==> originated != Some(0) && originated != Some(1)
  {
    if originated == Some(0) then (if answered == Some(0) then MISSED else INCOMING)
    else if originated == Some(1) then OUTGOING
    else UNKNOWN
  }

  /** The call type: disconnected_cause 6 forces Rejected, whatever the
      other columns say. */
  function CallType(originated: Option<int>, answered: Option<int>, cause: Option<int>): (t: int)
    ensures t in {UNKNOWN, INCOMING, OUTGOING, MISSED, REJECTED}
    ensures t == REJECTED <==> cause == Some(DISCONNECTED_REJECTED)
    ensures cause != Some(DISCONNECTED_REJECTED) ==> t == BaseCallType(originated, answered)
  {
    if cause == Some(DISCONNECTED_REJECTED) then REJECTED else BaseCallType(originated, answered)
  }

  /** A provider is WhatsApp when it is a non-empty string whose lower-case
      form contains "whatsapp". */
  predicate IsWhatsApp(serviceProvider: Option<string>) {
    serviceProvider.Some? && serviceProvider.value != "" &&
    Contains(AsciiLower(serviceProvider.value), "whatsapp")
  }

  /** The test ignores the case of ASCII letters. */
  lemma IsWhatsAppIgnoresCase(provider: string)
    ensures IsWhatsApp(Some(AsciiLower(provider))) == IsWhatsApp(Some(provider))
  {
    AsciiLowerIdempotent(provider);
    assert AsciiLower(provider) == [] <==> provider == [];
  }

  /** (subscription_id, subscription_component_name). */
  function Subscription(serviceProvider: Option<string>, selfPhoneNumber: string): (r: (string, string))
    ensures IsWhatsApp(serviceProvider) ==> r == (selfPhoneNumber + WHATSAPP_SUFFIX, WHATSAPP_COMPONENT)
    ensures !IsWhatsApp(serviceProvider) ==> r == (TELEPHONY_ID, TELEPHONY_COMPONENT)
  {
    if IsWhatsApp(serviceProvider) then (selfPhoneNumber + WHATSAPP_SUFFIX, WHATSAPP_COMPONENT)
    else (TELEPHONY_ID, TELEPHONY_COMPONENT)
  }

  /** The two subscriptions cannot be confused: the WhatsApp one is exactly
      the one whose id ends with the WhatsApp suffix, whatever the operator's
      own number. */
  lemma SubscriptionKinds(serviceProvider: Option<string>, selfPhoneNumber: string)
    ensures var r := Subscription(serviceProvider, selfPhoneNumber);
            (IsWhatsApp(serviceProvider) <==> EndsWith(r.0, WHATSAPP_SUFFIX)) &&
            (IsWhatsApp(serviceProvider) <==> r.1 == WHATSAPP_COMPONENT) &&
            (!IsWhatsApp(serviceProvider) <==> r.0 == TELEPHONY_ID)
  {
    var r := Subscription(serviceProvider, selfPhoneNumber);
    if IsWhatsApp(serviceProvider) {
      assert r.0[|r.0| - |WHATSAPP_SUFFIX|..] == WHATSAPP_SUFFIX;
      assert |r.0| > 1;
    } else {
      assert |r.0| < |WHATSAPP_SUFFIX|;
      assert TELEPHONY_COMPONENT != WHATSAPP_COMPONENT by {
        assert |TELEPHONY_COMPONENT| != |WHATSAPP_COMPONENT|;
      }
    }
  }

  /** One iteration of the read_call_logs loop. The date converter returns
      whole seconds; None means it raised, which ends the whole batch. A
      NULL date raises in convert_datetime's arithmetic, and its handler
      raises again on an undefined name, so it ends the batch too. */
  function NormalizeCall(row: CallRow, selfPhoneNumber: string, convert: real -> Option<(int, string)>): Outcome<CallLog> {
    match row.date
    case None => Abort
    case Some(date) =>
      match convert(date)
      case None => Abort
      case Some(converted) =>
        var subscription := Subscription(row.serviceProvider, selfPhoneNumber);
        Emit(CallLog(
          row.rowid,
          if row.address.Some? && row.address.value != "" then row.address.value else "",
          if row.duration.Some? then row.duration.value else 0,
          converted.0 * 1000,
          CallType(row.originated, row.answered, row.disconnectedCause),
          TypeOfCall(row.originated),
          PRESENTATION_ALLOWED,
          subscription.0,
          "",
          subscription.1,
          converted.1,
          UNKNOWN_CONTACT,
          row.serviceProvider))
  }

  function CallNormalizer(selfPhoneNumber: string, convert: real -> Option<(int, string)>): CallRow -> Outcome<CallLog> {
    row => NormalizeCall(row, selfPhoneNumber, convert)
  }

  /** What a call log holds: the row's own id and provider, the type table,
      the subscription choice, the phone and duration defaults, a date in
      whole seconds, and the constant fields. A row is never skipped. */
  lemma NormalizeCallFields(row: CallRow, selfPhoneNumber: string, convert: real -> Option<(int, string)>)
    ensures !NormalizeCall(row, selfPhoneNumber, convert).Skip?
    ensures NormalizeCall(row, selfPhoneNumber, convert).Abort? <==>
              row.date.None? || convert(row.date.value).None?
    ensures NormalizeCall(row, selfPhoneNumber, convert).Emit? ==>
              var c := NormalizeCall(row, selfPhoneNumber, convert).record;
              c.rowid == row.rowid && c.serviceProvider == row.serviceProvider &&
              c.phoneNumber == (if row.address.Some? then row.address.value else "") &&
              c.duration == (if row.duration.Some? then row.duration.value else 0) &&
              row.date.Some? && c.date == convert(row.date.value).value.0 * 1000 && c.date % 1000 == 0 &&
              c.readableDate == convert(row.date.value).value.1 &&
              c.callType == CallType(row.originated, row.answered, row.disconnectedCause) &&
              c.typeOfCall == TypeOfCall(row.originated) &&
              (c.subscriptionId, c.subscriptionComponentName) == Subscription(row.serviceProvider, selfPhoneNumber) &&
              c.presentation == PRESENTATION_ALLOWED && c.postDialDigits == "" && c.contactName == UNKNOWN_CONTACT
  {
  }

  /** The call logs of a batch, or None when a date conversion raised. */
  function ExtractCallLogs(rows: seq<CallRow>, selfPhoneNumber: string, convert: real -> Option<(int, string)>): Option<seq<CallLog>> {
    Collect(rows, CallNormalizer(selfPhoneNumber, convert))
  }

  /** No call row is dropped: one log per row, in row order; the batch is
      lost exactly when some date is NULL or its conversion raises. */
  lemma ExtractCallLogsOnePerRow(rows: seq<CallRow>, selfPhoneNumber: string, convert: real -> Option<(int, string)>)
    ensures ExtractCallLogs(rows, selfPhoneNumber, convert).None? <==>
              exists i :: 0 <= i < |rows| && (rows[i].date.None? || convert(rows[i].date.value).None?)
    ensures ExtractCallLogs(rows, selfPhoneNumber, convert).Some? ==>
              var logs := ExtractCallLogs(rows, selfPhoneNumber, convert).value;
              |logs| == |rows| &&
              forall i :: 0 <= i < |rows| ==> Emit(logs[i]) == NormalizeCall(rows[i], selfPhoneNumber, convert)
  {
    var f := CallNormalizer(selfPhoneNumber, convert);
    forall i | 0 <= i < |rows|
      ensures !f(rows[i]).Skip? &&
              (f(rows[i]).Abort? <==> rows[i].date.None? || convert(rows[i].date.value).None?)
    {
      NormalizeCallFields(rows[i], selfPhoneNumber, convert);
    }
    CollectAbortsIff(rows, f);
    if Collect(rows, f).Some? {
      CollectOnePerRow(rows, f);
    }
  }

  /** read_call_logs: the loop over the call record rows. A missing
      database or a failed query gives no logs. */
  method ReadCallLogs(source: Option<seq<CallRow>>, selfPhoneNumber: string, convert: real -> Option<(int, string)>)
    returns (callLogs: seq<CallLog>)
    ensures source.None? ==> callLogs == []
    ensures source.Some? ==>
              callLogs == match ExtractCallLogs(source.value, selfPhoneNumber, convert)
                          case Some(logs) => logs
                          case None => []
  {
    if source.None? {
      return [];
    }
    var rows := source.value;
    callLogs := [];
    for i := 0 to |rows|
      invariant ExtractCallLogs(rows[..i], selfPhoneNumber, convert) == Some(callLogs)
    {
      var row := rows[i];
      CollectStep(rows, i, CallNormalizer(selfPhoneNumber, convert));
      var phoneNumber := if row.address.Some? && row.address.value != "" then row.address.value else "";
      var duration := if row.duration.Some? then row.duration.value else 0;
      if row.date.None? {
        AbortIsFinal(rows, i + 1, CallNormalizer(selfPhoneNumber, convert));
        return [];
      }
      var converted := convert(row.date.value);
      if converted.None? {
        AbortIsFinal(rows, i + 1, CallNormalizer(selfPhoneNumber, convert));
        return [];
      }
      var dateJava := converted.value.0 * 1000;
      var callType: int;
      var typeOfCall: string;
      if row.originated == Some(0) {
        typeOfCall := "Incoming";
        if row.answered == Some(0) {
          callType := MISSED;
        } else {
          callType := INCOMING;
        }
      } else if row.originated == Some(1) {
        typeOfCall := "Outgoing";
        callType := OUTGOING;
      } else {
        typeOfCall := "Unknown";
        callType := UNKNOWN;
      }
      if row.disconnectedCause == Some(DISCONNECTED_REJECTED) {
        callType := REJECTED;
      }
      var subscriptionId: string;
      var componentName: string;
      if IsWhatsApp(row.serviceProvider) {
        subscriptionId := selfPhoneNumber + WHATSAPP_SUFFIX;
        componentName := WHATSAPP_COMPONENT;
      } else {
        subscriptionId := TELEPHONY_ID;
        componentName := TELEPHONY_COMPONENT;
      }
      callLogs := callLogs + [CallLog(row.rowid, phoneNumber, duration, dateJava, callType, typeOfCall,
                                      PRESENTATION_ALLOWED, subscriptionId, "", componentName,
                                      converted.value.1, UNKNOWN_CONTACT, row.serviceProvider)];
    }
    assert rows[..|rows|] == rows;
  }

  // ---------------------------------------------------------------------
  // write_to_csv for calls.

  function CallDate(c: CallLog): int {
    c.date
  }

  datatype CallCsvWrite = NoCallLogs | CallsWritten(rows: seq<CallLog>)

  /** Nothing for no logs; otherwise the logs sorted ascending by date. */
  function WriteCallLogs(callLogs: seq<CallLog>): (w: CallCsvWrite)
    ensures w.NoCallLogs? <==> callLogs == []
    ensures w.CallsWritten? ==> SortedBy(w.rows, CallDate) && multiset(w.rows) == multiset(callLogs)
  {
    if callLogs == [] then NoCallLogs else CallsWritten(SortBy(callLogs, CallDate))
  }

  const CALL_COLUMNS: seq<string> :=
    ["rowid", "phone_number", "duration", "date", "type", "type_of_call", "presentation",
     "subscription_id", "post_dial_digits", "subscription_component_name", "readable_date",
     "contact_name", "service_provider"]

  /** A written call log as a CSV row: str() of every field, "" for None. */
  function CallCsvRow(c: CallLog): (row: map<string, string>)
    ensures forall k :: k in CALL_COLUMNS <==> k in row
  {
    map[
      "rowid" := IntToString(c.rowid),
      "phone_number" := c.phoneNumber,
      "duration" := IntToString(c.duration),
      "date" := IntToString(c.date),
      "type" := IntToString(c.callType),
      "type_of_call" := c.typeOfCall,
      "presentation" := IntToString(c.presentation),
      "subscription_id" := c.subscriptionId,
      "post_dial_digits" := c.postDialDigits,
      "subscription_component_name" := c.subscriptionComponentName,
      "readable_date" := c.readableDate,
      "contact_name" := c.contactName,
      "service_provider" := (if c.serviceProvider.Some? then c.serviceProvider.value else "")]
  }
}
