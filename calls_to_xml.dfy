/** csv_to_xml_calls: every row of the staging call CSV becomes a `call`
    element under a `calls` root whose `count` is the number of rows. */
module CallsToXml {
  import opened Text
  import opened Decimal
  import opened Xml
  import opened Csv
  import opened CallExtract

  /** The attribute names of a call element, in the order they are set. */
  const CALL_KEYS: seq<string> :=
    ["number", "duration", "date", "type", "presentation", "subscription_id", "post_dial_digits",
     "subscription_component_name", "readable_date", "contact_name"]

  /** The attribute list one row produces: `number` from phone_number, every
      other attribute from its own column, each with its default. */
  function CallAttributes(row: CsvRow): (attrs: Attributes)
    ensures |attrs| == |CALL_KEYS| && forall i :: 0 <= i < |attrs| ==> attrs[i].0 == CALL_KEYS[i]
  {
    [("number", Get(row, "phone_number", "")),
     ("duration", Get(row, "duration", "0")),
     ("date", Get(row, "date", "0")),
     ("type", Get(row, "type", "0")),
     ("presentation", Get(row, "presentation", "1")),
     ("subscription_id", Get(row, "subscription_id", "null")),
     ("post_dial_digits", Get(row, "post_dial_digits", "")),
     ("subscription_component_name", Get(row, "subscription_component_name", "null")),
     ("readable_date", Get(row, "readable_date", "")),
     ("contact_name", Get(row, "contact_name", "(Unknown)"))]
  }

  lemma CallKeysUnique()
    ensures forall i, j :: 0 <= i < j < |CALL_KEYS| ==> CALL_KEYS[i] != CALL_KEYS[j]
  {
  }

  lemma CallLookup(row: CsvRow, i: nat)
    requires i < |CALL_KEYS|
    ensures Lookup(CallAttributes(row), CALL_KEYS[i]) == Some(CallAttributes(row)[i].1)
  {
    CallKeysUnique();
    LookupAt(CallAttributes(row), i);
  }

  /** Where each attribute comes from, and what it is when its column is
      missing. */
  lemma CallAttributeSources(row: CsvRow)
    ensures var attrs := CallAttributes(row);
            Lookup(attrs, "number") == Some(Get(row, "phone_number", "")) &&
            Lookup(attrs, "duration") == Some(Get(row, "duration", "0")) &&
            Lookup(attrs, "date") == Some(Get(row, "date", "0")) &&
            Lookup(attrs, "type") == Some(Get(row, "type", "0")) &&
            Lookup(attrs, "presentation") == Some(Get(row, "presentation", "1")) &&
            Lookup(attrs, "subscription_id") == Some(Get(row, "subscription_id", "null")) &&
            Lookup(attrs, "post_dial_digits") == Some(Get(row, "post_dial_digits", "")) &&
            Lookup(attrs, "subscription_component_name") == Some(Get(row, "subscription_component_name", "null")) &&
            Lookup(attrs, "readable_date") == Some(Get(row, "readable_date", "")) &&
            Lookup(attrs, "contact_name") == Some(Get(row, "contact_name", "(Unknown)"))
  {
    CallLookup(row, 0);
    CallLookup(row, 1);
    CallLookup(row, 2);
    CallLookup(row, 3);
    CallLookup(row, 4);
    CallLookup(row, 5);
    CallLookup(row, 6);
    CallLookup(row, 7);
    CallLookup(row, 8);
    CallLookup(row, 9);
  }

  /** rowid, type_of_call and service_provider are not carried over, and
      no attribute appears twice. */
  lemma CallColumnsNotCarried(row: CsvRow)
    ensures var attrs := CallAttributes(row);
            UniqueKeys(attrs) &&
            !HasKey(attrs, "rowid") && !HasKey(attrs, "type_of_call") && !HasKey(attrs, "service_provider")
  {
    CallKeysUnique();
    var attrs := CallAttributes(row);
    forall i | 0 <= i < |attrs|
      ensures attrs[i].0 != "rowid" && attrs[i].0 != "type_of_call" && attrs[i].0 != "service_provider"
    {
      assert attrs[i].0 == CALL_KEYS[i];
    }
  }

  /** The attributes a call log would give if each came straight from
      its field. */
  function LoggedCallAttributes(c: CallLog): Attributes {
    [("number", c.phoneNumber),
     ("duration", IntToString(c.duration)),
     ("date", IntToString(c.date)),
     ("type", IntToString(c.callType)),
     ("presentation", IntToString(c.presentation)),
     ("subscription_id", c.subscriptionId),
     ("post_dial_digits", c.postDialDigits),
     ("subscription_component_name", c.subscriptionComponentName),
     ("readable_date", c.readableDate),
     ("contact_name", c.contactName)]
  }

  /** A call log written to the staging CSV comes back with no default
      used: every attribute is that log's own field. */
  lemma CallFromLog(c: CallLog)
    ensures CallAttributes(CallCsvRow(c)) == LoggedCallAttributes(c)
  {
    StagedCallColumns(c);
    StagedTypeColumns(c);
    StagedDetailColumns(c);
  }

  lemma StagedCallColumns(c: CallLog)
    ensures var row := CallCsvRow(c);
            Get(row, "phone_number", "") == c.phoneNumber &&
            Get(row, "duration", "0") == IntToString(c.duration) &&
            Get(row, "date", "0") == IntToString(c.date)
  {
  }

  lemma StagedTypeColumns(c: CallLog)
    ensures var row := CallCsvRow(c);
            Get(row, "type", "0") == IntToString(c.callType) &&
            Get(row, "presentation", "1") == IntToString(c.presentation)
  {
  }

  lemma StagedDetailColumns(c: CallLog)
    ensures var row := CallCsvRow(c);
            Get(row, "subscription_id", "null") == c.subscriptionId &&
            Get(row, "post_dial_digits", "") == c.postDialDigits &&
            Get(row, "subscription_component_name", "null") == c.subscriptionComponentName &&
            Get(row, "readable_date", "") == c.readableDate &&
            Get(row, "contact_name", "(Unknown)") == c.contactName
  {
  }

  /** From a call record row to the attributes of its imported element
      (with CallFromLog): the date is the log's whole-second date, a
      rejected call arrives with type "5", and the constant fields arrive
      as written. */
  lemma CallRowToElement(row: CallRow, selfPhoneNumber: string, convert: real -> Option<(int, string)>)
    requires NormalizeCall(row, selfPhoneNumber, convert).Emit?
    ensures var c := NormalizeCall(row, selfPhoneNumber, convert).record;
            var attrs := LoggedCallAttributes(c);
            attrs[2].1 == IntToString(c.date) && c.date % 1000 == 0 &&
            (attrs[3].1 == "5" <==> row.disconnectedCause == Some(DISCONNECTED_REJECTED)) &&
            attrs[4].1 == "1" && attrs[6].1 == "" && attrs[9].1 == "(Unknown)"
  {
    var c := NormalizeCall(row, selfPhoneNumber, convert).record;
    NormalizeCallFields(row, selfPhoneNumber, convert);
    TypeNumeral(c.callType);
    assert IntToString(PRESENTATION_ALLOWED) == "1";
  }

  /** The type column is "5" exactly for a rejected call. */
  lemma TypeNumeral(t: int)
    ensures IntToString(t) == "5" <==> t == REJECTED
  {
    assert IntToString(REJECTED) == "5";
    ParseIntRoundTrip(t);
    ParseIntRoundTrip(REJECTED);
  }

  /** csv_to_xml_calls: None for a missing or unreadable file or an empty
      one; otherwise a `calls` root with `count` and one `call` child per
      row, in row order, each with the row's attribute list. */
  method CsvToXmlCalls(source: Option<seq<CsvRow>>) returns (root: Element?)
    ensures root == null <==> source.None? || source.value == []
    ensures root != null ==>
              fresh(root) && root.tag == "calls" &&
              root.attrib == [("count", NatToString(|source.value|))] &&
              |root.children| == |source.value| &&
              (forall k :: 0 <= k < |root.children| ==>
                 fresh(root.children[k]) && root.children[k] != root &&
                 root.children[k].tag == "call" && root.children[k].children == [] &&
                 root.children[k].attrib == CallAttributes(source.value[k])) &&
              forall k, l :: 0 <= k < l < |root.children| ==> root.children[k] != root.children[l]
  {
    if source.None? {
      return null;
    }
    var callLogs := source.value;
    if callLogs == [] {
      return null;
    }
    root := new Element("calls");
    root.Set("count", NatToString(|callLogs|));
    for i := 0 to |callLogs|
      invariant root.tag == "calls" && root.attrib == [("count", NatToString(|callLogs|))]
      invariant |root.children| == i
      invariant fresh(root)
      invariant forall k, l :: 0 <= k < l < i ==> root.children[k] != root.children[l]
      invariant forall k :: 0 <= k < i ==>
                  fresh(root.children[k]) && root.children[k] != root && root.children[k].tag == "call" &&
                  root.children[k].children == [] && root.children[k].attrib == CallAttributes(callLogs[k])
    {
      var call := root.SubElement("call");
      SetCallSummary(call, callLogs[i]);
      SetCallDetails(call, callLogs[i]);
    }
  }

  /** Setting the next attribute extends the list set so far by one. */
  lemma CallStep(row: CsvRow, k: nat)
    requires k < |CALL_KEYS|
    ensures var attrs := CallAttributes(row);
            SetAttr(attrs[..k], attrs[k].0, attrs[k].1) == attrs[..k + 1]
  {
    var attrs := CallAttributes(row);
    CallKeysUnique();
    SetAttrNew(attrs[..k], attrs[k].0, attrs[k].1);
    assert attrs[..k + 1] == attrs[..k] + [attrs[k]];
  }

  /** The first five call.set calls. */
  method SetCallSummary(call: Element, log: CsvRow)
    requires call.attrib == []
    modifies call
    ensures call.attrib == CallAttributes(log)[..5]
    ensures call.tag == old(call.tag) && call.children == old(call.children)
  {
    assert CallAttributes(log)[..0] == [];
    call.Set("number", Get(log, "phone_number", ""));
    assert call.attrib == CallAttributes(log)[..1] by { CallStep(log, 0); }
    call.Set("duration", Get(log, "duration", "0"));
    assert call.attrib == CallAttributes(log)[..2] by { CallStep(log, 1); }
    call.Set("date", Get(log, "date", "0"));
    assert call.attrib == CallAttributes(log)[..3] by { CallStep(log, 2); }
    call.Set("type", Get(log, "type", "0"));
    assert call.attrib == CallAttributes(log)[..4] by { CallStep(log, 3); }
    call.Set("presentation", Get(log, "presentation", "1"));
    assert call.attrib == CallAttributes(log)[..5] by { CallStep(log, 4); }
  }

  /** The last five call.set calls. */
  method SetCallDetails(call: Element, log: CsvRow)
    requires call.attrib == CallAttributes(log)[..5]
    modifies call
    ensures call.attrib == CallAttributes(log)
    ensures call.tag == old(call.tag) && call.children == old(call.children)
  {
    call.Set("subscription_id", Get(log, "subscription_id", "null"));
    assert call.attrib == CallAttributes(log)[..6] by { CallStep(log, 5); }
    call.Set("post_dial_digits", Get(log, "post_dial_digits", ""));
    assert call.attrib == CallAttributes(log)[..7] by { CallStep(log, 6); }
    call.Set("subscription_component_name", Get(log, "subscription_component_name", "null"));
    assert call.attrib == CallAttributes(log)[..8] by { CallStep(log, 7); }
    call.Set("readable_date", Get(log, "readable_date", ""));
    assert call.attrib == CallAttributes(log)[..9] by { CallStep(log, 8); }
    call.Set("contact_name", Get(log, "contact_name", "(Unknown)"));
    assert call.attrib == CallAttributes(log)[..10] by { CallStep(log, 9); }
    assert CallAttributes(log)[..10] == CallAttributes(log);
  }
}
