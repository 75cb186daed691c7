/** csv_to_xml: every row of the staging message CSV becomes an `sms`
    element under a `smses` root whose `count` is the number of rows. */
module SmsToXml {
  import opened Text
  import opened Decimal
  import opened Xml
  import opened Csv
  import opened SmsExtract
  import opened SmsReconcile

  /** The message was received: `is_from_me` is present and exactly "0". */
  predicate Received(row: CsvRow) {
    "is_from_me" in row && row["is_from_me"] == "0"
  }

  /** The attribute names of an sms element, in the order they are set. */
  const SMS_KEYS: seq<string> :=
    ["address", "date", "body", "type", "read", "status", "protocol", "subject", "toa", "sc_toa",
     "service_center", "locked", "readable_date", "contact_name", "date_sent", "sub_id"]

  /** The attribute list one row produces, in setting order. */
  function SmsAttributes(row: CsvRow): (attrs: Attributes)
    ensures |attrs| == |SMS_KEYS| && forall i :: 0 <= i < |attrs| ==> attrs[i].0 == SMS_KEYS[i]
  {
    [("address", Get(row, "phone_number", "")),
     ("date", Get(row, "date", "")),
     ("body", Get(row, "body", "")),
     ("type", if Received(row) then "1" else "2"),
     ("read", if Received(row) then "1" else "0"),
     ("status", "-1"),
     ("protocol", "0"),
     ("subject", "null"),
     ("toa", "null"),
     ("sc_toa", "null"),
     ("service_center", "null"),
     ("locked", "0"),
     ("readable_date", Get(row, "readable_date", "null")),
     ("contact_name", "(Unknown)"),
     ("date_sent", "0"),
     ("sub_id", "-1")]
  }

  /** No attribute name is set twice, so each is found where it was set. */
  lemma SmsKeysUnique()
    ensures forall i, j :: 0 <= i < j < |SMS_KEYS| ==> SMS_KEYS[i] != SMS_KEYS[j]
  {
  }

  lemma SmsLookup(row: CsvRow, i: nat)
    requires i < |SMS_KEYS|
    ensures Lookup(SmsAttributes(row), SMS_KEYS[i]) == Some(SmsAttributes(row)[i].1)
  {
    SmsKeysUnique();
    LookupAt(SmsAttributes(row), i);
  }

  /** The is_from_me encoding: type and read both say "received" exactly
      when is_from_me is the string "0" (a missing column counts as sent). */
  lemma SmsIsFromMeEncoding(row: CsvRow)
    ensures var attrs := SmsAttributes(row);
            (Lookup(attrs, "type") == Some("1") <==> Received(row)) &&
            (Lookup(attrs, "type") == Some("2") <==> !Received(row)) &&
            (Lookup(attrs, "read") == Some("1") <==> Received(row)) &&
            (Lookup(attrs, "read") == Some("0") <==> !Received(row)) &&
            (Lookup(attrs, "type") == Some("1") <==> Lookup(attrs, "read") == Some("1"))
  {
    SmsLookup(row, 3);
    SmsLookup(row, 4);
  }

  /** address, date and body copy their columns ("" when absent);
      readable_date copies its column ("null" when absent). */
  lemma SmsCopiedColumns(row: CsvRow)
    ensures var attrs := SmsAttributes(row);
            Lookup(attrs, "address") == Some(Get(row, "phone_number", "")) &&
            Lookup(attrs, "date") == Some(Get(row, "date", "")) &&
            Lookup(attrs, "body") == Some(Get(row, "body", "")) &&
            Lookup(attrs, "readable_date") == Some(Get(row, "readable_date", "null"))
  {
    SmsLookup(row, 0);
    SmsLookup(row, 1);
    SmsLookup(row, 2);
    SmsLookup(row, 12);
  }

  /** The placeholders take their fixed values whatever the row holds. */
  lemma SmsPlaceholders(row: CsvRow)
    ensures var attrs := SmsAttributes(row);
            Lookup(attrs, "status") == Some("-1") && Lookup(attrs, "protocol") == Some("0") &&
            Lookup(attrs, "subject") == Some("null") && Lookup(attrs, "toa") == Some("null") &&
            Lookup(attrs, "sc_toa") == Some("null") && Lookup(attrs, "service_center") == Some("null") &&
            Lookup(attrs, "locked") == Some("0") && Lookup(attrs, "contact_name") == Some("(Unknown)") &&
            Lookup(attrs, "date_sent") == Some("0") && Lookup(attrs, "sub_id") == Some("-1")
  {
    SmsLookup(row, 5);
    SmsLookup(row, 6);
    SmsLookup(row, 7);
    SmsLookup(row, 8);
    SmsLookup(row, 9);
    SmsLookup(row, 10);
    SmsLookup(row, 11);
    SmsLookup(row, 13);
    SmsLookup(row, 14);
    SmsLookup(row, 15);
  }

  /** str(i) is "0" only for 0. */
  lemma ZeroNumeral(i: int)
    ensures IntToString(i) == "0" <==> i == 0
  {
    assert IntToString(0) == "0";
    ParseIntRoundTrip(i);
    ParseIntRoundTrip(0);
  }

  /** A message written to the staging CSV comes back as an sms element
      carrying its number, body and readable date unchanged, a date that
      int() reads back as the message's own, and type/read saying whether
      the operator sent it. */
  lemma SmsFromMessage(m: Message)
    ensures var attrs := SmsAttributes(MessageCsvRow(m));
            Lookup(attrs, "address") == Some(m.phoneNumber) &&
            Lookup(attrs, "body") == Some(m.body) &&
            Lookup(attrs, "readable_date") == Some(m.readableDate) &&
            Lookup(attrs, "date") == Some(IntToString(m.date)) &&
            ParseInt(Lookup(attrs, "date").value) == Some(m.date) &&
            (Lookup(attrs, "type") == Some("1") <==> m.isFromMe == 0)
  {
    var row := MessageCsvRow(m);
    StagedColumns(m);
    SmsCopiedColumns(row);
    SmsIsFromMeEncoding(row);
    ParseIntRoundTrip(m.date);
    ZeroNumeral(m.isFromMe);
  }

  lemma StagedColumns(m: Message)
    ensures var row := MessageCsvRow(m);
            Get(row, "phone_number", "") == m.phoneNumber &&
            Get(row, "body", "") == m.body &&
            Get(row, "readable_date", "null") == m.readableDate &&
            Get(row, "date", "") == IntToString(m.date) &&
            (Received(row) <==> IntToString(m.isFromMe) == "0")
  {
  }

  /** The date attributes of the exported messages, as a later run's
      get_cutoff_from_xml reads them. */
  function ExportedDates(ms: seq<Message>): (dates: seq<Option<string>>)
    ensures |dates| == |ms|
  {
    seq(|ms|, i requires 0 <= i < |ms| => Lookup(SmsAttributes(MessageCsvRow(ms[i])), "date"))
  }

  /** Reading back the exported file finds every exported date, so the
      latest date it reports is at least each of them. */
  lemma ExportedDatesAreRead(ms: seq<Message>)
    ensures forall i :: 0 <= i < |ms| ==> DateValues(ExportedDates(ms))[i] == Some(ms[i].date)
    ensures forall i :: 0 <= i < |ms| ==> ms[i].date <= LatestDate(ExportedDates(ms))
  {
    var dates := ExportedDates(ms);
    forall i | 0 <= i < |ms| ensures DateValue(dates[i]) == Some(ms[i].date) {
      SmsFromMessage(ms[i]);
      assert IntToString(ms[i].date) != [];
    }
  }

  /** When every date a file holds is whole seconds, the cutoff read from
      it is not the sentinel and no date in the file is later. */
  lemma WholeSecondCutoff(dates: seq<Option<string>>, inRange: int -> bool)
    requires forall i :: 0 <= i < |dates| && DateValue(dates[i]).Some? ==> DateValue(dates[i]).value % 1000 == 0
    requires inRange(LatestDate(dates))
    ensures var cutoff := CutoffOf(FromXml(Parsed(dates)), inRange);
            cutoff != -1 && forall i :: 0 <= i < |dates| && DateValue(dates[i]).Some? ==> DateValue(dates[i]).value <= cutoff
  {
    var latest := LatestDate(dates);
    var vs := DateValues(dates);
    assert CutoffOf(FromXml(Parsed(dates)), inRange) == RoundToThousand(latest);
    if latest != -1 {
      var j :| 0 <= j < |vs| && vs[j] == Some(latest);
      RoundToThousandFixed(latest);
    }
  }

  /** The cutoff a later run reads from the exported file is at least
      every exported date. */
  lemma ExportedCutoff(exported: seq<Message>, inRange: int -> bool)
    requires forall i :: 0 <= i < |exported| ==> exported[i].date % 1000 == 0
    requires inRange(LatestDate(ExportedDates(exported)))
    ensures var cutoff := CutoffOf(FromXml(Parsed(ExportedDates(exported))), inRange);
            cutoff != -1 && forall i :: 0 <= i < |exported| ==> exported[i].date <= cutoff
  {
    var dates := ExportedDates(exported);
    var vs := DateValues(dates);
    ExportedDatesAreRead(exported);
    forall i | 0 <= i < |dates| && DateValue(dates[i]).Some?
      ensures DateValue(dates[i]).value % 1000 == 0
    {
      assert vs[i] == Some(exported[i].date);
    }
    WholeSecondCutoff(dates, inRange);
  }

  /** A later run that takes its cutoff from the file this export produced
      writes none of the exported messages again: every row it writes is
      later than every exported date. */
  lemma ReexportSkipsExported(exported: seq<Message>, messages: seq<Message>, inRange: int -> bool)
    requires forall i :: 0 <= i < |exported| ==> exported[i].date % 1000 == 0
    requires inRange(LatestDate(ExportedDates(exported)))
    ensures var w := WriteToCsv(messages, FromXml(Parsed(ExportedDates(exported))), inRange);
            w.Written? ==> forall m, i :: m in w.rows && 0 <= i < |exported| ==> m.date > exported[i].date
  {
    var choice := FromXml(Parsed(ExportedDates(exported)));
    ExportedCutoff(exported, inRange);
    WriteToCsvProperties(messages, choice, inRange);
  }

  /** csv_to_xml: None for a missing or unreadable file or an empty one;
      otherwise a `smses` root with `count` and one `sms` child per row, in
      row order, each with the row's attribute list. */
  method CsvToXml(source: Option<seq<CsvRow>>) returns (root: Element?)
    ensures root == null <==> source.None? || source.value == []
    ensures root != null ==>
              fresh(root) && root.tag == "smses" &&
              root.attrib == [("count", NatToString(|source.value|))] &&
              |root.children| == |source.value| &&
              (forall k :: 0 <= k < |root.children| ==>
                 fresh(root.children[k]) && root.children[k] != root &&
                 root.children[k].tag == "sms" && root.children[k].children == [] &&
                 root.children[k].attrib == SmsAttributes(source.value[k])) &&
              forall k, l :: 0 <= k < l < |root.children| ==> root.children[k] != root.children[l]
  {
    if source.None? {
      return null;
    }
    var messages := source.value;
    if messages == [] {
      return null;
    }
    root := new Element("smses");
    root.Set("count", NatToString(|messages|));
    for i := 0 to |messages|
      invariant root.tag == "smses" && root.attrib == [("count", NatToString(|messages|))]
      invariant |root.children| == i
      invariant fresh(root)
      invariant forall k, l :: 0 <= k < l < i ==> root.children[k] != root.children[l]
      invariant forall k :: 0 <= k < i ==>
                  fresh(root.children[k]) && root.children[k] != root && root.children[k].tag == "sms" &&
                  root.children[k].children == [] && root.children[k].attrib == SmsAttributes(messages[k])
    {
      ghost var kids := root.children;
      var sms := AppendSms(root, messages[i]);
      assert forall k :: 0 <= k < i ==> root.children[k] == kids[k];
    }
  }

  /** One iteration of the row loop: SubElement, then the sixteen set calls. */
  method AppendSms(root: Element, msg: CsvRow) returns (sms: Element)
    modifies root
    ensures root.tag == old(root.tag) && root.attrib == old(root.attrib)
    ensures root.children == old(root.children) + [sms]
    ensures fresh(sms) && sms.tag == "sms" && sms.children == [] && sms.attrib == SmsAttributes(msg)
  {
    sms := root.SubElement("sms");
    SetCopiedAttributes(sms, msg);
    SetDirectionAttributes(sms, msg);
    SetOptionalAttributes(sms, msg);
    SetRemainingAttributes(sms, msg);
  }

  /** Setting the next attribute extends the list set so far by one. */
  lemma SmsStep(row: CsvRow, k: nat)
    requires k < |SMS_KEYS|
    ensures var attrs := SmsAttributes(row);
            SetAttr(attrs[..k], attrs[k].0, attrs[k].1) == attrs[..k + 1]
  {
    var attrs := SmsAttributes(row);
    SmsKeysUnique();
    SetAttrNew(attrs[..k], attrs[k].0, attrs[k].1);
    assert attrs[..k + 1] == attrs[..k] + [attrs[k]];
  }

  /** The columns copied into the first three attributes. */
  method SetCopiedAttributes(sms: Element, msg: CsvRow)
    requires sms.attrib == []
    modifies sms
    ensures sms.attrib == SmsAttributes(msg)[..3]
    ensures sms.tag == old(sms.tag) && sms.children == old(sms.children)
  {
    assert SmsAttributes(msg)[..0] == [];
    sms.Set("address", Get(msg, "phone_number", ""));
    assert sms.attrib == SmsAttributes(msg)[..1] by { SmsStep(msg, 0); }
    sms.Set("date", Get(msg, "date", ""));
    assert sms.attrib == SmsAttributes(msg)[..2] by { SmsStep(msg, 1); }
    sms.Set("body", Get(msg, "body", ""));
    assert sms.attrib == SmsAttributes(msg)[..3] by { SmsStep(msg, 2); }
  }

  /** The is_from_me encoding and the fixed status. */
  method SetDirectionAttributes(sms: Element, msg: CsvRow)
    requires sms.attrib == SmsAttributes(msg)[..3]
    modifies sms
    ensures sms.attrib == SmsAttributes(msg)[..6]
    ensures sms.tag == old(sms.tag) && sms.children == old(sms.children)
  {
    sms.Set("type", if Received(msg) then "1" else "2");
    assert sms.attrib == SmsAttributes(msg)[..4] by { SmsStep(msg, 3); }
    sms.Set("read", if Received(msg) then "1" else "0");
    assert sms.attrib == SmsAttributes(msg)[..5] by { SmsStep(msg, 4); }
    sms.Set("status", "-1");
    assert sms.attrib == SmsAttributes(msg)[..6] by { SmsStep(msg, 5); }
  }

  /** The optional placeholders, the next six sms.set calls. */
  method SetOptionalAttributes(sms: Element, msg: CsvRow)
    requires sms.attrib == SmsAttributes(msg)[..6]
    modifies sms
    ensures sms.attrib == SmsAttributes(msg)[..12]
    ensures sms.tag == old(sms.tag) && sms.children == old(sms.children)
  {
    sms.Set("protocol", "0");
    assert sms.attrib == SmsAttributes(msg)[..7] by { SmsStep(msg, 6); }
    sms.Set("subject", "null");
    assert sms.attrib == SmsAttributes(msg)[..8] by { SmsStep(msg, 7); }
    sms.Set("toa", "null");
    assert sms.attrib == SmsAttributes(msg)[..9] by { SmsStep(msg, 8); }
    sms.Set("sc_toa", "null");
    assert sms.attrib == SmsAttributes(msg)[..10] by { SmsStep(msg, 9); }
    sms.Set("service_center", "null");
    assert sms.attrib == SmsAttributes(msg)[..11] by { SmsStep(msg, 10); }
    sms.Set("locked", "0");
    assert sms.attrib == SmsAttributes(msg)[..12] by { SmsStep(msg, 11); }
  }

  /** The last four sms.set calls. */
  method SetRemainingAttributes(sms: Element, msg: CsvRow)
    requires sms.attrib == SmsAttributes(msg)[..12]
    modifies sms
    ensures sms.attrib == SmsAttributes(msg)
    ensures sms.tag == old(sms.tag) && sms.children == old(sms.children)
  {
    sms.Set("readable_date", Get(msg, "readable_date", "null"));
    assert sms.attrib == SmsAttributes(msg)[..13] by { SmsStep(msg, 12); }
    sms.Set("contact_name", "(Unknown)");
    assert sms.attrib == SmsAttributes(msg)[..14] by { SmsStep(msg, 13); }
    sms.Set("date_sent", "0");
    assert sms.attrib == SmsAttributes(msg)[..15] by { SmsStep(msg, 14); }
    sms.Set("sub_id", "-1");
    assert sms.attrib == SmsAttributes(msg)[..16] by { SmsStep(msg, 15); }
    assert SmsAttributes(msg)[..16] == SmsAttributes(msg);
  }
}
