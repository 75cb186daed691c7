/** The message reconciler (write_to_csv): deduplicate, order by date,
    apply the cutoff and count; and get_cutoff_from_xml, which derives the
    cutoff from a previously produced backup file. */
module SmsReconcile {
  import opened Text
  import opened Decimal
  import opened Sorting
  import opened SmsExtract

  // ---------------------------------------------------------------------
  // Deduplication. The frame is sorted by (date, body, phone_number,
  // is_from_me) ascending and service descending, and drop_duplicates keeps
  // the last row of each key: the one with the smallest service.

  datatype DedupKey = DedupKey(date: int, body: string, phoneNumber: string, isFromMe: int)

  function KeyOf(m: Message): DedupKey {
    DedupKey(m.date, m.body, m.phoneNumber, m.isFromMe)
  }

  function KeySet(ms: seq<Message>): set<DedupKey> {
    set m | m in ms :: KeyOf(m)
  }

  predicate DistinctKeys(d: seq<Message>) {
    forall i, j :: 0 <= i < j < |d| ==> KeyOf(d[i]) != KeyOf(d[j])
  }

  /** Each survivor's service sorts no later than that of any input record
      with its key. */
  predicate MinService(d: seq<Message>, ms: seq<Message>) {
    forall y, x :: y in d && x in ms && KeyOf(x) == KeyOf(y) ==> StrLe(y.service, x.service)
  }

  /** Adds one record to the survivors: it replaces the survivor of its
      key when its service sorts no later (the later of two equal services
      is kept, as the sort is stable), and is appended when its key is new. */
  function Absorb(d: seq<Message>, m: Message): seq<Message> {
    if d == [] then [m]
    else if KeyOf(d[0]) == KeyOf(m) then
      (if StrLe(m.service, d[0].service) then [m] + d[1..] else d)
    else [d[0]] + Absorb(d[1..], m)
  }

  lemma {:induction false} AbsorbElements(d: seq<Message>, m: Message)
    ensures multiset(Absorb(d, m)) <= multiset(d) + multiset{m}
  {
    if d != [] {
      assert d == [d[0]] + d[1..];
      if KeyOf(d[0]) != KeyOf(m) {
        AbsorbElements(d[1..], m);
      }
    }
  }

  lemma KeySetConcat(a: seq<Message>, b: seq<Message>)
    ensures KeySet(a + b) == KeySet(a) + KeySet(b)
  {
    forall k | k in KeySet(a + b) ensures k in KeySet(a) + KeySet(b) {
      var y :| y in a + b && KeyOf(y) == k;
    }
    forall k | k in KeySet(a) + KeySet(b) ensures k in KeySet(a + b) {
      if k in KeySet(a) {
        var y :| y in a && KeyOf(y) == k;
        assert y in a + b;
      } else {
        var y :| y in b && KeyOf(y) == k;
        assert y in a + b;
      }
    }
  }

  lemma {:induction false} AbsorbKeySet(d: seq<Message>, m: Message)
    ensures KeySet(Absorb(d, m)) == KeySet(d) + {KeyOf(m)}
  {
    if d == [] {
      assert KeySet([m]) == {KeyOf(m)};
    } else {
      assert d == [d[0]] + d[1..];
      KeySetConcat([d[0]], d[1..]);
      assert KeySet([d[0]]) == {KeyOf(d[0])};
      if KeyOf(d[0]) == KeyOf(m) {
        KeySetConcat([m], d[1..]);
        assert KeySet([m]) == {KeyOf(m)};
      } else {
        AbsorbKeySet(d[1..], m);
        KeySetConcat([d[0]], Absorb(d[1..], m));
      }
    }
  }

  lemma {:induction false} AbsorbDistinct(d: seq<Message>, m: Message)
    requires DistinctKeys(d)
    ensures DistinctKeys(Absorb(d, m))
  {
    if d != [] && KeyOf(d[0]) != KeyOf(m) {
      var rest := Absorb(d[1..], m);
      AbsorbDistinct(d[1..], m);
      AbsorbKeySet(d[1..], m);
      assert KeyOf(d[0]) !in KeySet(d[1..]);
      assert forall j :: 0 <= j < |rest| ==> KeyOf(rest[j]) in KeySet(rest);
    }
  }

  /** The survivor of m's key sorts no later than m; and if m itself
      survives, it sorts no later than the survivor it replaced. */
  lemma {:induction false} AbsorbService(d: seq<Message>, m: Message)
    requires DistinctKeys(d)
    ensures forall y :: y in Absorb(d, m) && KeyOf(y) == KeyOf(m) ==> StrLe(y.service, m.service)
    ensures m in Absorb(d, m) ==> forall y :: y in d && KeyOf(y) == KeyOf(m) ==> StrLe(m.service, y.service)
  {
    StrLeReflexive(m.service);
    if d != [] {
      assert d == [d[0]] + d[1..];
      if KeyOf(d[0]) == KeyOf(m) {
        assert forall y :: y in d[1..] ==> KeyOf(y) != KeyOf(m);
        StrLeTotal(m.service, d[0].service);
      } else {
        AbsorbService(d[1..], m);
      }
    }
  }

  /** One more input record keeps the survivors' service minimal. */
  lemma AbsorbKeepsMinService(d: seq<Message>, ms: seq<Message>, m: Message)
    requires DistinctKeys(d) && KeySet(d) == KeySet(ms) && MinService(d, ms)
    ensures MinService(Absorb(d, m), ms + [m])
  {
    var r := Absorb(d, m);
    AbsorbElements(d, m);
    AbsorbKeySet(d, m);
    AbsorbService(d, m);
    forall y, x | y in r && x in ms + [m] && KeyOf(x) == KeyOf(y)
      ensures StrLe(y.service, x.service)
    {
      assert y in multiset(r);
      if x != m {
        assert x in ms;
        if y !in d {
          assert y == m;
          assert KeyOf(x) in KeySet(d);
          var y0 :| y0 in d && KeyOf(y0) == KeyOf(x);
          StrLeTransitive(m.service, y0.service, x.service);
        }
      }
    }
  }

  /** drop_duplicates(keep='last') after the sort, folded over the records
      in row order. */
  function Dedup(ms: seq<Message>): seq<Message> {
    if ms == [] then [] else Absorb(Dedup(ms[..|ms| - 1]), ms[|ms| - 1])
  }

  /** Deduplication: no two survivors share a key, every key of the input
      survives, each survivor is an input record, and each survivor has the
      smallest service of its key. */
  lemma {:induction false} DedupProperties(ms: seq<Message>)
    ensures var d := Dedup(ms);
            DistinctKeys(d) && KeySet(d) == KeySet(ms) &&
            multiset(d) <= multiset(ms) && MinService(d, ms)
    decreases |ms|
  {
    if ms != [] {
      var init := ms[..|ms| - 1];
      var m := ms[|ms| - 1];
      DedupProperties(init);
      assert ms == init + [m];
      assert KeySet(ms) == KeySet(init) + {KeyOf(m)};
      AbsorbElements(Dedup(init), m);
      AbsorbKeySet(Dedup(init), m);
      AbsorbDistinct(Dedup(init), m);
      AbsorbKeepsMinService(Dedup(init), init, m);
    }
  }

  /** Each survivor is one of the input records. */
  lemma DedupSurvivorsAreInput(ms: seq<Message>)
    ensures forall y :: y in Dedup(ms) ==> y in ms
  {
    DedupProperties(ms);
    forall y | y in Dedup(ms) ensures y in ms {
      assert y in multiset(Dedup(ms));
    }
  }

  // ---------------------------------------------------------------------
  // Order, cutoff and counts.

  function DateOf(m: Message): int {
    m.date
  }

  /** The deduplicated frame sorted by date. */
  function Reconciled(ms: seq<Message>): seq<Message> {
    SortBy(Dedup(ms), DateOf)
  }

  /** The reconciled frame is the deduplicated set, ordered by date. */
  lemma ReconciledIsSortedDedup(ms: seq<Message>)
    ensures SortedBy(Reconciled(ms), DateOf)
    ensures multiset(Reconciled(ms)) == multiset(Dedup(ms))
  {
  }

  /** df[df['date'] > cutoff], order kept. */
  function KeepAfter(s: seq<Message>, cutoff: int): (r: seq<Message>)
    ensures |r| <= |s|
    ensures forall m :: m in r <==> m in s && m.date > cutoff
    ensures forall m :: multiset(r)[m] == (if m.date > cutoff then multiset(s)[m] else 0)
  {
    if s == [] then []
    else
      var rest := KeepAfter(s[1..], cutoff);
      assert s == [s[0]] + s[1..];
      assert multiset(s) == multiset([s[0]]) + multiset(s[1..]);
      if s[0].date > cutoff then [s[0]] + rest else rest
  }

  /** Filtering keeps the date order. */
  lemma {:induction false} KeepAfterSorted(s: seq<Message>, cutoff: int)
    requires SortedBy(s, DateOf)
    ensures SortedBy(KeepAfter(s, cutoff), DateOf)
  {
    if s != [] {
      KeepAfterSorted(s[1..], cutoff);
      var rest := KeepAfter(s[1..], cutoff);
      if s[0].date > cutoff {
        forall k | 0 <= k < |rest| ensures DateOf(s[0]) <= DateOf(rest[k]) {
          assert rest[k] in s[1..];
          HeadFirst(s, rest[k]);
        }
        SortedCons(s[0], rest);
      }
    }
  }

  lemma HeadFirst(s: seq<Message>, m: Message)
    requires SortedBy(s, DateOf) && s != [] && m in s[1..]
    ensures DateOf(s[0]) <= DateOf(m)
  {
    var j :| 0 <= j < |s[1..]| && s[1..][j] == m;
    assert s[j + 1] == m;
  }

  lemma SortedCons(m: Message, rest: seq<Message>)
    requires SortedBy(rest, DateOf)
    requires forall k :: 0 <= k < |rest| ==> DateOf(m) <= DateOf(rest[k])
    ensures SortedBy([m] + rest, DateOf)
  {
    var r := [m] + rest;
    forall i, j | 0 <= i < j < |r| ensures DateOf(r[i]) <= DateOf(r[j]) {
      assert r[j] == rest[j - 1];
      if i > 0 {
        assert r[i] == rest[i - 1];
      }
    }
  }

  /** Python's round(x / 1000) * 1000: the nearest multiple of 1000, a tie
      going to the even multiple (round half to even). */
  function RoundToThousand(x: int): (r: int)
    ensures r % 1000 == 0
    ensures -500 <= x - r <= 500
    ensures (x - r == 500 || x - r == -500) ==> r % 2000 == 0
  {
    var q := x / 1000;
    var rem := x % 1000;
    if rem < 500 then q * 1000
    else if rem > 500 then (q + 1) * 1000
    else if q % 2 == 0 then q * 1000
    else (q + 1) * 1000
  }

  /** A multiple of 1000 rounds to itself. */
  lemma RoundToThousandFixed(x: int)
    requires x % 1000 == 0
    ensures RoundToThousand(x) == x
  {
    var r := RoundToThousand(x);
    assert (x - r) % 1000 == 0;
  }

  // ---------------------------------------------------------------------
  // get_cutoff_from_xml

  /** The prior backup file: absent, not parseable, or the `date` attribute
      of each sms element (None when the attribute is absent). */
  datatype XmlDoc = Missing | Unparsable | Parsed(smsDates: seq<Option<string>>)

  /** A usable date: a non-empty attribute that int() accepts. */
  function DateValue(attr: Option<string>): Option<int> {
    if attr.Some? && attr.value != [] then ParseInt(attr.value) else None
  }

  /** The usable date of each sms element, in document order. */
  function DateValues(dates: seq<Option<string>>): (vs: seq<Option<int>>)
    ensures |vs| == |dates| && forall i :: 0 <= i < |dates| ==> vs[i] == DateValue(dates[i])
  {
    seq(|dates|, i requires 0 <= i < |dates| => DateValue(dates[i]))
  }

  /** max(-1, every present value). */
  function Latest(vs: seq<Option<int>>): (latest: int)
    ensures latest >= -1
    ensures forall i :: 0 <= i < |vs| && vs[i].Some? ==> vs[i].value <= latest
    ensures latest == -1 || exists i :: 0 <= i < |vs| && vs[i] == Some(latest)
  {
    if vs == [] then -1
    else
      var init := vs[..|vs| - 1];
      var prev := Latest(init);
      assert forall i :: 0 <= i < |init| ==> init[i] == vs[i];
      match vs[|vs| - 1]
      case None => prev
      case Some(v) => if v > prev then v else prev
  }

  function LatestDate(dates: seq<Option<string>>): int {
    Latest(DateValues(dates))
  }

  /** The value get_cutoff_from_xml returns. `inRange` says whether
      datetime.fromtimestamp accepts latest / 1000; when it does not, the
      generic handler returns -1. */
  function CutoffFromXml(doc: XmlDoc, inRange: int -> bool): int {
    match doc
    case Parsed(dates) =>
      var latest := LatestDate(dates);
      if latest == -1 || inRange(latest) then latest else -1
    case _ => -1
  }

  /** What get_cutoff_from_xml promises: -1 for a missing or unparsable
      file; otherwise -1 or one of the usable dates, and, unless the latest
      date is out of datetime's range, no usable date is later. */
  lemma CutoffFromXmlProperties(doc: XmlDoc, inRange: int -> bool)
    ensures CutoffFromXml(doc, inRange) >= -1
    ensures !doc.Parsed? ==> CutoffFromXml(doc, inRange) == -1
    ensures doc.Parsed? && CutoffFromXml(doc, inRange) != -1 ==>
              exists i :: 0 <= i < |doc.smsDates| && DateValue(doc.smsDates[i]) == Some(CutoffFromXml(doc, inRange))
    ensures doc.Parsed? && inRange(LatestDate(doc.smsDates)) ==>
              forall i :: 0 <= i < |doc.smsDates| && DateValue(doc.smsDates[i]).Some? ==>
                DateValue(doc.smsDates[i]).value <= CutoffFromXml(doc, inRange)
  {
    if doc.Parsed? {
      var values := DateValues(doc.smsDates);
      assert forall i :: 0 <= i < |doc.smsDates| ==> values[i] == DateValue(doc.smsDates[i]);
    }
  }

  /** get_cutoff_from_xml: the max-scan over the sms elements. */
  method GetCutoffFromXml(doc: XmlDoc, inRange: int -> bool) returns (cutoff: int)
    ensures cutoff == CutoffFromXml(doc, inRange)
  {
    if !doc.Parsed? {
      return -1;
    }
    var dates := doc.smsDates;
    var latest := -1;
    ghost var values := DateValues(dates);
    for i := 0 to |dates|
      invariant latest == Latest(values[..i])
    {
      assert values[..i + 1][..i] == values[..i];
      var dateStr := dates[i];
      assert values[i] == DateValue(dateStr);
      assert Latest(values[..i + 1]) == (match values[i] case None => latest case Some(v) => if v > latest then v else latest);
      if dateStr.Some? && dateStr.value != [] {
        var parsed := ParseInt(dateStr.value);
        if parsed.Some? {
          latest := if parsed.value > latest then parsed.value else latest;
        }
      }
    }
    assert values[..|dates|] == values;
    if latest == -1 {
      return -1;
    }
    if !inRange(latest) {
      return -1;
    }
    return latest;
  }

  // ---------------------------------------------------------------------
  // The cutoff choice and write_to_csv.

  /** Where the cutoff comes from: the prior backup file, a number typed at
      the prompt, or an empty answer (write all rows). */
  datatype CutoffChoice = FromXml(doc: XmlDoc) | Entered(value: int) | NoneEntered

  /** The cutoff write_to_csv filters with: an empty answer gives the
      sentinel -1, any other source is rounded to the nearest second. */
  function CutoffOf(choice: CutoffChoice, inRange: int -> bool): (cutoff: int)
    ensures choice.NoneEntered? ==> cutoff == -1
    ensures !choice.NoneEntered? ==> cutoff % 1000 == 0
    ensures choice.Entered? ==> -500 <= choice.value - cutoff <= 500
    ensures choice.FromXml? ==> -500 <= CutoffFromXml(choice.doc, inRange) - cutoff <= 500
    ensures choice.Entered? ==> cutoff == RoundToThousand(choice.value)
    ensures choice.FromXml? ==> cutoff == RoundToThousand(CutoffFromXml(choice.doc, inRange))
  {
    match choice
    case FromXml(doc) => RoundToThousand(CutoffFromXml(doc, inRange))
    case Entered(n) => RoundToThousand(n)
    case NoneEntered => -1
  }

  /** The sentinel -1 only arises from an empty answer: a rounded cutoff is
      a multiple of 1000, so the file path never takes the "write all rows"
      branch, and a missing or unparsable file gives the cutoff 0. */
  lemma CutoffSentinelIff(choice: CutoffChoice, inRange: int -> bool)
    ensures CutoffOf(choice, inRange) == -1 <==> choice.NoneEntered?
    ensures choice.FromXml? && !choice.doc.Parsed? ==> CutoffOf(choice, inRange) == 0
  {
    if !choice.NoneEntered? {
      WholeThousands(CutoffOf(choice, inRange));
    }
  }

  lemma WholeThousands(c: int)
    requires c % 1000 == 0
    ensures c != -1 && (-501 <= c <= 499 ==> c == 0)
  {
    assert c == 1000 * (c / 1000);
  }

  datatype CsvWrite =
    | NothingToWrite
    | Written(rows: seq<Message>, totalRows: nat, rowsWritten: nat, rowsNotWritten: int)

  /** write_to_csv on messages: the rows written and the three counts. */
  function WriteToCsv(messages: seq<Message>, choice: CutoffChoice, inRange: int -> bool): CsvWrite {
    if messages == [] then NothingToWrite
    else
      var frame := Reconciled(messages);
      var cutoff := CutoffOf(choice, inRange);
      var kept := if cutoff != -1 then KeepAfter(frame, cutoff) else frame;
      Written(kept, |frame|, |kept|, |frame| - |kept|)
  }

  /** What is written: nothing for no messages; otherwise, in date order,
      exactly the deduplicated records after the cutoff (all of them for
      the sentinel), and the counts add up. */
  lemma WriteToCsvProperties(messages: seq<Message>, choice: CutoffChoice, inRange: int -> bool)
    ensures WriteToCsv(messages, choice, inRange).NothingToWrite? <==> messages == []
    ensures var w := WriteToCsv(messages, choice, inRange);
            var cutoff := CutoffOf(choice, inRange);
            w.Written? ==>
              SortedBy(w.rows, DateOf) &&
              w.totalRows == |Dedup(messages)| &&
              w.rowsWritten == |w.rows| &&
              w.rowsNotWritten == w.totalRows - w.rowsWritten >= 0 &&
              (cutoff == -1 ==> multiset(w.rows) == multiset(Dedup(messages))) &&
              (cutoff != -1 ==> forall m :: m in w.rows <==> m in Dedup(messages) && m.date > cutoff) &&
              (cutoff != -1 ==> forall m :: multiset(w.rows)[m] ==
                                   (if m.date > cutoff then multiset(Dedup(messages))[m] else 0))
  {
    var w := WriteToCsv(messages, choice, inRange);
    if w.Written? {
      var frame := Reconciled(messages);
      var cutoff := CutoffOf(choice, inRange);
      assert |frame| == |multiset(frame)| == |Dedup(messages)|;
      if cutoff != -1 {
        KeepAfterSorted(frame, cutoff);
        forall m ensures m in frame <==> m in Dedup(messages) {
          assert m in frame <==> m in multiset(frame);
        }
      }
    }
  }

  // ---------------------------------------------------------------------
  // The staging CSV row as csv.DictWriter writes it and csv.DictReader
  // reads it back.

  const MESSAGE_COLUMNS: seq<string> :=
    ["rowid", "date", "readable_date", "body", "phone_number", "is_from_me", "cache_roomname", "service"]

  /** A written message as a CSV row: str() of every field, "" for None. */
  function MessageCsvRow(m: Message): (row: map<string, string>)
    ensures forall c :: c in MESSAGE_COLUMNS <==> c in row
  {
    map[
      "rowid" := IntToString(m.rowid),
      "date" := IntToString(m.date),
      "readable_date" := m.readableDate,
      "body" := m.body,
      "phone_number" := m.phoneNumber,
      "is_from_me" := IntToString(m.isFromMe),
      "cache_roomname" := (if m.cacheRoomname.Some? then m.cacheRoomname.value else ""),
      "service" := m.service]
  }
}
