/** The message extractor: read_messages turns the rows of the message
    query (message LEFT JOIN handle) into message records, resolving the
    counterparty, cleaning the phone string and resolving the body. The
    database, the archive decoder and the date converter are injected. */
module SmsExtract {
  import opened Text
  import opened Batch

  type Blob = seq<bv8>

  /** One row of the message query. */
  datatype MessageRow = MessageRow(
    rowid: int,
    date: Option<int>,             // nanoseconds since 2001-01-01; None for SQL NULL
    text: Option<string>,
    attributedBody: Option<Blob>,
    handleId: Option<string>,      // handle.id; None when the join finds no handle
    isFromMe: int,
    cacheRoomname: Option<string>,
    service: string)

  /** A normalised message, as read_messages appends it. */
  datatype Message = Message(
    rowid: int,
    date: int,                     // milliseconds since the Unix epoch
    readableDate: string,
    body: string,
    phoneNumber: string,
    isFromMe: int,
    cacheRoomname: Option<string>,
    service: string)

  /** What the extractor asks of the world outside the row. Each None
      stands for "no row found" (the lookups) or "raised" (the decoder and
      the date converter). */
  datatype MessageEnv = MessageEnv(
    chatIdOf: int -> Option<int>,             // chat_message_join by message ROWID
    chatIdentifierOf: int -> Option<string>,  // chat.chat_identifier by chat ROWID
    decode: Blob -> Option<string>,           // first string of the typedstream archive
    convertDate: int -> Option<(int, string)>)  // whole seconds since the Unix epoch, readable text

  const NOT_FOUND := "Not found"

  /** The two dependent lookups message -> chat -> chat identifier. */
  function ChatIdentifier(env: MessageEnv, rowid: int): (r: Option<string>)
    ensures r.Some? <==> env.chatIdOf(rowid).Some? && env.chatIdentifierOf(env.chatIdOf(rowid).value).Some?
    ensures r.Some? ==> r == env.chatIdentifierOf(env.chatIdOf(rowid).value)
  {
    match env.chatIdOf(rowid)
    case None => None
    case Some(chatId) => env.chatIdentifierOf(chatId)
  }

  /** The raw counterparty of a row. None is the self-identifier fallback,
      whose name is undefined in the extractor, so reaching it raises and
      ends the whole batch. */
  function Counterparty(row: MessageRow, env: MessageEnv): (r: Option<string>)
    ensures r.None? ==> row.isFromMe == 1 && row.handleId.None?
    ensures row.handleId.Some? ==> r == row.handleId
    ensures row.handleId.None? && row.isFromMe != 1 ==> r == Some(NOT_FOUND)
    ensures row.handleId.None? && row.isFromMe == 1 ==> r == ChatIdentifier(env, row.rowid)
  {
    if row.isFromMe == 1 && row.handleId.None? then ChatIdentifier(env, row.rowid)
    else Some(if row.handleId.None? then NOT_FOUND else row.handleId.value)
  }

  // ---------------------------------------------------------------------
  // Phone cleanup: re.sub(r'\(.*?\)', '', s), then strip(), then "+91".

  predicate IsCloser(c: char) {
    c == ')' || c == '\n'
  }

  /** The first index at or after i holding ')' or a newline (the regex's
      '.' does not match a newline), or |s| when there is none. */
  function Closer(s: string, i: nat): (j: nat)
    requires i <= |s|
    ensures i <= j <= |s|
    ensures forall k :: i <= k < j ==> !IsCloser(s[k])
    ensures j < |s| ==> IsCloser(s[j])
    decreases |s| - i
  {
    if i == |s| || IsCloser(s[i]) then i else Closer(s, i + 1)
  }

  /** The pattern matches at i: '(' and, before any newline, a ')'. */
  predicate GroupAt(s: string, i: nat)
    requires i < |s|
  {
    s[i] == '(' && Closer(s, i + 1) < |s| && s[Closer(s, i + 1)] == ')'
  }

  predicate NoGroup(s: string) {
    forall i :: 0 <= i < |s| ==> !GroupAt(s, i)
  }

  /** Removes, left to right, each '(' up to the first following ')'. */
  function StripParens(s: string): (r: string)
    ensures |r| <= |s|
    decreases |s|
  {
    if s == [] then []
    else if GroupAt(s, 0) then StripParens(s[Closer(s, 1) + 1..])
    else [s[0]] + StripParens(s[1..])
  }

  lemma CloserIs(s: string, i: nat, j: nat)
    requires i <= j <= |s|
    requires j < |s| ==> IsCloser(s[j])
    requires forall k :: i <= k < j ==> !IsCloser(s[k])
    ensures Closer(s, i) == j
  {
  }

  lemma CloserShift(s: string, d: nat, k: nat)
    requires d + k <= |s|
    ensures Closer(s[d..], k) + d == Closer(s, k + d)
  {
    CloserIs(s, k + d, Closer(s[d..], k) + d);
  }

  lemma GroupInSlice(s: string, lo: nat, hi: nat, i: nat)
    requires lo <= hi <= |s| && i < hi - lo
    requires GroupAt(s[lo..hi], i)
    ensures GroupAt(s, lo + i)
  {
    var t := s[lo..hi];
    CloserIs(s, lo + i + 1, lo + Closer(t, i + 1));
  }

  /** Every slice of a string without a group is without a group. */
  lemma NoGroupSlice(s: string, lo: nat, hi: nat)
    requires lo <= hi <= |s| && NoGroup(s)
    ensures NoGroup(s[lo..hi])
  {
    forall i | 0 <= i < hi - lo ensures !GroupAt(s[lo..hi], i) {
      if GroupAt(s[lo..hi], i) {
        GroupInSlice(s, lo, hi, i);
      }
    }
  }

  lemma NoGroupSuffix(s: string, lo: nat)
    requires lo <= |s| && NoGroup(s)
    ensures NoGroup(s[lo..])
  {
    NoGroupSlice(s, lo, |s|);
    assert s[lo..|s|] == s[lo..];
  }

  lemma NoGroupPrefix(s: string, hi: nat)
    requires hi <= |s| && NoGroup(s)
    ensures NoGroup(s[..hi])
  {
    NoGroupSlice(s, 0, hi);
    assert s[0..hi] == s[..hi];
  }

  /** With no ')' before the first newline or the end, no group starts at
      the front. */
  lemma NoGroupAtFront(t: string)
    requires Closer(t, 0) > 0
    requires Closer(t, 0) == |t| || t[Closer(t, 0)] == '\n'
    ensures Closer(t, 1) == Closer(t, 0) && !GroupAt(t, 0)
  {
    CloserIs(t, 1, Closer(t, 0));
  }

  /** Up to the first ')' or newline, when that is a newline or the end,
      nothing is removed. */
  lemma {:induction false} KeptUpToCloser(t: string)
    requires Closer(t, 0) == |t| || t[Closer(t, 0)] == '\n'
    ensures StripParens(t) == t[..Closer(t, 0)] + StripParens(t[Closer(t, 0)..])
    decreases |t|
  {
    if Closer(t, 0) > 0 {
      NoGroupAtFront(t);
      CloserShift(t, 1, 0);
      KeptUpToCloser(t[1..]);
      UpToCloserStep(t);
    } else {
      assert t[..0] == [] && t[0..] == t;
    }
  }

  /** The front character is kept ahead of what the tail keeps. */
  lemma UpToCloserStep(t: string)
    requires 0 < Closer(t, 0) && !GroupAt(t, 0) && Closer(t[1..], 0) == Closer(t, 0) - 1
    requires StripParens(t[1..]) == t[1..][..Closer(t, 0) - 1] + StripParens(t[1..][Closer(t, 0) - 1..])
    ensures StripParens(t) == t[..Closer(t, 0)] + StripParens(t[Closer(t, 0)..])
  {
    var c := Closer(t, 0);
    TailDrop(t, c - 1);
    KeptBeforeGroup(t, c, StripParens(t[c..]));
  }

  lemma KeptFront(t: string)
    requires t != [] && !GroupAt(t, 0)
    ensures StripParens(t) == [t[0]] + StripParens(t[1..])
  {
  }

  /** A group inside the tail of r shows in r one place further on. */
  lemma NoGroupInTail(r: string, i: nat)
    requires 0 < i < |r| && !GroupAt(r[1..], i - 1)
    ensures !GroupAt(r, i)
  {
    CloserShift(r, 1, i);
  }

  /** A kept first character does not start a group once the rest has
      been cleaned. */
  lemma {:induction false} KeptHeadNoGroup(s: string)
    requires s != [] && !GroupAt(s, 0)
    ensures !GroupAt([s[0]] + StripParens(s[1..]), 0)
  {
    var r := [s[0]] + StripParens(s[1..]);
    if s[0] == '(' {
      var t := s[1..];
      CloserShift(s, 1, 0);
      var c := Closer(t, 0);
      KeptUpToCloser(t);
      if c == |t| {
        CloserIs(r, 1, |r|);
      } else {
        assert t[c..] == [t[c]] + t[c + 1..];
        assert !GroupAt(t[c..], 0);
        assert r[1 + c] == '\n';
        CloserIs(r, 1, 1 + c);
      }
    }
  }

  /** re.sub leaves no match of its pattern behind. */
  lemma {:induction false} StripParensNoGroup(s: string)
    ensures NoGroup(StripParens(s))
    decreases |s|
  {
    if s == [] {
    } else if GroupAt(s, 0) {
      StripParensNoGroup(s[Closer(s, 1) + 1..]);
    } else {
      var rest := StripParens(s[1..]);
      var r := [s[0]] + rest;
      StripParensNoGroup(s[1..]);
      forall i | 0 <= i < |r| ensures !GroupAt(r, i) {
        if i == 0 {
          KeptHeadNoGroup(s);
        } else {
          assert r[1..] == rest;
          NoGroupInTail(r, i);
        }
      }
    }
  }

  /** A string without a group is left as it is. */
  lemma {:induction false} NoGroupUnchanged(s: string)
    requires NoGroup(s)
    ensures StripParens(s) == s
    decreases |s|
  {
    if s != [] {
      assert !GroupAt(s, 0);
      NoGroupSlice(s, 1, |s|);
      assert s[1..|s|] == s[1..];
      NoGroupUnchanged(s[1..]);
    }
  }

  /** i is where re.sub finds its first match in s. */
  predicate FirstGroup(s: string, i: nat)
  {
    i < |s| && GroupAt(s, i) && forall j :: 0 <= j < i ==> !GroupAt(s, j)
  }

  /** The leftmost group of s, seen from its tail. */
  lemma LeftmostInTail(s: string, i: nat)
    requires 0 < i < |s| && GroupAt(s, i)
    requires forall j :: 0 <= j < i ==> !GroupAt(s, j)
    ensures Closer(s[1..], i) + 1 == Closer(s, i + 1)
    ensures FirstGroup(s[1..], i - 1)
    ensures !GroupAt(s, 0) && Closer(s, i + 1) < |s|
  {
    var u := s[1..];
    CloserShift(s, 1, i);
    assert u == s[1..|s|];
    forall j | 0 <= j < i - 1 ensures !GroupAt(u, j) {
      if GroupAt(u, j) {
        GroupInSlice(s, 1, |s|, j);
      }
    }
  }

  /** re.sub's leftmost match: everything before the first group is kept,
      the group itself is dropped, and the scan resumes after its ')'. With
      NoGroupUnchanged this pins the removal down completely. */
  lemma {:induction false} StripParensLeftmost(s: string, i: nat)
    requires FirstGroup(s, i)
    ensures StripParens(s) == s[..i] + StripParens(s[Closer(s, i + 1) + 1..])
    decreases i
  {
    if i == 0 {
      LeftmostAtFront(s);
    } else {
      LeftmostInTail(s, i);
      StripParensLeftmost(s[1..], i - 1);
      LeftmostJoin(s, i);
    }
  }

  lemma LeftmostJoin(s: string, i: nat)
    requires 0 < i < |s| && !GroupAt(s, 0)
    requires Closer(s, i + 1) < |s| && Closer(s[1..], i) + 1 == Closer(s, i + 1)
    requires StripParens(s[1..]) == s[1..][..i - 1] + StripParens(s[1..][Closer(s[1..], i - 1 + 1) + 1..])
    ensures StripParens(s) == s[..i] + StripParens(s[Closer(s, i + 1) + 1..])
  {
    LeftmostStep(s, i, Closer(s, i + 1) + 1);
  }

  lemma LeftmostAtFront(s: string)
    requires 0 < |s| && GroupAt(s, 0)
    ensures StripParens(s) == s[..0] + StripParens(s[Closer(s, 1) + 1..])
  {
    assert s[..0] == [];
  }

  /** The leftmost group one place further into the tail: c is one past
      its ')'. */
  lemma LeftmostStep(s: string, i: nat, c: nat)
    requires 0 < i < c <= |s| && !GroupAt(s, 0)
    requires StripParens(s[1..]) == s[1..][..i - 1] + StripParens(s[1..][c - 1..])
    ensures StripParens(s) == s[..i] + StripParens(s[c..])
  {
    TailDrop(s, c - 1);
    KeptBeforeGroup(s, i, StripParens(s[c..]));
  }

  /** A kept first character goes in front of what the tail keeps. */
  lemma KeptBeforeGroup(s: string, i: nat, rest: string)
    requires 0 < i <= |s| && !GroupAt(s, 0)
    requires StripParens(s[1..]) == s[1..][..i - 1] + rest
    ensures StripParens(s) == s[..i] + rest
  {
    KeptFront(s);
    FrontSplit(s, i);
    ConcatAssoc([s[0]], s[1..][..i - 1], rest);
  }

  lemma TailDrop(s: string, k: nat)
    requires 0 < |s| && k <= |s| - 1
    ensures s[1..][k..] == s[k + 1..]
  {
  }

  lemma FrontSplit(s: string, i: nat)
    requires 0 < i <= |s|
    ensures s[..i] == [s[0]] + s[1..][..i - 1]
  {
  }

  lemma ConcatAssoc(a: string, b: string, c: string)
    ensures a + (b + c) == (a + b) + c
  {
  }

  /** The parenthesis removal changes exactly the strings holding a group. */
  lemma StripParensFixedIff(s: string)
    ensures StripParens(s) == s <==> NoGroup(s)
  {
    StripParensNoGroup(s);
    if NoGroup(s) {
      NoGroupUnchanged(s);
    }
  }

  /** strip() keeps a slice, so it keeps the absence of groups. */
  lemma NoGroupStrip(u: string)
    requires NoGroup(u)
    ensures NoGroup(Strip(u))
  {
    NoGroupStripLeft(u);
    NoGroupStripRight(StripLeft(u));
  }

  lemma NoGroupStripLeft(u: string)
    requires NoGroup(u)
    ensures NoGroup(StripLeft(u))
  {
    NoGroupSuffix(u, |u| - |StripLeft(u)|);
  }

  lemma NoGroupStripRight(u: string)
    requires NoGroup(u)
    ensures NoGroup(StripRight(u))
  {
    NoGroupPrefix(u, |StripRight(u)|);
  }

  /** The cleaned phone string: groups removed, trimmed, and "+91" dropped
      from a trimmed string shorter than 13 characters. */
  function CleanPhone(s: string): (r: string)
    ensures var t := Strip(StripParens(s));
            (StartsWith(t, "+91") && |t| < 13 ==> r == t[3..]) &&
            (!(StartsWith(t, "+91") && |t| < 13) ==> r == t)
    ensures |r| <= |s|
    ensures NoGroup(r)
    ensures r == [] || !IsSpace(r[|r| - 1])
  {
    var t := Strip(StripParens(s));
    StripParensNoGroup(s);
    NoGroupStrip(StripParens(s));
    if StartsWith(t, "+91") && |t| < 13 then
      NoGroupSuffix(t, 3);
      t[3..]
    else t
  }

  // ---------------------------------------------------------------------
  // Body resolution and the per-row outcome.

  /** The text column if present, else the decoded archive; None drops
      the row. */
  function ResolveBody(row: MessageRow, decode: Blob -> Option<string>): (b: Option<string>)
    ensures b.Some? <==> row.text.Some? || (row.attributedBody.Some? && decode(row.attributedBody.value).Some?)
    ensures b.Some? && row.text.Some? ==> b.value == row.text.value
    ensures b.Some? && row.text.None? ==> b == decode(row.attributedBody.value)
  {
    if row.text.Some? then row.text
    else if row.attributedBody.Some? then decode(row.attributedBody.value)
    else None
  }

  /** One iteration of the read_messages loop, in the loop's order: phone
      first, then body, then date. Abort: an exception reaches the outer
      handler and the whole batch is lost. A NULL date raises in
      convert_datetime's arithmetic, and its handler raises again on an
      undefined name, so it aborts whatever the converter would do. */
  function NormalizeMessage(row: MessageRow, env: MessageEnv): Outcome<Message> {
    match Counterparty(row, env)
    case None => Abort
    case Some(phone) =>
      match ResolveBody(row, env.decode)
      case None => Skip
      case Some(body) =>
        match row.date
        case None => Abort
        case Some(date) =>
          match env.convertDate(date)
          case None => Abort
          case Some(converted) =>
            Emit(Message(row.rowid, converted.0 * 1000, converted.1, body, CleanPhone(phone),
                         row.isFromMe, row.cacheRoomname, row.service))
  }

  /** What each outcome means for the row: an emitted record carries the
      row's own columns, its resolved body and its cleaned counterparty; a
      skipped row is one whose body cannot be resolved. */
  lemma NormalizeMessageOutcome(row: MessageRow, env: MessageEnv)
    ensures NormalizeMessage(row, env).Skip? <==> Counterparty(row, env).Some? && ResolveBody(row, env.decode).None?
    ensures NormalizeMessage(row, env).Abort? <==>
              Counterparty(row, env).None? ||
              (ResolveBody(row, env.decode).Some? &&
               (row.date.None? || env.convertDate(row.date.value).None?))
    ensures NormalizeMessage(row, env).Emit? ==>
              var m := NormalizeMessage(row, env).record;
              m.rowid == row.rowid && m.isFromMe == row.isFromMe &&
              m.cacheRoomname == row.cacheRoomname && m.service == row.service &&
              Some(m.body) == ResolveBody(row, env.decode) &&
              m.phoneNumber == CleanPhone(Counterparty(row, env).value) &&
              m.date % 1000 == 0 && row.date.Some? &&
              env.convertDate(row.date.value) == Some((m.date / 1000, m.readableDate))
  {
    if NormalizeMessage(row, env).Emit? {
      var converted := env.convertDate(row.date.value).value;
      JavaMillis(converted.0);
    }
  }

  /** Milliseconds from whole seconds lose nothing. */
  lemma JavaMillis(secs: int)
    ensures (secs * 1000) % 1000 == 0 && (secs * 1000) / 1000 == secs
  {
  }

  function Normalizer(env: MessageEnv): MessageRow -> Outcome<Message> {
    row => NormalizeMessage(row, env)
  }

  /** The messages of a batch, or None when some row aborts it. */
  function ExtractMessages(rows: seq<MessageRow>, env: MessageEnv): Option<seq<Message>> {
    Collect(rows, Normalizer(env))
  }

  /** An extracted batch holds, in row order, the record of every row whose
      counterparty, body and date all resolve, and nothing else; each body
      is the row's text or, failing that, its decoded archive. */
  lemma ExtractedMessages(rows: seq<MessageRow>, env: MessageEnv)
    requires ExtractMessages(rows, env).Some?
    ensures var ms := ExtractMessages(rows, env).value;
            var idx := EmittedIndices(rows, Normalizer(env));
            |ms| == |idx| &&
            (forall k, l :: 0 <= k < l < |idx| ==> idx[k] < idx[l]) &&
            (forall k :: 0 <= k < |idx| ==>
               (idx[k] < |rows| && ms[k].rowid == rows[idx[k]].rowid && ms[k].date % 1000 == 0 &&
                Some(ms[k].body) == ResolveBody(rows[idx[k]], env.decode))) &&
            (forall i :: 0 <= i < |rows| ==>
               (i in idx <==> ResolveBody(rows[i], env.decode).Some?))
  {
    var f := Normalizer(env);
    CollectKeepsRowOrder(rows, f);
    CollectAbortsIff(rows, f);
    var ms := ExtractMessages(rows, env).value;
    var idx := EmittedIndices(rows, f);
    forall k | 0 <= k < |idx|
      ensures ms[k].rowid == rows[idx[k]].rowid && ms[k].date % 1000 == 0 &&
              Some(ms[k].body) == ResolveBody(rows[idx[k]], env.decode)
    {
      NormalizeMessageOutcome(rows[idx[k]], env);
    }
    forall i | 0 <= i < |rows| ensures i in idx <==> ResolveBody(rows[i], env.decode).Some? {
      NormalizeMessageOutcome(rows[i], env);
      assert !f(rows[i]).Abort?;
      if i in idx {
        var k :| 0 <= k < |idx| && idx[k] == i;
      }
    }
  }

  /** A batch is lost exactly when some row's counterparty falls back to
      the undefined self-identifier or some kept row's date is NULL or
      fails to convert. */
  lemma ExtractFailsIff(rows: seq<MessageRow>, env: MessageEnv)
    ensures ExtractMessages(rows, env).None? <==>
              exists i :: 0 <= i < |rows| &&
                (Counterparty(rows[i], env).None? ||
                 (ResolveBody(rows[i], env.decode).Some? &&
                  (rows[i].date.None? || env.convertDate(rows[i].date.value).None?)))
  {
    var f := Normalizer(env);
    CollectAbortsIff(rows, f);
    forall i | 0 <= i < |rows|
      ensures f(rows[i]).Abort? <==>
                (Counterparty(rows[i], env).None? ||
                 (ResolveBody(rows[i], env.decode).Some? &&
                  (rows[i].date.None? || env.convertDate(rows[i].date.value).None?)))
    {
      NormalizeMessageOutcome(rows[i], env);
    }
  }

  /** read_messages: the loop over the query rows. A missing database or
      a failed query gives no rows; an abort anywhere gives none either. */
  method ReadMessages(source: Option<seq<MessageRow>>, env: MessageEnv) returns (messages: seq<Message>)
    ensures source.None? ==> messages == []
    ensures source.Some? ==>
              messages == match ExtractMessages(source.value, env)
                          case Some(ms) => ms
                          case None => []
  {
    if source.None? {
      return [];
    }
    var rows := source.value;
    messages := [];
    for i := 0 to |rows|
      invariant ExtractMessages(rows[..i], env) == Some(messages)
    {
      var row := rows[i];
      CollectStep(rows, i, Normalizer(env));
      var phone := Counterparty(row, env);
      if phone.None? {
        AbortIsFinal(rows, i + 1, Normalizer(env));
        return [];
      }
      var phoneNumber := CleanPhone(phone.value);
      var body := ResolveBody(row, env.decode);
      if body.None? {
        continue;
      }
      if row.date.None? {
        AbortIsFinal(rows, i + 1, Normalizer(env));
        return [];
      }
      var converted := env.convertDate(row.date.value);
      if converted.None? {
        AbortIsFinal(rows, i + 1, Normalizer(env));
        return [];
      }
      var dateJava := converted.value.0 * 1000;
      messages := messages + [Message(row.rowid, dateJava, converted.value.1, body.value,
                                      phoneNumber, row.isFromMe, row.cacheRoomname, row.service)];
    }
    assert rows[..|rows|] == rows;
  }
}
