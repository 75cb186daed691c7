# iOS call and message backup to Android XML — a Dafny model

The repository moves an iPhone's messages and call history onto an Android
phone in two stages per kind of record:

- `sms_convert_to_csv.py` reads the iOS message database, normalises each
  message (counterparty, phone cleanup, body, date), deduplicates the
  records, orders them by date, drops those not later than a cutoff and
  writes a staging CSV. The cutoff comes from a previously produced backup
  XML file (`get_cutoff_from_xml`) or from a number typed at a prompt.
- `call_convert_to_csv.py` reads the iOS call history, maps each call record
  to Android's call type, label and subscription, and writes a staging CSV
  sorted by date.
- `sms_csv_to_xml.py` and `calls_csv_to_xml.py` turn a staging CSV into the
  XML backup format of Android's "SMS Backup & Restore": a `smses` (or
  `calls`) root whose `count` is the number of rows and one `sms` (or
  `call`) element per row with a fixed attribute list.

The model keeps each stage's shape. The two row loops (`read_messages`,
`read_call_logs`), the XML max-scan (`get_cutoff_from_xml`) and the two XML
builders are methods with loops, each proved against a specification
function; the ElementTree element is a class whose `set` and `SubElement`
change it in place; deduplication, sorting, the cutoff and the CSV rows are
functions with lemmas. The database, the archive decoder and the date
converter are injected as functions returning `Option`.

Two error paths are modelled as the code behaves, not as its comments
describe it. The sent-message fallback refers to `self_number`, but the
function only defines `elf_number`. The date converters' exception handlers
log through `rowid`, which is not defined inside the converter. Either way a
`NameError` reaches the outer `except Exception` of the reading function,
which then returns an empty list for the whole batch. So the model's
"lookup found nothing" and "date conversion raised" outcomes abort the
batch; they do not fall back to `"Me"` or to `(0, "Invalid Date")`.

Modules: `Text` (strip, lower, string order), `Decimal` (`str` and `int` on
integers), `Sorting`, `Batch` (the row loop with skip and abort), `Xml`,
`Csv`, `SmsExtract`, `SmsReconcile`, `CallExtract`, `SmsToXml`,
`CallsToXml`.

## Model

| member | source | states |
|---|---|---|
| Text.StripLeft | sms_convert_to_csv.py:100 | lstrip keeps a suffix; every dropped character is whitespace and the result does not start with whitespace |
| Text.StripRight | sms_convert_to_csv.py:100 | rstrip keeps a prefix; every dropped character is whitespace and the result does not end with whitespace |
| Text.Strip | sms_convert_to_csv.py:100 | strip returns the slice of the string that has only whitespace before and after it and no whitespace at either of its own ends, and leaves an already trimmed string unchanged |
| Text.AsciiLower | call_convert_to_csv.py:90 | lower() keeps the length and lowers each character on its own |
| Decimal.NatToString | sms_csv_to_xml.py:56 | str(len(...)) is a non-empty digit string with no leading zero |
| Decimal.IntToString | sms_convert_to_csv.py:251 | str() of an int starts with '-' exactly for negatives and is all digits otherwise |
| Decimal.ParseInt | sms_convert_to_csv.py:173 | int() accepts only text that is non-empty after strip, and a negative value only after '-' |
| Decimal.ParseIntRoundTrip | sms_convert_to_csv.py:173 | int(str(i)) == i for every integer: a date written to the staging CSV reads back as itself |
| Sorting.SortBy | sms_convert_to_csv.py:212-218 | sort_values(by='date') returns a permutation of its input, ordered by the key |
| Batch.Collect | sms_convert_to_csv.py:68-154 | the row loop with skip and abort; stated by AbortIsFinal, CollectAbortsIff, CollectKeepsRowOrder and CollectOnePerRow |
| Batch.AbortIsFinal | sms_convert_to_csv.py:149-154 | once a row raises, the batch's result is the empty list, whatever the later rows hold |
| Batch.CollectAbortsIff | sms_convert_to_csv.py:68-154 | the batch is lost exactly when some row raises |
| Batch.CollectKeepsRowOrder | sms_convert_to_csv.py:68-144 | the records are those of the rows that were not skipped, in row order, one each |
| Batch.CollectOnePerRow | call_convert_to_csv.py:55-111 | with no skipped row, record i comes from row i |
| SmsExtract.ChatIdentifier | sms_convert_to_csv.py:73-92 | the chat identifier exists exactly when both the chat_message_join row and the chat row exist, and it is the chat row's identifier for the message's chat |
| SmsExtract.Counterparty | sms_convert_to_csv.py:72-97 | handle.id when present; "Not found" for a received message without a handle; the chat identifier for a sent one; nothing (the undefined fallback) otherwise |
| SmsExtract.StripParens | sms_convert_to_csv.py:100 | removing `(...)` groups never lengthens the string; what it keeps is pinned down by StripParensLeftmost and NoGroupUnchanged |
| SmsExtract.NoGroupUnchanged | sms_convert_to_csv.py:100 | a string with no `(...)` group on one line is kept as it is |
| SmsExtract.StripParensLeftmost | sms_convert_to_csv.py:100 | re.sub keeps everything before the leftmost group, drops the group up to and including its first `)`, and carries on after it |
| SmsExtract.StripParensFixedIff | sms_convert_to_csv.py:100 | removing `(...)` groups changes a string exactly when it holds a group |
| SmsExtract.CleanPhone | sms_convert_to_csv.py:100-102 | the cleaned phone is the stripped, group-free text with "+91" dropped exactly when it starts with "+91" and is shorter than 13 characters; it is no longer than the raw one, holds no `(...)` group and has no trailing whitespace |
| SmsExtract.ResolveBody | sms_convert_to_csv.py:109-130 | the body is the text column when present, else the decoded archive; it is missing exactly when neither yields text |
| SmsExtract.NormalizeMessage | sms_convert_to_csv.py:68-144 | one iteration of the row loop, in its order: counterparty, body, date, with a NULL date raising; its outcomes are stated by NormalizeMessageOutcome |
| SmsExtract.NormalizeMessageOutcome | sms_convert_to_csv.py:68-144 | a row is skipped exactly when it has no body; it raises exactly when its counterparty is missing or, having a body, its date is NULL or fails to convert; an emitted record carries the row's fields, its body, its cleaned phone and a whole-second Java date |
| SmsExtract.ExtractedMessages | sms_convert_to_csv.py:68-144 | the extracted records are, in row order, exactly those of the rows with a body, each with its row's id, body and whole-second date |
| SmsExtract.ExtractFailsIff | sms_convert_to_csv.py:68-154 | the batch is lost exactly when some row lacks a counterparty or, having a body, has a NULL date or fails date conversion |
| SmsExtract.ReadMessages | sms_convert_to_csv.py:34-154 | read_messages returns [] for a missing database and otherwise the extracted batch, or [] when it was lost |
| SmsReconcile.Dedup | sms_convert_to_csv.py:205-210 | the sort by key with service descending, then drop_duplicates(keep='last'); its result is stated by DedupProperties |
| SmsReconcile.DedupProperties | sms_convert_to_csv.py:205-210 | after deduplication no two records share (date, body, phone_number, is_from_me), every key of the input survives, each survivor is an input record and has the smallest service of its key |
| SmsReconcile.DedupSurvivorsAreInput | sms_convert_to_csv.py:210 | drop_duplicates only removes records |
| SmsReconcile.ReconciledIsSortedDedup | sms_convert_to_csv.py:205-218 | the frame to write is the deduplicated records ordered by date |
| SmsReconcile.KeepAfter | sms_convert_to_csv.py:239 | the filter keeps exactly the records dated after the cutoff, each as many times as it occurs in the frame |
| SmsReconcile.KeepAfterSorted | sms_convert_to_csv.py:239 | filtering keeps the date order |
| SmsReconcile.RoundToThousand | sms_convert_to_csv.py:220 | round(x/1000)*1000 is a multiple of 1000 within 500 of x, with ties going to the even multiple |
| SmsReconcile.RoundToThousandFixed | sms_convert_to_csv.py:220 | a multiple of 1000 rounds to itself |
| SmsReconcile.DateValue | sms_convert_to_csv.py:170-173 | a date attribute counts only when it is present, non-empty and int() accepts it; the scan's use of it is stated by Latest and CutoffFromXmlProperties |
| SmsReconcile.Latest | sms_convert_to_csv.py:166-177 | the max-scan result is -1 or one of the readable dates, and no readable date is later |
| SmsReconcile.CutoffFromXml | sms_convert_to_csv.py:157-189 | the value get_cutoff_from_xml returns; stated by CutoffFromXmlProperties |
| SmsReconcile.CutoffFromXmlProperties | sms_convert_to_csv.py:157-189 | -1 for a missing or unparsable file; otherwise -1 or one of the file's dates, and no date is later when the latest is in datetime's range |
| SmsReconcile.GetCutoffFromXml | sms_convert_to_csv.py:157-189 | the loop computes the cutoff function |
| SmsReconcile.CutoffOf | sms_convert_to_csv.py:219-232 | an empty answer gives -1; a typed number or the file's cutoff goes through RoundToThousand, so it becomes a multiple of 1000 within 500 of it, ties going to the even multiple |
| SmsReconcile.CutoffSentinelIff | sms_convert_to_csv.py:219-236 | the "write all rows" cutoff -1 arises only from an empty answer at the prompt; a missing or unparsable file gives cutoff 0 |
| SmsReconcile.WriteToCsv | sms_convert_to_csv.py:199-243 | write_to_csv's rows and counts; stated by WriteToCsvProperties |
| SmsReconcile.WriteToCsvProperties | sms_convert_to_csv.py:199-243 | nothing is written for no messages; otherwise the rows are date-ordered, are exactly the deduplicated records after the cutoff, each as often as in the deduplicated frame (all of them for -1), and the three counts add up |
| SmsReconcile.MessageCsvRow | sms_convert_to_csv.py:247-251 | a written row has exactly the eight staging columns |
| CallExtract.TypeOfCall | call_convert_to_csv.py:72-83 | the label is Incoming, Outgoing or Unknown exactly by `originated` |
| CallExtract.BaseCallType | call_convert_to_csv.py:72-83 | Missed exactly for an unanswered incoming call, Incoming for an answered one, Outgoing for an originated one, Unknown otherwise |
| CallExtract.CallType | call_convert_to_csv.py:72-86 | the type is one of 0, 1, 2, 3, 5; it is Rejected exactly when disconnected_cause is 6, and otherwise the table's value |
| CallExtract.IsWhatsApp | call_convert_to_csv.py:90 | a non-empty provider whose lower-cased text contains "whatsapp"; stated by IsWhatsAppIgnoresCase and SubscriptionKinds |
| CallExtract.IsWhatsAppIgnoresCase | call_convert_to_csv.py:90 | the WhatsApp test does not depend on letter case |
| CallExtract.Subscription | call_convert_to_csv.py:90-95 | a WhatsApp provider gets the self number with the WhatsApp suffix and component; every other provider gets "1" and the telephony component |
| CallExtract.SubscriptionKinds | call_convert_to_csv.py:90-95 | the WhatsApp subscription is exactly the one whose id ends with the WhatsApp suffix, or whose component is WhatsApp's; the telephony one is exactly the one with id "1" |
| CallExtract.NormalizeCall | call_convert_to_csv.py:55-111 | one iteration of the call loop, with a NULL date raising; stated by NormalizeCallFields |
| CallExtract.NormalizeCallFields | call_convert_to_csv.py:55-111 | a call row is never skipped; it raises exactly when its date is NULL or its conversion fails; an emitted log holds the row's id and provider, the phone and duration defaults, the converter's seconds times 1000 as its date and its readable text, the type table, the subscription and the constant fields |
| CallExtract.ExtractCallLogsOnePerRow | call_convert_to_csv.py:55-121 | the batch is lost exactly when some date is NULL or its conversion fails; otherwise there is one log per row, in row order |
| CallExtract.ReadCallLogs | call_convert_to_csv.py:32-121 | read_call_logs returns [] for a missing database and otherwise the normalised batch, or [] when it was lost |
| CallExtract.WriteCallLogs | call_convert_to_csv.py:123-132 | nothing is written for no logs; otherwise the logs are written as a date-ordered permutation |
| CallExtract.CallCsvRow | call_convert_to_csv.py:136-141 | a written row has exactly the thirteen staging columns |
| Csv.Get | sms_csv_to_xml.py:62 | dict.get returns the cell when the column exists and the fallback otherwise |
| Xml.Lookup | sms_convert_to_csv.py:170 | element.get finds a value exactly when the attribute exists |
| Xml.SetAttr | sms_csv_to_xml.py:62-91 | element.set on the attribute dictionary in insertion order; stated by SetAttrLookup, SetAttrPlace and SetAttrUnique |
| Xml.SetAttrLookup | sms_csv_to_xml.py:62-91 | after set, the attribute holds the new value and every other attribute is unchanged |
| Xml.SetAttrPlace | sms_csv_to_xml.py:62-91 | set keeps an existing attribute in its place and appends a new one |
| Xml.SetAttrUnique | sms_csv_to_xml.py:62-91 | set never creates a duplicate attribute name |
| Xml.Element.constructor | sms_csv_to_xml.py:55 | a new element has its tag, no attributes and no children |
| Xml.Element.Set | sms_csv_to_xml.py:56 | set changes only the attribute dictionary |
| Xml.Element.SubElement | sms_csv_to_xml.py:59 | SubElement appends a fresh empty element as the last child and changes nothing else |
| SmsToXml.SmsAttributes | sms_csv_to_xml.py:62-91 | an sms element gets sixteen attributes in setting order |
| SmsToXml.SmsIsFromMeEncoding | sms_csv_to_xml.py:76-77 | type is "1" and read is "1" exactly when is_from_me is the string "0"; otherwise "2" and "0" |
| SmsToXml.SmsCopiedColumns | sms_csv_to_xml.py:62-88 | address, date and body copy their columns ("" when absent); readable_date copies its column ("null" when absent) |
| SmsToXml.SmsPlaceholders | sms_csv_to_xml.py:78-91 | the ten placeholder attributes take their fixed values whatever the row holds |
| SmsToXml.SmsFromMessage | sms_csv_to_xml.py:62-77 | a staged message becomes an sms element with its own phone, body and readable date, a date that int() reads back as its own, and type "1" exactly for a received message |
| SmsToXml.ExportedDatesAreRead | sms_convert_to_csv.py:169-174 | a later cutoff scan of the exported file reads every exported date back, so its latest is at least each of them |
| SmsToXml.WholeSecondCutoff | sms_convert_to_csv.py:220 | when a file holds only whole-second dates, its rounded cutoff is not the sentinel and no date in it is later |
| SmsToXml.ExportedCutoff | sms_convert_to_csv.py:219-220 | the cutoff taken from an exported file is at least every exported date |
| SmsToXml.ReexportSkipsExported | sms_convert_to_csv.py:219-243 | a later run with the exported file as its cutoff writes only records later than every exported one |
| SmsToXml.CsvToXml | sms_csv_to_xml.py:35-91 | no XML for a missing, unreadable or empty CSV; otherwise a fresh `smses` root with the row count and one fresh, distinct `sms` child per row, in row order, with that row's attributes |
| SmsToXml.AppendSms | sms_csv_to_xml.py:59-91 | one row of the loop appends a fresh `sms` child as the last child, carrying that row's sixteen attributes, and leaves the root's tag and attributes alone |
| SmsToXml.SetCopiedAttributes | sms_csv_to_xml.py:62-75 | the first three set calls give the first three attributes |
| SmsToXml.SetDirectionAttributes | sms_csv_to_xml.py:76-78 | the next three set calls extend the list by type, read and status |
| SmsToXml.SetOptionalAttributes | sms_csv_to_xml.py:81-86 | the next six set calls extend it by the fixed placeholders |
| SmsToXml.SetRemainingAttributes | sms_csv_to_xml.py:88-91 | the last four set calls complete the attribute list |
| CallsToXml.CallAttributes | calls_csv_to_xml.py:52-61 | a call element gets ten attributes in setting order |
| CallsToXml.CallAttributeSources | calls_csv_to_xml.py:52-61 | each attribute copies its column, with its own default when the column is absent |
| CallsToXml.CallColumnsNotCarried | calls_csv_to_xml.py:52-61 | no attribute appears twice, and rowid, type_of_call and service_provider are not carried over |
| CallsToXml.CallFromLog | calls_csv_to_xml.py:52-61 | a staged call log reaches its element with no default used: every attribute is that log's own field |
| CallsToXml.CallRowToElement | call_convert_to_csv.py:85-111 | from a call record to its element: the date is whole seconds, type is "5" exactly for disconnected_cause 6, presentation is "1", post_dial_digits is empty and contact_name is "(Unknown)" |
| CallsToXml.TypeNumeral | call_convert_to_csv.py:85-86 | the written type is "5" exactly for a rejected call |
| CallsToXml.CsvToXmlCalls | calls_csv_to_xml.py:26-61 | no XML for a missing, unreadable or empty CSV; otherwise a fresh `calls` root with the row count and one fresh, distinct `call` child per row, in row order, with that row's attributes |
| CallsToXml.SetCallSummary | calls_csv_to_xml.py:52-56 | the first five set calls give the first five attributes |
| CallsToXml.SetCallDetails | calls_csv_to_xml.py:57-61 | the last five set calls complete the attribute list |

## Left out

- SQLite access: the query results are a parameter (`None` for a missing database or a failed query), and the chat lookups are injected functions.
- The typedstream decoder: an injected function that returns `None` when it raises.
- `convert_datetime`: an injected function from the raw date to whole seconds and readable text, `None` when it raises; the epoch offset, the float arithmetic, the local time zone and `strftime` are not modelled.
- `get_cutoff_from_xml`: whether `datetime.fromtimestamp` accepts the latest date is an injected predicate, and `ET.parse` is replaced by the list of the sms elements' date attributes.
- SmsReconcile.RoundToThousand: computed on integers, so float rounding of `int/1000` for values beyond 2^53 is not modelled.
- CallExtract.NormalizeCall: the duration is taken as an integer, so `round()` of a fractional duration is not modelled.
- Decimal.ParseInt: accepts ASCII digits only; `int()` also accepts other Unicode decimal digits.
- Text.AsciiLower: lowers ASCII letters only, not the rest of Unicode.
- Sorting.SortBy: pandas' sort is not required to be stable, so the model states order and permutation only, not the placement of equal dates.
- Writing CSV and XML text (quoting, encoding, the `indent` pretty-printer) and reading CSV: a CSV row is a map from column to text, and an absent cell is an absent key; `DictReader`'s `None` for short rows and its extra columns are not modelled.
- SQL NULL in `message.service` and `message.is_from_me`: these columns are modelled as always present. A NULL date is modelled (`None`): `convert_datetime`'s arithmetic raises on it and its handler raises again on an undefined name, so the batch is lost whatever the injected converter does.
- pandas' handling of missing values in the frame (`None` and `NaN` in `cache_roomname` and `service_provider`): they are written as empty text.
- The prompt loops (re-asking after a non-numeric cutoff, the self phone number), argument parsing, `main` and the printed progress lines: the cutoff choice and the self number are parameters.
