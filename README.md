# Instagram data analyzer: a verified model of the analysis core

This project models the core of the analyzer's `analysis.py` in Dafny:

- **Conversation ingestion** (`ConversationAnalyzer.from_json_files`).
  - It repairs the mis-encoded `\u00XX` escape runs in each exported chat file:
    - each maximal run of tokens is turned back into bytes;
    - those bytes are decoded as strict UTF-8;
    - a run whose bytes are not valid UTF-8 becomes the empty string.
  - It then parses the repaired file and walks its `messages` entries:
    - entries without content are skipped;
    - reaction and like notices ("Reacted …", "Liked …") are skipped;
    - every other entry is appended to one shared list as a record of text, local send time and sender.
  - A file that raises anywhere is abandoned where it raised. The records it had already appended stay in the list. Other files are unaffected.
- **The analyzer object.** It keeps the records sorted by timestamp. The sort is stable: records with equal timestamps keep their input order.
- **The three activity views** (`get_activity_metrics`):
  - the summed message length per local date;
  - per hour of day, emitted in ascending hour order;
  - per month key `"<month>-<last two characters of the year>"`.
- **Unfollower reconciliation** (`FollowAnalyzer.identify_unfollowers`):
  - it returns the usernames in the "following" export that are absent from the "followers" export;
  - it returns the empty list when either export does not have the expected shape.

## Modules

- **`Utf8`**: strict UTF-8 as sections 3 and 4 of RFC 3629 define it.
  - The decoder rejects overlong forms, surrogates and values above U+10FFFF.
  - The encoder and decoder are proved inverse in both directions.
- **`Escapes`**: the `re.sub` scanner and its replacement function.
  - The scanner uses the case-insensitive pattern `(?:\\u00[\da-f]{2})+`, taken greedily and left to right.
  - The replacement function (`decode_unicode_escapes`) works in three steps:
    - the `replace` of the lower-case prefix;
    - hex decoding, which raises on an odd length or a non-hex character;
    - the strict UTF-8 decode, which falls back to `''`.
- **`Messages`**:
  - records and parsed entries;
  - the per-entry decision;
  - the per-file loop that stops at the first entry that raises;
  - the fold over all files;
  - the stable insertion sort by timestamp.
- **`Activity`**:
  - the bucket keys;
  - `str(n)` for naturals;
  - the month key;
  - the specification function `Totals` of the three aggregation loops, which models a `defaultdict(int)` accumulated in message order.
- **`Analysis`**: the `ConversationAnalyzer` class.
  - Its imperative methods (`FromJsonFiles`, `ReadEntries`, and the three aggregation loops) are each proved against the specification functions above.
  - `GetActivityMetrics` is also here.
- **`Follow`**: `identify_unfollowers` over the parsed exports.

## Upper-case escape tokens

The scanner and the replacement function disagree about case:

- The pattern carries `(?i)` (analysis.py:38). So a run may contain `\U00XX` tokens, and its hex digits may be upper- or lower-case.
- The `replace(r'\u00', '')` that strips the prefixes (analysis.py:27) is case-sensitive. A token written `\U00` therefore leaves `\U00` in the hex string.
- `codecs.decode(…, "hex")` (analysis.py:28) then raises. That happens outside the replacement function's `try`.
- The exception leaves `re.sub`, and the per-file handler (analysis.py:50-52) discards the whole file.

Upper-case hex digits are harmless: `\u00C3\u00A9` decodes to `é` like `\u00c3\u00a9`. Only the `U` of the prefix matters.

The model follows the code. `Escapes.DecodeEscapeRun` and `Escapes.RepairPieces` state the failure, and `Messages.UpperCaseEscapeDropsFile` states that such a file contributes no record.

## Model

| member | source | states |
|---|---|---|
| Utf8.DecodeInverse | analysis.py:30 | Strict decoding of a byte string succeeds with a text exactly when that text's UTF-8 encoding is the byte string. Every valid byte string has one decoding, and invalid ones have none. |
| Utf8.DecodeEncode | analysis.py:30 | Decoding the UTF-8 encoding of any text gives that text back. |
| Utf8.EncodeDecode | analysis.py:30 | A byte string that decodes re-encodes to itself, byte for byte. |
| Utf8.DecodeLength | analysis.py:30 | A byte string that decodes gives a text of at most one character per byte and at least one character per four bytes. |
| Escapes.StripPrefixes | analysis.py:27 | Removing the `\u00` prefixes never lengthens the string. |
| Escapes.StripPlain | analysis.py:27 | Text holding no backslash passes through the prefix removal unchanged, whatever follows it. |
| Escapes.Unhexlify | analysis.py:28 | The hex conversion succeeds exactly when the string has even length and consists of hex digits of either case. It then gives one byte per two digits, byte i being the value of digits 2i and 2i+1. |
| Escapes.DecodeRun | analysis.py:26-33 | When the replacement for a matched run does not raise, it has at most one character per two characters of the run. |
| Escapes.Repair | analysis.py:38 | When the substitution does not raise, the repaired text is no longer than the raw text. |
| Escapes.RunLengthEscapeRun | analysis.py:38 | The pattern takes a run greedily. A run of n escape tokens, each spelled `\u00` or `\U00` with hex digits of either case, followed by text that does not start with a token is matched as exactly n tokens. |
| Escapes.StripEscapeRun | analysis.py:27 | Stripping the `\u00` prefixes from a run of tokens of any spelling removes exactly the `\u00` prefixes, leaving each of those tokens' two hex digits as written. `\U00` tokens are left whole. |
| Escapes.DecodeEscapeRun | analysis.py:26-33 | The replacement for a run of tokens of any spelling is the UTF-8 decoding of the run's bytes, or `''` when they are not valid UTF-8. It raises exactly when some token is written `\U00`; the case of the hex digits does not matter. |
| Escapes.RepairPlain | analysis.py:38 | Text holding no escape token is left unchanged by the substitution. |
| Escapes.RepairSplice | analysis.py:26-38 | One run between two plain stretches is replaced by the decoding of its bytes (or nothing). The text around it is kept as it is. The whole substitution raises exactly when some token of the run is written `\U00`. Tokens may use hex digits of either case. |
| Escapes.RepairRoundTrip | analysis.py:26-38 | Escaping the UTF-8 bytes of any text as `\u00xx` tokens and running the substitution gives the text back, whatever plain text surrounds it. |
| Escapes.RepairPieces | analysis.py:26-38 | Over a whole text cut into alternating plain stretches and maximal runs: every plain stretch is kept, and every run, whatever the spelling of its tokens, becomes the decoding of its bytes or nothing. The substitution raises exactly when some run holds a `\U00` token. |
| Messages.NotAfterTotalOrder | analysis.py:20 | Timestamps are totally ordered: the order is transitive, total and antisymmetric. |
| Messages.Process | analysis.py:41-49 | An entry is skipped exactly when it has no content or its content starts with "Reacted " or "Liked ". It raises exactly when any of these holds: the content is not text, or the timestamp is missing, not a number or not convertible, or the sender is missing. Otherwise it becomes a record with that content, sender and converted time, whose length is the content's character count. |
| Messages.LengthCountsCharacters | analysis.py:14-16 | A record's length counts the characters of its text, not its UTF-8 bytes. The byte count lies between the length and four times the length. |
| Messages.HarvestEntries | analysis.py:41-52 | The records one file's loop appends are no more than its entries, and none of them is a reaction or like notice. |
| Messages.HarvestCompleted | analysis.py:41-52 | The loop over a file's entries runs to the end exactly when none of the entries raises. |
| Messages.FileMessages | analysis.py:36-52 | A file contributes records only when it can be read, its repair does not raise and its parse succeeds. None of its records is a reaction or like notice. |
| Messages.Ingest | analysis.py:35-52 | No record of the list of files is a reaction or like notice. Files that all fail to be read contribute nothing. |
| Messages.HarvestAfterFailure | analysis.py:41-52 | Once an entry of a file has raised, no later entry of that file changes the records or the outcome. |
| Messages.HarvestStopsAtFailure | analysis.py:41-52 | A file whose entry j raises, after entries that did not, contributes exactly the records of the entries before j. The file is marked as abandoned. |
| Messages.HarvestedFromEntries | analysis.py:41-49 | Every record a file contributes is the record of one of its entries that was kept. |
| Messages.HarvestComplete | analysis.py:41-49 | A file none of whose entries raises contributes the records of all its kept entries, in entry order. |
| Messages.IngestAppend | analysis.py:35-52 | Files are processed independently. The records of two lists of files are the records of the first list followed by those of the second. |
| Messages.FailureIsolated | analysis.py:35-52 | A file that raises on entry j keeps the records appended before j. The files before and after it contribute exactly what they would on their own. |
| Messages.UpperCaseEscapeDropsFile | analysis.py:26-52 | A file whose text, cut into plain stretches and maximal runs, holds a run with a `\U00` token contributes no record, however many other runs it holds. |
| Messages.SortByTimestamp | analysis.py:20 | The sorted records are in non-decreasing timestamp order and are a permutation of the input. |
| Messages.SortStable | analysis.py:20 | The sort is stable: for every timestamp, the records carrying it appear in the same relative order as in the input. |
| Analysis.ConversationAnalyzer.constructor | analysis.py:19-20 | The analyzer holds the given records sorted by timestamp, stably. |
| Analysis.ConversationAnalyzer.ReadEntries | analysis.py:41-52 | The loop over one file's entries appends to the shared list exactly the file's harvest. That harvest is the kept entries' records up to the first entry that raises. |
| Analysis.ConversationAnalyzer.FromJsonFiles | analysis.py:23-54 | The analyzer built from a list of files holds the stable timestamp sort of all records the files contribute, in file order. A file contributes nothing when it is unreadable or its repair or parse raises. |
| Analysis.ConversationAnalyzer.AggregateByDate | analysis.py:64-68 | The daily view is the per-date sum of message lengths (`Totals` with the date key). |
| Analysis.ConversationAnalyzer.AggregateByHour | analysis.py:70-74 | The hourly view holds exactly one (hour, total) pair per entry of the per-hour sums. The pairs are in strictly ascending hour order, and every hour lies in 0..23. |
| Analysis.ConversationAnalyzer.AggregateByMonth | analysis.py:76-81 | The monthly view is the per-month-key sum of message lengths. |
| Analysis.ConversationAnalyzer.GetActivityMetrics | analysis.py:56-62 | The metrics hold the daily, hourly and monthly views, each as its own aggregation states it. |
| Activity.DateKeyShared | analysis.py:67 | Two records fall in the same daily bucket exactly when they were sent on the same calendar day, at whatever time of day. |
| Activity.HourKey | analysis.py:73 | The hourly bucket of a record is an hour in 0..23. |
| Activity.Decimal | analysis.py:79 | `str(n)` of a natural is a non-empty string of decimal digits. |
| Activity.DecimalNoLeadingZero | analysis.py:79 | `str(n)` has no zero-padding: it is one digit exactly when n is below 10, and a positive number's first digit is not `0`. |
| Activity.MonthKeyShape | analysis.py:79 | A month key is three to five characters: it starts and ends with a digit, with a dash in second or third place. The month is not zero-padded: the key never starts with `0`, and the dash is second exactly for January to September. |
| Activity.TotalsBounded | analysis.py:64-81 | Every value of an aggregation lies between zero and the summed length of all messages. |
| Activity.TotalsNext | analysis.py:65-67 | One step of an aggregation loop, `activity[key] += msg.length` on a default-zero dict, extends the sums over a prefix to the sums over the next prefix. |
| Activity.TotalsKeys | analysis.py:64-81 | The keys of an aggregation are exactly the buckets of the messages, including buckets whose messages are all empty. |
| Activity.TotalsValue | analysis.py:64-81 | The value of each key is the summed length of the messages in that bucket. A key that is absent stands for zero. |
| Activity.TotalsConservation | analysis.py:64-81 | The values of an aggregation add up to the summed length of all messages. |
| Activity.HourKeysInRange | analysis.py:73 | Every key of the hourly sums is an hour in 0..23. |
| Activity.DecimalRoundTrip | analysis.py:79 | `str(n)` of a natural reads back as n, so distinct months give distinct month strings. |
| Activity.LastTwoDigits | analysis.py:79 | `str(year)[-2:]` of a year of two or more digits is its tens digit followed by its units digit. |
| Activity.YearSuffixCollision | analysis.py:79 | Two years share the `[-2:]` suffix exactly when they agree modulo 100 and are both below 10 or both at least 10. |
| Activity.MonthKeyShared | analysis.py:79 | Two records fall in the same monthly bucket exactly when they have the same month, years equal modulo 100, and years both below 10 or both at least 10. So the key merges the same month of different centuries. |
| Follow.Username | analysis.py:89-95 | `user['string_list_data'][0]['value']` succeeds exactly when the list is present, non-empty and its first item has a value. |
| Follow.Usernames | analysis.py:88-97 | The usernames of a list succeed exactly when every entry has the expected shape. They are then the entries' usernames, position by position. |
| Follow.Difference | analysis.py:99 | The set difference contains a name exactly when the name is in the first collection and not in the excluded set. No name appears twice. |
| Follow.IdentifyUnfollowers | analysis.py:85-102 | The result never repeats a name. When either export cannot be read or parsed, the result is empty. |
| Follow.UnfollowersSpec | analysis.py:85-102 | When both exports have the expected shape, a name is listed exactly when some following entry carries it and no follower entry does. When an entry of either export lacks that shape, the result is empty. |
| Follow.UnfollowersExample | analysis.py:85-102 | Following alice, bob and carol, and followed by alice and dave, the unfollowers are exactly bob and carol. |

## Left out

- Reading files and JSON parsing are not modelled.
  - A chat file's text arrives as an `Option<string>` value: `None` stands for a `read_text` that raises.
  - `json.loads` followed by `data['messages']` is the function parameter `Parser`, which returns `None` where either raises.
  - The follow exports arrive already parsed, as `Option<seq<UserEntry>>` values: `None` stands for a file that cannot be opened or parsed, or lacks the expected top-level shape.
- `datetime.fromtimestamp(timestamp_ms / 1000)` is the parameter `Clock`, a map from epoch milliseconds to a local date-time, or `None` where it raises. The host time zone, the float division and sub-millisecond rounding are inside it.
- The `print` calls are not modelled. They produce output only.
- The module `interface.py` (the Tkinter and matplotlib graphical front end) is not part of this model.
- A parsed entry's content and timestamp are modelled as absent, of the expected type, or of another type. An integer timestamp is the expected type. A float timestamp is treated as another type, although Python would convert it.
- A sender that is present but not a string is not modelled. Python stores any JSON value there.
- A `value` in a `string_list_data` item of the follow exports is modelled as a string or absent. A `value` that is JSON null, a number or a boolean is not modelled. Python would put it in the set and could return it: following `[{"string_list_data":[{"value":null}]}]` with no followers gives `[None]` there, and the empty list here.
- An element of `messages` that is not an object is not modelled. Nor is `data` being a list, beyond the parse failing as a whole.
- Follow.IdentifyUnfollowers: returns the unfollowers in order of first occurrence in the following export. Python's `list(set)` order is unspecified. The contract states only membership and the absence of duplicates.
- Analysis.ConversationAnalyzer.AggregateByHour: builds the sorted items by scanning the hours 0..23 instead of calling a general sort. This is equivalent because every key is an hour (`Activity.HourKeysInRange`). The result is a list of pairs: a dict's insertion order is not modelled.
- Analysis.ConversationAnalyzer.AggregateByDate and Analysis.ConversationAnalyzer.AggregateByMonth: the result is a map, so the insertion order of the Python dict is not modelled.
- Escapes.RepairRoundTrip: the escaped text is written in the all-lower-case spelling, as the export writes it. The run lemmas (`Escapes.RunLengthEscapeRun` to `Escapes.RepairPieces`) take any spelling of each token.
- Escapes.StartsWithToken: the token's digits are ASCII hex digits only. Python's `\d` also matches other Unicode decimal digits, and the hex step would then raise and drop the file.
- Messages.SortByTimestamp: an insertion sort, specified by its result. It is not Python's Timsort. Both are stable sorts, so the results are equal.
