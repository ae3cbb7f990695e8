# SciAstra messaging bot: scheduling core in Dafny

This project models the scheduling core of a Telegram bot. The bot keeps, for each
chat channel, a list of "doubt-solving" timing slots: records with a `time` range such
as `"11 AM - 2 PM"`, a `name` and a `user_id`. It answers three kinds of question:

- Who is on duty now (`get_active_incharges`)?
- Who is on duty next (`get_next_incharges`)?
- What does a `/updateChannels` chat message do to the stored channel list (`handle_commands`,
  `handle_update_channels`)?

It also converts spreadsheet column letters to numbers and back (`col_to_num`, `num_to_col`).

Modules, one per concern:

- `Wrappers` (wrappers.dfy): `Option` and `Result`.
- `Text` (text.dfy): the Python string built-ins the core relies on. These are `str.isspace`,
  `str.strip`, `startswith`, the `in` substring test, `str.split` with an explicit separator,
  and `str(int)`.
- `Updater` (updater.dfy): the column-letter codec of updater.py. Both directions are imperative
  loops, each proved against a specification function (`ColumnValue`, `ColumnLetters`).
- `TimeOfDay` (timeofday.dfy): `parse_time_string`, `parse_time_range` and `is_time_in_interval`.
  - A time of day is a number of minutes since midnight (0..1439).
  - `strptime` with the formats `"%I %p"` and `"%I:%M %p"` is modelled by the regular expression
    Python builds from them:
    - `%I` is `1[0-2]|0[1-9]|[1-9]`.
    - `%M` is `[0-5]\d|\d`, where `\d` is an ASCII digit.
    - The space is `\s+`.
    - `%p` is `am` or `pm` in any letter case.
    - The whole text must match.
- `Sorting` (sorting.dfy): the stable `list.sort(key=...)` used by `get_next_incharges`. It is
  modelled by a stable insertion sort, proved sorted, a permutation, stable, and with the least
  key at its head.
- `Channels` (channels.dfy): the channel records and `get_channel_by_chat_id`.
  - Ids are compared as Python's `str()` renders them.
  - A missing id reads `"None"`.
- `Duty` (duty.dfy): `get_active_incharges` and `get_next_incharges`.
  - Each is a loop, proved against a specification function (`ActiveSlots`, `NextSlots`).
  - The loop takes the range parser as a parameter.
  - The public methods pass `ParseTimeRange`.
- `Commands` (commands.dfy): `handle_commands`, `handle_update_channels` and
  `handle_unknown_command`.
  - `json.loads` is the parameter `decode`.
  - The read of `channels_id_with_slots_info.json` is the parameter `stored`.
  - The list the handler tries to write is the `written` part of the outcome. It is set even when the
    write then fails.
  - The exception the write raises, if any, is the parameter `writeFailure`.

## Model

| member | source | states |
|---|---|---|
| Updater.ColToNum | updater.py:5-33 | Succeeds exactly when the stripped input is non-empty and all ASCII letters. Its value is the base-26 value of the upper-cased letters and is at least 1. Otherwise the error is the invalid-column message. |
| Updater.Accumulate | updater.py:29-33 | The left-to-right loop `num = num * 26 + digit` computes the column value of the letters. That value is at least 1. |
| Updater.NumToCol | updater.py:35-57 | Succeeds exactly when n >= 1, with the column letters of n: non-empty and upper-case only. Otherwise the error is "n must be a positive integer.". |
| Updater.ColumnLetters | updater.py:53-57 | The letters of a number are upper-case only, and empty exactly for 0. |
| Updater.NumberRoundTrip | updater.py:29-33 | Number to letters and back gives the number: `col_to_num(num_to_col(n)) == n`. |
| Updater.LettersRoundTrip | updater.py:53-57 | Upper-case letters to a number and back gives the same letters. |
| Updater.LastLetter | updater.py:54-56 | One `divmod(n - 1, 26)` step peels off exactly the last letter. |
| Updater.PaddingAndCaseIgnored | updater.py:23 | Whitespace around the letters and their letter case do not change what `col_to_num` reads. The round trip returns the upper-cased letters. |
| Updater.UpperKeepsAlpha | updater.py:23-26 | Upper-casing keeps a text alphabetic and leaves a non-alphabetic text non-alphabetic. |
| Updater.UnpaddedLetters | updater.py:23 | A text of letters is its own strip. |
| Updater.ColToNumExampleAAA | updater.py:19 | "AAA" is accepted and reads 703. |
| Updater.ColToNumExampleAcdd | updater.py:20 | "acdd" is accepted, upper-cased to "ACDD", and reads 19712. |
| Updater.NumToColExamples | updater.py:46-48 | 1 is "A", 26 is "Z", 27 is "AA", and 703 is "AAA". |
| Text.Strip | helpers.py:28-29 | `str.strip` leaves no whitespace at either end. The result is empty exactly when the text is all whitespace. |
| Text.StripPadded | commands.py:89 | Stripping whitespace-padded unpadded text gives back exactly that text. |
| Text.StripIdempotent | commands.py:17-19 | Stripping twice is stripping once, so the arguments the handler re-strips are unchanged. |
| Text.StripKeepsAbsence | commands.py:89 | Stripping cannot create an occurrence of a separator. |
| Text.FirstIndex | helpers.py:25 | Reports a position where the separator occurs, and none exactly when it does not occur. |
| Text.SplitJoin | helpers.py:25 | Joining the parts of a split with the separator rebuilds the text. |
| Text.SplitPartsAvoidSeparator | commands.py:88 | No part of a split contains the separator. |
| Text.SplitOfJoin | commands.py:88 | Splitting the join of separator-free parts gives back the parts. |
| Text.SplitCount | helpers.py:25-27 | Splitting on '-' yields one more part than the text has dashes. |
| Text.DecimalRoundTrip | helpers.py:58 | The decimal digits of a number read back as that number. |
| Text.IntToStringInjective | helpers.py:58 | Different integers have different `str()` texts. |
| TimeOfDay.ParseTimeString | helpers.py:5-18 | Normalises glued markers, then returns the first format that parses, or None. `ParsedIsSpelled` and `SpelledIsParsed` say which texts parse, and to what. |
| TimeOfDay.HourFieldDecimal | helpers.py:12-14 | `%I` accepts a text exactly when it is one or two digits whose decimal value is 1..12, and reads that value. |
| TimeOfDay.MinuteFieldDecimal | helpers.py:12-14 | `%M` accepts a text exactly when it is one or two digits whose decimal value is 0..59, and reads that value. |
| TimeOfDay.Hour24 | helpers.py:12-14 | The 24-hour clock hour is the 12-hour clock hour modulo 12, plus 12 for PM. It is below 12 exactly for AM. |
| TimeOfDay.ClockMinutesDecimal | helpers.py:12-14 | The time of a clock text is (hour digits mod 12, plus 12 for PM) × 60 plus the minute digits. |
| TimeOfDay.ClockFields | helpers.py:12-14 | A parsed hour lies in 1..12 and a parsed minute below 60. |
| TimeOfDay.ParseTimeRange | helpers.py:25-27 | Any text without exactly one '-' gives (None, None). |
| TimeOfDay.ShortUnchanged | helpers.py:11 | Texts under three characters are not changed by the marker normalisation. |
| TimeOfDay.GluedMarkerSpaced | helpers.py:10-11 | A clock glued to "AM"/"PM" gets one space inserted before the marker. |
| TimeOfDay.SpacedMarkerKept | helpers.py:11 | A clock already spaced from its marker is left unchanged. |
| TimeOfDay.NoGluedUnchangedPrefix | helpers.py:11 | A text with no digit directly before "AM"/"PM" is left unchanged. |
| TimeOfDay.StrptimeSpaced | helpers.py:14 | A clock, any non-empty whitespace and a marker parse to the clock fields under the marker's half of the day. |
| TimeOfDay.StrptimeParts | helpers.py:12-14 | Every text either format accepts is a clock of valid fields, non-empty whitespace and a marker. Its time is the one those digits denote. |
| TimeOfDay.ClockFieldsParts | helpers.py:12 | The fields a format finds are those of a valid hour, or hour ":" minute, spelling of the clock text. |
| TimeOfDay.ParsedIsSpelled | helpers.py:5-18 | Whenever `parse_time_string` returns a time, the normalised text is a clock of valid fields, whitespace and a marker, and the time is what those digits denote. |
| TimeOfDay.SpelledIsParsed | helpers.py:5-18 | Conversely, every text that normalises to that shape parses to the time its digits denote. With `ParsedIsSpelled` this gives exactly the texts that parse. |
| TimeOfDay.HourOnlyFields | helpers.py:12 | A bare hour matches "%I %p" only. |
| TimeOfDay.HourMinuteFields | helpers.py:12 | "hour:minute" matches "%I:%M %p" only. |
| TimeOfDay.TimeOfSpaced | helpers.py:12-16 | The result is the first format's reading of the clock. |
| TimeOfDay.TimeOfGlued | helpers.py:10-14 | "1:26PM" parses exactly as "1:26 PM" does. |
| TimeOfDay.ClockOfFields | helpers.py:12-16 | A well-formed hour (and minute) reads as its minutes of the day. |
| TimeOfDay.ParseSpelled | helpers.py:5-18 | Any well-formed time, glued or spaced, parses to `ClockMinutes` of its fields, which `ClockMinutesDecimal` gives from its digits. 12 AM is hour 0 and 12 PM is hour 12. |
| TimeOfDay.Midnight | helpers.py:12-14 | "12 AM" is 00:00. |
| TimeOfDay.Noon | helpers.py:12-14 | "12 PM" is 12:00. |
| TimeOfDay.LowerCaseSpacedMarker | helpers.py:12-14 | "07:05 pm" is 19:05: a leading zero and a lower-case spaced marker are accepted. |
| TimeOfDay.GluedHalfPastMidnight | helpers.py:11-14 | "12:30AM" is 00:30. |
| TimeOfDay.RejectNoMarker | helpers.py:12-18 | "09:00" gives None. |
| TimeOfDay.RejectHour13 | helpers.py:12-18 | "13 PM" gives None. |
| TimeOfDay.RejectHour0 | helpers.py:12-18 | "0 AM" gives None. |
| TimeOfDay.RejectMinute60 | helpers.py:12-18 | "9:60 AM" gives None. |
| TimeOfDay.RejectGluedLowerCase | helpers.py:11-18 | "7pm" gives None: only upper-case glued markers are spaced. |
| TimeOfDay.RejectSpaced | helpers.py:12-18 | Every digit string outside 1..12 before a marker gives None. |
| TimeOfDay.RejectSpacedMinute | helpers.py:12-18 | Every digit string outside 0..59 as the minutes gives None. |
| TimeOfDay.RangeOfSides | helpers.py:25-41 | A text with one dash parses each stripped side. The start first inherits the end's marker. |
| TimeOfDay.ClockShape | helpers.py:25-36 | A written clock is non-empty, made of digits and colons only, and starts and ends with a digit. |
| TimeOfDay.MarkedShape | helpers.py:32-36 | A clock with "AM" contains "AM" and not "PM", and the reverse for "PM". |
| TimeOfDay.PaddedSides | helpers.py:25-41 | "s1 - s2" parses s2, and s1 after it inherits s2's marker. |
| TimeOfDay.SidesAroundDash | helpers.py:25-41 | The same, written with the dash and its blanks together. |
| TimeOfDay.MarkedRange | helpers.py:31-41 | A start that has its own marker is parsed as written. |
| TimeOfDay.UnmarkedRange | helpers.py:31-36 | A start without a marker gets the end's " AM" or " PM" appended. |
| TimeOfDay.UnmarkedClock | helpers.py:32 | A bare clock contains neither "AM" nor "PM". |
| TimeOfDay.SpelledRange | helpers.py:20-41 | Any range of two well-formed marked times parses to their minutes. |
| TimeOfDay.InheritedRange | helpers.py:31-41 | "7 - 11 PM"-style ranges take the end's marker for the start. |
| TimeOfDay.GluedRangeExample | helpers.py:105 | "1:26PM - 2:30PM" is 13:26 to 14:30. |
| TimeOfDay.SpacedRangeExample | helpers.py:106 | "1:26 PM - 2:30 PM" is 13:26 to 14:30. |
| TimeOfDay.HoursOnlyRangeExample | helpers.py:107 | "10 AM - 1 PM" is 10:00 to 13:00. |
| TimeOfDay.MinutesRangeExample | helpers.py:108 | "10:15 AM - 1:26 PM" is 10:15 to 13:26. |
| TimeOfDay.InheritedRangeExample | helpers.py:109 | "7 - 11 PM" is 19:00 to 23:00. |
| TimeOfDay.ShiftRanges | helpers.py:20-41 | "9 AM - 12 PM" is 09:00 to 12:00, and "12 PM - 3 PM" is 12:00 to 15:00. |
| TimeOfDay.IntervalIsClockwiseArc | helpers.py:44-48 | Membership is exactly lying on the clockwise arc from start to end, start included and end excluded. |
| TimeOfDay.WrappedIsComplement | helpers.py:47-48 | An interval that wraps midnight holds exactly the times the reversed interval does not. |
| TimeOfDay.EqualEndsEmpty | helpers.py:45-46 | An interval whose start equals its end holds nothing. |
| TimeOfDay.WholeMinutesExact | helpers.py:82-88 | Comparing at a finer tick than minutes gives the same answers as comparing minutes, because the parsed times are whole minutes. |
| TimeOfDay.OvernightRange | helpers.py:44-48 | "10 PM - 2 AM" holds 23:30 and 01:00 but not 10:00. |
| Sorting.Insert | helpers.py:91 | Inserting adds exactly one entry. |
| Sorting.MinKeyIsLeast | helpers.py:92 | The least key is no greater than any key and belongs to some entry. |
| Sorting.InsertSorted | helpers.py:91 | Inserting into a sorted list keeps it sorted. |
| Sorting.InsertMembers | helpers.py:91 | Every entry after insertion is the new entry or an old one. |
| Sorting.SortByKeySorted | helpers.py:91 | The sorted list ascends by key. |
| Sorting.InsertPermutes | helpers.py:91 | Inserting adds the entry to the multiset and nothing else. |
| Sorting.SortByKeyPermutes | helpers.py:91 | Sorting is a permutation. |
| Sorting.InsertWithKey | helpers.py:91 | Insertion keeps the order of the entries with any one key. |
| Sorting.SortByKeyStable | helpers.py:91 | The sort is stable: the entries with any one key keep their order. |
| Sorting.SortByKeyHead | helpers.py:91-92 | The head of the sorted list carries the least key. |
| Channels.FirstMatch | helpers.py:57-59 | Reports the first channel whose id reads as the key, or that none does. |
| Channels.GetChannelByChatId | helpers.py:51-60 | Returns None without data or without "channels". Otherwise returns the first channel whose `str(id)` equals `str(chat_id)`, and None when none does. |
| Channels.MatchAt | helpers.py:57-59 | A match with no match before it is the first match. |
| Channels.NumericIdsMatchIffEqual | helpers.py:58 | Two numeric ids match exactly when they are equal. |
| Channels.NumberMatchesItsText | helpers.py:58 | A number and its decimal text match, and no number matches a missing id. |
| Duty.GetActiveIncharges | helpers.py:62-73 | Returns the slots active now, as `ActiveSlots` defines them. |
| Duty.CollectActive | helpers.py:66-73 | The loop keeps, in order, each slot whose range parses and holds `now`, skipping unparseable ones. |
| Duty.ActiveSlotsMembers | helpers.py:66-73 | A slot is returned exactly when it is one of the timings and is active now. |
| Duty.ActiveSlotsExtremes | helpers.py:66-73 | When every slot is active all come back in order. When none is, none comes back. |
| Duty.Payloads | helpers.py:94 | Drops the start times and keeps the slots in order. |
| Duty.GetNextIncharges | helpers.py:75-99 | Returns the next slots, as `NextSlots` defines them. |
| Duty.CollectNext | helpers.py:80-99 | The loop collects the upcoming slots, then sorts them stably and keeps those at the first start. Otherwise it returns the first slot, or nothing. |
| Duty.UpcomingMembers | helpers.py:83-89 | An entry is upcoming exactly when it pairs a slot with its parsed start, and that start is after now. |
| Duty.UpcomingEmpty | helpers.py:90-99 | Nothing is upcoming exactly when no slot's start parses to a time after now. That is when the fallback applies. |
| Duty.WithKeyMembers | helpers.py:94 | The tie group holds exactly the entries with the earliest start. |
| Duty.EarliestUpcoming | helpers.py:90-92 | The earliest upcoming start is after now, no upcoming start is earlier, and some slot starts at it. |
| Duty.NextSlotsMembers | helpers.py:90-95 | When something is upcoming, a slot is returned exactly when it is one of the timings and starts at the earliest upcoming start. |
| Duty.ShiftReadings | helpers.py:68-71 | For shifts 9-12 and 12-15: only the afternoon shift holds 13:00, neither holds 08:00, and they start at 09:00 and 12:00. |
| Duty.ActiveShifts | helpers.py:62-73 | At 13:00 only the afternoon shift is active, and at 08:00 none is. |
| Duty.NextShifts | helpers.py:75-99 | At 08:00 the morning shift is next. At 13:00 nothing is upcoming, so the first slot is returned. |
| Duty.ShiftExample | helpers.py:62-99 | The same, with the real range parser. |
| Commands.KeptParts | commands.py:89 | Keeps no more parts than it is given. |
| Commands.KeptPartsMembers | commands.py:89 | The kept arguments are exactly the non-empty stripped parts. |
| Commands.KeptPartShape | commands.py:89 | Each kept argument is non-empty and unpadded, and lacks what every part lacks. |
| Commands.ArgsAvoidDelimiter | commands.py:88-92 | Every argument is non-empty, has no surrounding whitespace, and holds no "$$$". |
| Commands.KeptSkip | commands.py:89 | A part that strips to nothing is dropped. |
| Commands.KeptTake | commands.py:89 | A part that strips to something is kept, stripped. |
| Commands.DocumentedPieces | commands.py:88-89 | The pieces of the documented message keep exactly the token and the three arguments. |
| Commands.DocumentedSplit | commands.py:83-88 | The documented message splits into the token piece, the arguments and the blanks between them. |
| Commands.ArgsAfterCommand | commands.py:91-92 | When the kept parts are the token and three more, the token is dropped. |
| Commands.DocumentedMessage | commands.py:83-92 | A message written as the usage text shows, with `$`-free unpadded arguments, splits into exactly those three arguments. |
| Commands.StatusLine | commands.py:61-66 | The reply starts "Channel updated successfully." exactly when a channel was found, and "Channel added successfully." exactly when none was. |
| Commands.Loaded | commands.py:38-44 | An unreadable document, or one without "channels", gives an empty channel list. |
| Commands.Upserted | commands.py:46-55 | The first channel with the chat id is replaced at its index, the length is unchanged and the others are unchanged. Without one, the channel is appended after the unchanged list. |
| Commands.Upsert | commands.py:46-55 | The loop with its `channel_found` flag: the flag is set exactly when a stored id matches, and the list is `Upserted`. |
| Commands.UpsertFinds | commands.py:46-55 | After the upsert, a lookup of the chat id finds the new channel, at the old index or at the end. |
| Commands.UpsertKeepsOthers | commands.py:46-55 | Lookups of every other id find the same channel at the same index as before. |
| Commands.UpsertIdempotent | commands.py:46-55 | Upserting the same channel twice is upserting it once. |
| Commands.UpsertKeepsKeysUnique | commands.py:46-55 | A list without duplicate ids keeps that property. |
| Commands.NewChannel | commands.py:31-36 | The new record carries the chat id, and its timings all have the three keys. |
| Commands.CheckTimings | commands.py:25-27 | The key check passes exactly when every record has "time", "name" and "user_id". |
| Commands.FormatTimings | commands.py:62-64 | The listing is the header followed by one line per record, in order. |
| Commands.Commit | commands.py:46-69 | The upsert, the write and the reply: the list handed to the write is the upserted list. The reply is the write error or the success reply. |
| Commands.CheckArguments | commands.py:13-29 | Returns the rejection reply for the argument count, the payload shape and the keys, or none. |
| Commands.HandleUpdateChannels | commands.py:4-69 | Replies and writes exactly as `UpdateOutcome` says. |
| Commands.RejectionsWriteNothing | commands.py:13-29 | A write is attempted exactly when there are three arguments and the payload is a list of records with all keys. Each rejection has its own reply: usage, parse error, not a list, missing keys. |
| Commands.AcceptedOutcome | commands.py:31-69 | Accepted arguments lead to the upsert of the new channel into the loaded list. |
| Commands.UpdatedIffStored | commands.py:46-61 | After a successful write the reply says "updated" exactly when the chat id was stored, and "added" exactly when it was not. |
| Commands.WrittenChannelFound | commands.py:46-59 | The written list holds the new channel where a lookup by the chat id finds it. |
| Commands.MissingChannelsKey | commands.py:38-44 | A document without "channels", or an unreadable one, acts as an empty list. |
| Commands.RepeatedUpdate | commands.py:46-61 | Repeating an accepted update against what was written writes the same list and reports "updated". |
| Commands.HandleUnknownCommand | commands.py:71-75 | The reply is the fixed unknown-command text, whatever the message. |
| Commands.HandleCommands | commands.py:77-96 | Routes `/updateChannels` messages, split into arguments, to the update handler, and anything else to the unknown-command reply. |
| Commands.OnlyUpdatesWrite | commands.py:87-96 | Only a `/updateChannels` message with three arguments can lead to a write attempt. Any other message gets the unknown-command reply and attempts no write. |
| Commands.DocumentedStartsWith | commands.py:84-87 | The documented message starts with "/updateChannels". |
| Commands.RoutedUpdate | commands.py:87-93 | A message starting with the token is handled as an update with the arguments it splits into. |
| Commands.DocumentedCommand | commands.py:83-93 | A message written as the usage text shows is handled as an update with exactly its three arguments. |

## Left out

- create_table (updater.py:59 onwards), the updater script entry point, main.py and url_checker.py
  are not part of this model. They are calls into the Google Sheets and Telegram clients and a
  regular-expression URL filter.
- Updater.ColToNum: only ASCII letters are modelled; the model rejects every other text with the
  invalid-column error. The source accepts any text whose `upper()` is alphabetic, and then returns a
  number:
  - A letter whose upper case is ASCII reads as that upper case: "ı" is 9, "ſ" is 19, and "ß"
    (upper-cased to "SS") is 513.
  - Any other letter, such as "é", adds `ord(char) - ord('A') + 1`, which is more than 26.
- MinuteField: a digit is an ASCII digit. In Python, the `\d` of `%M` also matches other Unicode
  decimal digits, and `strptime` reads them, so "1:3٣ PM" is 13:33 there; the model returns None.
  The `%I` field is ASCII-only in Python too.
- SpaceBeforeMeridiem: the `\d` of `re.sub(r'(\d)(AM|PM)', ...)` is an ASCII digit here. Python also
  spaces a marker glued to another Unicode decimal digit, so "1:3٣AM" parses there and is None here.
- Text.Strip: whitespace is the `str.isspace` set listed in text.dfy. There is no Unicode
  normalisation.
- TimeOfDay.ParseTimeString: the date and seconds of `datetime.time` are not modelled; times are
  whole minutes of the day. `Strptime` follows the C-locale AM/PM names.
- Logging (helpers.py:17, commands.py:68 and commands.py:97-99) is not modelled.
- `datetime.date.today()` and `datetime.combine` (helpers.py:81-87) are dropped. Every time is
  combined with the same date, so the comparisons are comparisons of minutes.
  `TimeOfDay.WholeMinutesExact` shows that a finer clock gives the same answers.
- Duty.GetActiveIncharges, Duty.GetNextIncharges: a slot without a "time" key makes the source
  raise KeyError. The model requires every slot to have one. A channel without "timings" is given
  as a channel with no timings.
- Duty.CollectNext: the in-place `list.sort` is modelled on values by the stable `Sorting.SortByKey`.
- `json.loads` is the parameter `decode`. JSON values other than strings inside a timing record are
  not modelled. Neither are timing items that are not objects. The source treats them in two ways:
  - Where `key in item` raises, as for a number, the handler replies with the parse error.
  - A string holding the three key names as substrings, as in `["time name user_id"]`, or a list
    holding them as elements, passes the key check (commands.py:25-27). The source then writes the
    document (commands.py:57-59). Then `timing.get` (commands.py:64) raises inside the same `try`,
    so the reply is "Failed to update channels: ..." although the file was already written. Later
    `slot["time"]` reads of such an item (helpers.py:68, helpers.py:84) raise as well.
- Top-level keys of the stored document other than "channels" are not modelled; the model carries
  only the channel list. Channels lacking "name", "subject" or "timings" are not modelled either.
- Commands.HandleUpdateChannels: the file read and write are parameters. The read is `stored`, and
  `writeFailure` is the error the write raises. `written` is the list the handler tries to write,
  set even when `writeFailure` is given. What the file then holds is not modelled: it is unchanged
  when `open(..., "w")` raises, and truncated or partly written when `json.dump` raises.
- Commands.HandleCommands: the catch-all exception reply (commands.py:97-99) is not modelled. No
  modelled step raises.
- Commands.KeptParts takes the strip function as a parameter. `SplitArgs` passes `Text.Strip`.
