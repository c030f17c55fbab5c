# CasesNotifier, modelled in Dafny

CasesNotifier is a small desktop tool. It tracks accounts whose weekly case
drop becomes available again at 00:00:00 UTC on the first Wednesday after
the account's last drop. For every account it shows a countdown
(`days:hh:mm:ss`) or "Ready!", and the menu bar shows how many accounts are
ready. Accounts are stored in `accounts.dat`. Each record there is the name's
UTF-8 bytes, a zero byte, and the date of the last drop as a little-endian
`u64`. The file is rewritten after each add, delete and timer reset, and when the edit dialog closes; what is typed into the dialog is not written until it closes. An "Edit account" dialog
edits one account at a time; while it is open, the other actions do nothing.

The model follows the one source file, `src/main.rs`, in these modules:

- `Base` (base.dfy): byte and 64-bit integer types, `as i64` / `as u64` casts written as two's-complement reinterpretation, and `Option` and `Result`.
- `Utf8` (utf8.dfy): `String::as_bytes` as UTF-8 encoding and `String::from_utf8` as validating decoding. Well-formed sequences follow table 3-7 of the Unicode Standard, section 3.9.
- `Schedule` (schedule.dfy): `next_wednesday`, as a specification function and as the stepping loop of the source. It also holds the saturating countdown that `get_remaining_time` uses.
- `Accounts` (accounts.dfy): the `Account` record, its next date and remaining time, and the "Accounts ready" count.
- `Codec` (codec.dfy): `to_binary`, `save_accounts` and `load_accounts`, working on the bytes of the file.
- `TimeFormat` (time_format.dfy): `format_time` and the proof that its text can be read back.
- `Notifier` (notifier.dfy): the `CasesNotifier` state as a class. It holds the account list, the dialog state and the file contents. Each button or dialog event is a method.

Some parts are parameters of the model:

- The clock. Each method takes the `i64` reading that `Utc::now().timestamp()` or `Local::now().timestamp()` would give. The ready count takes one reading per account, because `get_remaining_time` reads the clock each time it is called.
- The text `format_date` shows for a date.
- The result of parsing the dialog's date field.
- The file's contents. `disk` is the bytes of `accounts.dat`, or None while no file exists.

Where `unwrap` panics, the model returns None or `Err`.

Behaviour of the program worth knowing, which the model keeps as it is:

- `next_wednesday` works on the UTC calendar through chrono's `NaiveDateTime`, not local time. The result is UTC midnight of the Wednesday.
- A timestamp is first reinterpreted `as i64`. So `u64::MAX` means 1969-12-31 23:59:59 and maps to 1970-01-07 00:00:00.
- Inputs outside chrono's date range panic. In the model they give None.
- A corrupt `accounts.dat` (a name that is not UTF-8, or fewer than eight bytes after a terminator) makes `load_accounts` panic. The records read before the corruption are not kept. The model returns `Err` for the whole load.
- Trailing name bytes with no terminator after them are silently dropped.
- `get_remaining_time` returns 0 when `now > next` and also when `now == next`, where `next - now` is 0.
- Saving and reloading gives back the same accounts only when no name holds U+0000. A zero byte inside a name is read as the record terminator.

## Model

| member | source | states |
|---|---|---|
| Base.U64AsI64 | src/main.rs:146 | `timestamp as i64` is the same value below 2^63 and that value minus 2^64 from there on; the result is non-negative exactly for inputs below 2^63 |
| Base.I64AsU64 | src/main.rs:154 | `timestamp() as u64` is congruent to its input modulo 2^64 and keeps non-negative values unchanged |
| Utf8.EncodeChar | src/main.rs:88 | one character takes one to four bytes; the first byte is zero only for U+0000; the bytes after the first are continuation bytes |
| Utf8.Encode | src/main.rs:88 | `as_bytes` has between one and four bytes per character |
| Utf8.DecodeChar | src/main.rs:131 | a well-formed sequence read at the front of the bytes takes one to four bytes and never runs past their end |
| Utf8.Decode | src/main.rs:131 | `String::from_utf8`: the string the bytes encode, read one well-formed sequence at a time; None as soon as one is not well-formed |
| Utf8.DecodeEncodeChar | src/main.rs:131 | a character's encoding is read back as that character and its length, whatever bytes follow it |
| Utf8.EncodeDecodeChar | src/main.rs:131 | every sequence that is read as one character is exactly that character's encoding |
| Utf8.DecodeEncode | src/main.rs:131 | `from_utf8` accepts the bytes of every `String` and gives the same string back |
| Utf8.EncodeDecode | src/main.rs:131 | any bytes `from_utf8` accepts re-encode to the same bytes, so distinct accepted byte strings give distinct names |
| Utf8.EncodeHasZero | src/main.rs:88-89 | a name's bytes contain the zero terminator exactly when the name contains U+0000 |
| Schedule.Weekday | src/main.rs:149 | the weekday of a day number is one of seven values |
| Schedule.FirstWednesdayAfter | src/main.rs:148-151 | the first Wednesday strictly after a day is one to seven days later, and no day in between is a Wednesday |
| Schedule.NextWednesdayOf | src/main.rs:145-155 | `next_wednesday`: the input read `as i64`, its UTC day, the first Wednesday after it, and that day's midnight cast `as u64`; None where an `unwrap` panics at the ends of chrono's date range |
| Schedule.NextWednesday | src/main.rs:145-155 | the stepping loop returns what `NextWednesdayOf` specifies, including None wherever a `from_timestamp_opt` or `succ_opt` unwrap would panic |
| Schedule.NextWednesdayIsNextWednesdayMidnight | src/main.rs:145-155 | the result is midnight of a Wednesday, one to seven days after the input's day, and strictly after the input |
| Schedule.NextWednesdayOfNonNegative | src/main.rs:145-155 | for inputs below 2^63 the result is a multiple of 86400 seconds, more than the input and at most seven days after it |
| Schedule.NextWednesdayFromWednesday | src/main.rs:148-151 | from a time on a Wednesday the result is the following Wednesday, never the same day |
| Schedule.NextWednesdayIdempotent | src/main.rs:145-155 | the result is positive, and one second before it maps to the same Wednesday |
| Schedule.NextWednesdayDefinedRange | src/main.rs:146-150 | the function returns exactly for inputs (read as `i64`) from -262144-01-01 up to, but not including, 262143-12-25 |
| Schedule.ExampleWednesdayMorning | src/main.rs:145-155 | Wednesday 2024-01-03 10:00 UTC gives Wednesday 2024-01-10 00:00 UTC |
| Schedule.ExampleLargestInput | src/main.rs:146 | `u64::MAX`, read as -1, gives 1970-01-07 00:00 UTC |
| Schedule.RemainingTime | src/main.rs:80-83 | the countdown is zero exactly when `next <= now`, and otherwise adds to `now` to give exactly `next` |
| Accounts.Account.RemainingTime | src/main.rs:77-84 | an account's remaining time exists exactly when its next date does; it is zero exactly when that date has been reached, and otherwise it is the distance to it |
| Accounts.Account.NextDate | src/main.rs:73-75 | `get_next_date`: `next_wednesday` of the account's last drop, None where that panics |
| Accounts.CountReady | src/main.rs:173-178 | the ready-count loop with one clock reading for every account: one per account with zero remaining time, None once a next date panics |
| Accounts.CountReadyAt | src/main.rs:173-178 | the ready-count loop as written: account `i` is judged at its own reading `nows[i]` |
| Accounts.CountReadyAtDefined | src/main.rs:173-178 | whatever the clock readings, the count exists exactly when every account has a next date |
| Accounts.CountReadyAtIsReadyIndices | src/main.rs:173-178 | the per-reading count equals the number of positions whose account has zero remaining time at its own reading |
| Accounts.CountReadyAtConstant | src/main.rs:173-178 | when every reading is the same moment, the count is `CountReady` at that moment, the number of accounts ready then |
| Accounts.CountReadyAppend | src/main.rs:173-178 | the ready count over two lists joined is the sum of their counts |
| Accounts.CountReadyDefined | src/main.rs:173-178 | the count exists exactly when every account has a next date |
| Accounts.CountReadyIsReadyIndices | src/main.rs:173-178 | the count equals the number of positions whose account has zero remaining time |
| Accounts.CountReadyBounds | src/main.rs:173-179 | the count is at most the number of accounts; it equals that number exactly when every account is ready, and is zero exactly when none is |
| Codec.ToLeBytes | src/main.rs:90 | `u64::to_le_bytes`: the eight bytes of the value, least significant first |
| Codec.FromLeBytes | src/main.rs:135 | `u64::from_le_bytes`: the value of eight bytes, least significant first |
| Codec.LeValueOfLeBytes | src/main.rs:90 | reading little-endian bytes back gives the value that was written |
| Codec.LeBytesOfLeValue | src/main.rs:135 | writing a read value back gives the same bytes |
| Codec.LeBytesRoundTrip | src/main.rs:135 | `u64::from_le_bytes` and `to_le_bytes` are inverse on all eight-byte arrays and all `u64` values |
| Codec.Record | src/main.rs:86-92 | the bytes `to_binary` returns: the name's UTF-8 bytes, one zero byte, the date's little-endian bytes |
| Codec.ToBinary | src/main.rs:86-92 | a record is the name's bytes, one zero byte, and eight bytes from which `from_le_bytes` recovers the date |
| Codec.RecordLength | src/main.rs:86-92 | a record is nine bytes longer than its name's encoding |
| Codec.EncodeAppend | src/main.rs:115-117 | the file for a list with one more account is the old file followed by that account's record |
| Codec.Encode | src/main.rs:113-118 | the file `save_accounts` writes: each account's record, in list order |
| Codec.SaveAccounts | src/main.rs:113-118 | the written file is the records of the accounts, in list order |
| Codec.FirstZero | src/main.rs:130 | the position of the first zero byte, with no zero before it; none when no byte is zero |
| Codec.Decode | src/main.rs:124-140 | what `load_accounts` reads from the file's bytes: the bytes up to a zero byte are a name, the next eight the date, and the rest is read the same way; trailing bytes with no zero are dropped; a name that is not UTF-8 gives `InvalidName`, and fewer than eight date bytes give `TruncatedDate` |
| Codec.LoadedFrom | src/main.rs:120-143 | `load_accounts`: no accounts when the file does not exist, otherwise `Decode` of its bytes |
| Codec.LoadAccounts | src/main.rs:120-143 | the byte-by-byte loop returns what `LoadedFrom` specifies: no file gives no accounts, and a bad name or a short date gives the matching error |
| Codec.DecodeRecord | src/main.rs:120-143 | a record whose name has no U+0000 is read back as its account, followed by whatever the rest of the file holds |
| Codec.DecodeEncodeWithTail | src/main.rs:120-143 | saved accounts load back unchanged, even with unterminated bytes after them |
| Codec.DecodeEncode | src/main.rs:113-143 | loading what `save_accounts` wrote gives the same accounts, when no name holds U+0000 |
| Codec.LoadEmpty | src/main.rs:120-122 | a missing file and an empty file both give no accounts |
| Codec.DecodeUnterminated | src/main.rs:125-140 | bytes with no zero byte give no accounts and no error |
| Codec.DecodeBadRecord | src/main.rs:130-134 | a name that is not UTF-8 gives `InvalidName`, and otherwise fewer than eight bytes after the terminator give `TruncatedDate` |
| Codec.DecodeGoodThenTruncated | src/main.rs:130-136 | a good record followed by a name and only five date bytes is an error for the whole file; the first account is not kept |
| TimeFormat.Split | src/main.rs:47-50 | hours are below 24, and minutes and seconds below 60 |
| TimeFormat.SplitTotal | src/main.rs:47-50 | the four fields add back up to the seconds they came from |
| TimeFormat.SplitUnique | src/main.rs:47-50 | any normal decomposition of the seconds is the one `format_time` computes |
| TimeFormat.Decimal | src/main.rs:52 | `{}` gives at least one digit, and exactly one for values below ten |
| TimeFormat.DigitsValueDecimal | src/main.rs:52 | the digits `{}` writes spell the number |
| TimeFormat.Pad2 | src/main.rs:52 | `{:02}` gives exactly two digits |
| TimeFormat.Pad2Digits | src/main.rs:52 | those two digits spell the number |
| TimeFormat.FormatTime | src/main.rs:46-53 | the text is at least ten characters long |
| TimeFormat.ReadTimeOf | src/main.rs:52 | a `days:hh:mm:ss` text is read back at its three colons |
| TimeFormat.ReadFormatTime | src/main.rs:46-53 | reading the text back gives the exact seconds, so `format_time` loses nothing |
| TimeFormat.FormatTimeInjective | src/main.rs:46-53 | different countdowns are never shown as the same text |
| Notifier.CasesNotifier.constructor | src/main.rs:104-109 | the dialog starts closed, with index 0 and an empty date field, over the given accounts |
| Notifier.CasesNotifier.Default | src/main.rs:102-111 | the notifier starts with the accounts `load_accounts` reads and the dialog closed; it fails exactly when loading panics |
| Notifier.CasesNotifier.Save | src/main.rs:113-118 | afterwards the file holds the encoding of the current accounts, and nothing else changes |
| Notifier.CasesNotifier.AddAccount | src/main.rs:162-171 | while the dialog is closed: the new account "Account name" dated now is appended, the dialog opens on it, and the file is saved; while it is open, nothing changes |
| Notifier.CasesNotifier.Edit | src/main.rs:202-206 | while the dialog is closed: it opens on account `i` with the shown date text, and nothing is saved; while it is open, nothing changes |
| Notifier.CasesNotifier.Delete | src/main.rs:208-224 | while the dialog is closed: account `i` is removed, the others keep their order, and the file is saved; while it is open, nothing changes |
| Notifier.CasesNotifier.ResetTimer | src/main.rs:212-228 | while the dialog is closed: only account `i`'s date changes (to now), and the file is saved; while it is open, nothing changes |
| Notifier.CasesNotifier.EditWindow | src/main.rs:240-265 | while the dialog is open: only the edited account changes; it takes the typed name, and also the parsed date when the text parses; the file is not written |
| Notifier.CasesNotifier.CloseEdit | src/main.rs:268-271 | closing the dialog keeps the accounts and saves them |
| Notifier.CasesNotifier.ReadyCount | src/main.rs:173-178 | the loop's count is `CountReadyAt` of the accounts, each judged at its own clock reading: the number of accounts whose remaining time is zero at that reading, never more than the number of accounts, and None when some next date panics |
| Notifier.ReloadSaved | src/main.rs:113-143 | once the file holds the saved list and no name holds U+0000, loading it yields the same accounts |

Every class method that takes `Valid()` (an open dialog points at an existing account) also ensures it.

## Left out

- `format_date` (src/main.rs:41-44) formats in the local timezone. Its text is a parameter (`shown`) wherever the source stores it.
- Parsing the date field (src/main.rs:253-263) with `NaiveDateTime::parse_from_str` and `Local.from_local_datetime` is a parameter (`parsed`). So is the `unwrap` panic on local times that fall in a DST gap or fold.
- The clock is a parameter; `Local::now()` and `Utc::now()` are not modelled.
- Notifier.CasesNotifier.ReadyCount: the count is a `nat`, where the source counts in an `i32` (src/main.rs:173). The two agree, because the count never exceeds the number of accounts; only a list of more than 2^31 - 1 ready accounts would overflow the source's counter, and the model does not capture that overflow.
- File I/O is a byte sequence. The model leaves out failures to open, create, read or write the file, and the `unwrap`s on them.
- `load_icon`, `main`, the embedded icon, the egui layout and labels, and the one-second repaint request are not part of this model; they are UI and window setup.
- The accessors `Account::new`, `get_name`, `get_date` and `get_next_date` are the `Account` datatype's constructor, its fields, and `Account.NextDate`.
- The date range of chrono's `NaiveDate` is written as constants for chrono 0.4's years -262144 to 262143. Other chrono versions have other limits.
- Notifier.CasesNotifier: each method is one event. The model does not cover two clicks landing in the same frame, or a list longer than 2^31 accounts, where `i as i32` in the Delete path would wrap.
