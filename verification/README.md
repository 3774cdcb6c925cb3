# SIEM dashboard: alert rules and upload filter

This project models two pieces of decision logic from the SIEM dashboard's
Flask application (`app.py`). The database and web framework around them are
left out.

- **Per-log alert rules** (`generate_alerts_for_log`). A stored log row is
  checked by two rules, in a fixed order. `critical_sev` fires when the
  severity, lower-cased, is `critical`. `port_scan` fires when the event type,
  lower-cased, contains `scan`. Each alert carries the log id, the rule name, a
  fixed severity (`Critical` or `High`) and a message. The model is the pure
  function `AlertRules.Alerts(logId, row)`. It returns the alert rows the
  function would insert, in insertion order.
- **Upload filter** (`allowed_file`). A file name is accepted when it holds
  a `.` and the text after the last `.`, lower-cased, is one of the allowed
  extensions, `json` or `csv`. The model is `Upload.AllowedFile`. It is built
  on `RSplitOnce`, a model of Python's `str.rsplit(sep, 1)`.

Modules:

- `Wrappers` (`wrappers.dfy`): `Option`, used for NULL columns.
- `AsciiText` (`ascii_text.dfy`): ASCII case mapping and substring search.
  `Lower` and `Contains` are the executable versions. `EqualIgnoringCase`,
  `OccursAt` and `OccursIgnoringCaseAt` are independent reference
  definitions, and lemmas connect the two.
- `Upload` (`upload.dfy`): last-index search, `rsplit`, and `allowed_file`.
- `AlertRules` (`alert_rules.dfy`): the log row, the alert row and the two
  rules.

Three choices follow the Python code exactly:

- A column may be NULL, so `severity`, `event_type` and `src_ip` are
  `Option<string>`.
- The rules test a field with Python truthiness (`Truthy`), so the empty
  string counts as absent.
- A NULL field in an f-string prints as `None` (`Show`). A port-scan log with
  no source address therefore gets the message `Port scan detected from None`.
  `ScanWithoutSourceScenario` proves this.

Three further facts about the code shape the model:

- Severity is free text compared after `.lower()` (app.py:108), so
  `CRITICAL` and `critical` fire the rule as well as `Critical`.
- Each insert reads the wall clock separately for `created_at` (app.py:114,
  app.py:127). The model leaves the timestamp out.
- `app.py` breaks off at line 133, inside the comment that opens a
  brute-force rule. Only the two rules before it are modelled; see Left out.

## Model

| member | source | states |
|---|---|---|
| AsciiText.ToLower | app.py:108 | One character as ASCII `.lower()` maps it: the result is never an upper-case letter, a non-letter is unchanged, and `A`..`Z` go to the matching `a`..`z`. |
| AsciiText.Lower | app.py:121 | `.lower()` keeps the length of the text and lower-cases every character in place, which is what lets a match in the lower-cased text be read back as a match in the original. |
| AsciiText.LowerEqualIff | app.py:108 | Two strings are equal after `.lower()` exactly when they agree letter by letter up to ASCII case. This is the meaning of `severity.lower() == "critical"`. |
| AsciiText.LowerOfUpper | app.py:27 | ASCII upper-casing a string first never changes its ASCII lower-cased form. |
| AsciiText.CaseKeepsNonLetters | app.py:27 | Case mapping never creates, removes or moves a non-letter such as `.`. |
| AsciiText.OccursStep | app.py:121 | An occurrence of a pattern is at the front of the text or inside its tail. This is the step that `Contains`' search relies on. |
| AsciiText.Contains | app.py:121 | Python's `p in s` is true exactly when `p` occurs as a contiguous block somewhere in `s`. This includes the empty pattern and a pattern longer than the text. |
| AsciiText.OccursLowerIff | app.py:121 | Searching the lower-cased text for a lower-case pattern finds the pattern exactly where it occurs up to case. |
| Upload.LastIndexOf | app.py:27 | Finds the last index of a character. The result is absent exactly when the character does not occur. When present, it is an occurrence with no other occurrence after it. |
| Upload.RSplitOnce | app.py:27 | `rsplit(sep, 1)` gives one part equal to the whole string exactly when `sep` is absent. Otherwise it gives two parts that join back to the string with `sep`, and the second part has no `sep`. |
| Upload.RSplitOnceOfJoin | app.py:27 | Splitting undoes joining: `stem + sep + tail`, with no `sep` in `tail`, splits back into exactly `stem` and `tail`. |
| Upload.AllowedFile | app.py:26-27 | A file name without a `.` is always refused. |
| Upload.AllowedFileOfParts | app.py:27 | For a name `stem.ext` with no `.` in `ext`, the verdict depends on `ext` alone. The name is accepted exactly when `ext` lower-cases to an entry of `ALLOWED_EXTENSIONS`, whatever the stem. |
| Upload.AllowedExtensionsJsonCsv | app.py:13 | `ALLOWED_EXTENSIONS` holds exactly `json` and `csv`: a name `stem.ext` with no `.` in `ext` is accepted exactly when `ext` lower-cases to one of those two. |
| Upload.AllowedFileIff | app.py:26-27 | A name is accepted exactly when some `.` in it has no later `.` and is followed by text that lower-cases to `json` or `csv`. |
| Upload.ExtensionCaseInsensitive | app.py:27 | ASCII upper-casing the extension never changes the verdict. |
| Upload.UpperOfJoin | app.py:27 | ASCII upper-casing a name `stem.ext` upper-cases the stem and the extension separately and keeps the `.`. |
| Upload.NameCaseInsensitive | app.py:27 | ASCII upper-casing the whole name never changes the verdict. |
| Upload.EmptyExtensionRejected | app.py:27 | A name ending in `.` has an empty extension and is refused, whatever comes before it. |
| Upload.InnerExtensionIgnored | app.py:27 | `a.tar.json` is accepted, because only the text after the last `.` counts. |
| Upload.OuterExtensionDecides | app.py:27 | `a.json.exe` is refused, because the earlier `json` does not count. |
| Upload.UpperCaseExtensionAccepted | app.py:27 | `LOG.JSON` is accepted. |
| Upload.EmptyStemAccepted | app.py:27 | `.csv` is accepted, so an empty stem is allowed. |
| AlertRules.Rule.Name | app.py:115 | The text stored in the `rule` column: `critical_sev` exactly for the `CriticalSev` rule and `port_scan` exactly for the `PortScan` rule (also app.py:128). |
| AlertRules.Truthy | app.py:108 | Python truthiness of a text column, as the `if log_row[...] and` tests use it (also app.py:121): NULL and the empty string are false, every other string is true. |
| AlertRules.Show | app.py:117 | An f-string inserts a string column as it is and a NULL column as the text `None` (also app.py:130). |
| AlertRules.CriticalAlert | app.py:112-118 | The `critical_sev` insert: the given log id, rule column `critical_sev`, severity `Critical`, message `Critical event: {event_type} from {src_ip}`. |
| AlertRules.ScanAlert | app.py:125-131 | The `port_scan` insert: the given log id, rule column `port_scan`, severity `High`, message `Port scan detected from {src_ip}`. |
| AlertRules.Alerts | app.py:102-131 | One log yields at most two alerts. Every alert carries the given log id. When there are two, `critical_sev` comes first and `port_scan` second. |
| AlertRules.CriticalFires | app.py:108 | The `if` condition of the `critical_sev` rule as written: a truthy severity whose ASCII `.lower()` equals `critical`. When it holds, the severity is present and has eight characters; `CriticalFiresIff` states its full meaning. |
| AlertRules.ScanFires | app.py:121 | The `if` condition of the `port_scan` rule as written: a truthy event type whose ASCII `.lower()` contains `scan`. When it holds, the event type is present and at least four characters long; `ScanFiresIff` states its full meaning. |
| AlertRules.CriticalFiresIff | app.py:108 | The code's trigger for `critical_sev` (truthy severity whose `.lower()` is `critical`) holds exactly when the severity is present and spells `critical` in some mix of cases. |
| AlertRules.ScanFiresIff | app.py:121 | The code's trigger for `port_scan` (truthy event type whose `.lower()` contains `scan`) holds exactly when the event type has four consecutive characters spelling `scan` in some mix of cases. |
| AlertRules.CriticalRuleSpec | app.py:108-118 | A log whose severity is `critical` up to case gets exactly one `critical_sev` alert, otherwise none. That alert carries the log id, the rule column `critical_sev`, severity `Critical` and the message `Critical event: {event_type} from {src_ip}`. |
| AlertRules.ScanRuleSpec | app.py:121-131 | A log whose event type contains `scan` up to case gets exactly one `port_scan` alert, otherwise none. That alert carries the log id, the rule column `port_scan`, severity `High` and the message `Port scan detected from {src_ip}`. |
| AlertRules.RulesIndependent | app.py:107-131 | How many `critical_sev` alerts a log gets depends on its severity alone. How many `port_scan` alerts it gets depends on its event type alone. |
| AlertRules.BothRulesOrdered | app.py:107-131 | When both triggers hold, there are exactly two alerts: `critical_sev` first, then `port_scan`. |
| AlertRules.NoScanWithoutLetterS | app.py:121 | An event type with no `s` in either case never fires `port_scan`. |
| AlertRules.MalwareRowTriggers | app.py:108 | A `Critical` / `Malware Detected` log meets the `critical_sev` trigger and not the `port_scan` trigger. |
| AlertRules.MalwareMessage | app.py:117 | The f-string `Critical event: {event_type} from {src_ip}` with `Malware Detected` and `192.0.2.45` filled in is the single text `Critical event: Malware Detected from 192.0.2.45`. |
| AlertRules.CriticalMalwareScenario | app.py:108-118 | The log `Critical` / `Malware Detected` / `192.0.2.45` yields exactly one alert, `Critical event: Malware Detected from 192.0.2.45`. |
| AlertRules.FailedLoginScenario | app.py:107-131 | A `Medium` / `Failed Login` log yields no alert. |
| AlertRules.ScanWithoutSourceScenario | app.py:130 | A `Port Scan` log with NULL severity and NULL source yields one `port_scan` alert with the message `Port scan detected from None`. |

## Left out

- Lower-casing covers ASCII `A`–`Z` only, while Python's `str.lower` is Unicode-wide. The outcome can only differ when a non-ASCII character lower-cases to ASCII letters. U+212A lower-cases to `k` and U+0130 to `i` plus a combining dot. Neither can complete `critical`, `scan`, `json` or `csv`, so for these comparisons the restriction to lower-casing is not expected to change a verdict. Upper-casing is another matter; see the next three lines.
- Upload.NameCaseInsensitive: holds for ASCII upper-casing only. Python's `str.upper` maps `ſ` (U+017F) to `S`, `ı` (U+0131) to `I` and `ß` to `SS`. So `allowed_file("a.jſon")` is false while `allowed_file("a.jſon".upper())`, that is `allowed_file("A.JSON")`, is true.
- Upload.ExtensionCaseInsensitive: holds for ASCII upper-casing only, for the same reason; the extension `jſon` is refused but its Python upper-case form `JSON` is accepted.
- AsciiText.LowerOfUpper: holds for ASCII case mapping only. With Python's Unicode mappings `"ß".upper().lower()` is `"ss"`, not `"ß"`.
- The SQLite plumbing is not modelled: `get_db`, `close_connection`, the cursor `execute` calls and `commit` (app.py:30-43, app.py:104-105). The inserted rows are the sequence `Alerts` returns.
- The alert row's id (assigned by `AUTOINCREMENT`) and its `created_at` timestamp are not modelled. The timestamp is a wall-clock reading (app.py:114, app.py:127).
- Schema creation and seeding the default user in both `init_db` functions are not modelled (app.py:50-96, init_db.py:3-23). They are DDL side effects with nothing to state.
- The brute-force rule is not modelled. Its text breaks off at app.py:133, and no windowed counting code exists in `app.py` to check a model against.
- The log row carries only the three columns the rules read: `severity`, `event_type` and `src_ip`.
- Flask setup, configuration, the secret key, `os.makedirs` and `secure_filename` (app.py:1-20) are not modelled. They are framework and library calls.
