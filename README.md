# Basic authentication and PII redaction, in Dafny

This project models the authentication gate of a small Flask API and the
log-redaction helper of the same repository, and proves properties of
both.

- `BasicAuth` turns an `Authorization: Basic <token>` value into a user in
  four guarded stages. First it takes the text after `Basic `. Then it
  Base64-decodes and UTF-8-decodes that text. Then it splits the result at
  the first colon. Last, it looks the user up through the store. Its
  `current_user` chains the four stages.
- `Auth` is the null authenticator. Its three methods return constants.
  `BasicAuth` inherits `require_auth` and `authorization_header` from it.
- The application picks an authenticator from `AUTH_TYPE`. Its
  `before_request` gate allows the request, aborts with 401 or 403, or
  lets an exception escape. The 401/403/404 handlers answer with a JSON
  error body.
- `filter_datum` rewrites `field=value` pairs of a log line with the
  pattern `(f1|...|fn)=[^sep]+`. It is modelled as the left-to-right
  scanner that the regular-expression engine runs.

Files:

- `Py.dfy`: the Python values the code passes around. `PyVal` is `None`, a
  `str`, or anything else. `Outcome` is a value or a raised exception.
- `Base64.dfy`: the RFC 4648 section 4 alphabet and encoder. It also holds
  the decoder that `base64.b64decode` uses by default. That decoder skips
  characters outside the alphabet, stops at complete padding, and raises
  `binascii.Error` on a lone data character or on missing padding. It reads
  the token's characters, not the bytes of its `.encode('utf-8')`. This
  changes nothing, because every non-ASCII character encodes to bytes of
  0x80 and above, and the decoder skips those bytes just as it skips the
  character.
- `Utf8.dfy`: the UTF-8 encoder and the strict decoder of RFC 3629.
  Overlong forms, surrogates and values above U+10FFFF are rejected.
- `Auth.dfy`, `BasicAuth.dfy`, `App.dfy`: the three authentication files.
  The user store (`User.search`, `is_valid_password`) is a parameter: a
  function from an email to a sequence of records, and a password
  predicate. The gate is stated for any three methods (`AuthMethods`). It
  is also instantiated with the shipped classes (`BeforeRequest`).
- `FilteredLogger.dfy`: `filter_datum` as a scanner. It also defines a
  field-by-field reference (`Record`, `RedactEntries`) for log lines made
  of plain `key=value;` fields, and proves that the scanner agrees with it.
- `LoggerDemo.dfy`: the calls made by `0x00-personal_data/main.py`, and
  edge cases of the unanchored pattern.

The code's comments and its statements disagree in two places. The model
follows the statements.

- The docstring of `decode_base64_authorization_header`
  (`0x01-Basic_authentication/api/v1/auth/basic_auth.py:53-55`) promises
  the decoded string or None. Line 63 can raise `UnicodeDecodeError` when
  the bytes are not UTF-8, and `except binascii.Error` at line 64 does not
  catch it. The model raises the error, and the error passes through
  `current_user` and out of the gate (`GateOutcome.Propagate`).
- The comments of `before_request`
  (`0x01-Basic_authentication/api/v1/app.py:39-43` and `:55`) say that
  excluded paths bypass the checks and every other path is checked. The
  shipped `require_auth` (`0x01-Basic_authentication/api/v1/auth/auth.py:8-9`)
  is `return False`, so every path bypasses them, and the model has no
  path matcher.

## Model

| member | source | states |
|---|---|---|
| Base64.SextetValue | 0x01-Basic_authentication/api/v1/auth/basic_auth.py:63 | An alphabet character gives a value below 64, and that value encodes back to the same character. `=` is not a data character. |
| Base64.SextetRoundTrip | 0x01-Basic_authentication/api/v1/auth/basic_auth.py:63 | Every 6-bit value comes back from its alphabet character. |
| Base64.Scan | 0x01-Basic_authentication/api/v1/auth/basic_auth.py:63 | A successful decoding keeps the bytes already decoded as a prefix of its result. |
| Base64.Decode | 0x01-Basic_authentication/api/v1/auth/basic_auth.py:63 | `base64.b64decode` with its default non-strict scanner. It has no contract of its own: `DecodeEncode` states the round trip, `ScanSkipsForeign` states the leniency, and `DecodeExamples` states the error cases. |
| Base64.ScanEncode | 0x01-Basic_authentication/api/v1/auth/basic_auth.py:63 | Scanning an encoding, after any bytes already decoded, appends exactly the encoded bytes. |
| Base64.DecodeEncode | 0x01-Basic_authentication/api/v1/auth/basic_auth.py:61-63 | Decoding the RFC 4648 encoding of any byte string gives that byte string back. |
| Base64.ScanSkipsForeign | 0x01-Basic_authentication/api/v1/auth/basic_auth.py:63 | A character outside the alphabet that is not `=` does not change the result wherever it is inserted (`validate=False`). |
| Base64.DecodeExamples | 0x01-Basic_authentication/api/v1/auth/basic_auth.py:63-65 | `""` decodes to no bytes. `Y` is a lone data character. `YQ` and `YQ=` lack padding. `YQ==` and `YQ==junk` give byte 97. `/w==` gives byte 255. |
| Utf8.EncodeChar | 0x01-Basic_authentication/api/v1/auth/basic_auth.py:63 | A character encodes to one to four bytes. This is the encoding that the strict `.decode('utf-8')` inverts. The model does not apply it to the token itself. |
| Utf8.DecodeChar | 0x01-Basic_authentication/api/v1/auth/basic_auth.py:63 | A decoded character uses between one byte and the bytes available. |
| Utf8.DecodeCharEncodes | 0x01-Basic_authentication/api/v1/auth/basic_auth.py:63 | The bytes that one decoding step consumes are exactly the encoding of the character it returns. |
| Utf8.Decode | 0x01-Basic_authentication/api/v1/auth/basic_auth.py:63 | Accepted bytes are exactly the encoding of the text returned, so decoding accepts nothing that is not UTF-8. |
| Utf8.DecodeEncodeChar | 0x01-Basic_authentication/api/v1/auth/basic_auth.py:63 | Decoding the encoding of a character, followed by anything, gives that character and its length. |
| Utf8.DecodeEncode | 0x01-Basic_authentication/api/v1/auth/basic_auth.py:63 | Decoding the encoding of any text gives that text. |
| Utf8.DecodeExamples | 0x01-Basic_authentication/api/v1/auth/basic_auth.py:63-65 | `FF`, a lone continuation byte, a truncated sequence and an encoded surrogate are rejected. `C3 A9` is `é`. |
| Auth.RequireAuth | 0x01-Basic_authentication/api/v1/auth/auth.py:8-9 | `require_auth` is false, whatever the path and the exclusion list. |
| Auth.AuthorizationHeader | 0x01-Basic_authentication/api/v1/auth/auth.py:11-12 | `authorization_header` is `None`, whatever the request. |
| Auth.CurrentUser | 0x01-Basic_authentication/api/v1/auth/auth.py:14-15 | `current_user` is `None`, whatever the request. |
| Auth.RequireAuthNeverRequires | 0x01-Basic_authentication/api/v1/auth/auth.py:8-9 | `require_auth` is false for every path and every exclusion list, including a missing or empty one. |
| Auth.AuthorizationHeaderAlwaysAbsent | 0x01-Basic_authentication/api/v1/auth/auth.py:11-12 | `authorization_header` is `None` for every request, also for one that carries the header. |
| Auth.CurrentUserAlwaysNone | 0x01-Basic_authentication/api/v1/auth/auth.py:14-15 | `current_user` is `None` for every request. |
| Auth.ResultsIgnoreArguments | 0x01-Basic_authentication/api/v1/auth/auth.py:7-15 | Any two calls of the same method agree, whatever their arguments. |
| BasicAuth.ExtractBase64AuthorizationHeader | 0x01-Basic_authentication/api/v1/auth/basic_auth.py:34-39 | There is a result if and only if the header is a `str` starting with the case-sensitive `Basic `. Then `Basic ` followed by the result is the header. |
| BasicAuth.DecodeBase64AuthorizationHeader | 0x01-Basic_authentication/api/v1/auth/basic_auth.py:57-67 | A non-`str` and a Base64 error give `None`. A token that Base64-decodes to valid UTF-8 returns that text, and a returned text is always the one whose UTF-8 bytes the token decodes to. The call raises if and only if the token decodes but its bytes are not UTF-8. |
| BasicAuth.Find | 0x01-Basic_authentication/api/v1/auth/basic_auth.py:88 | `str.find` gives -1 if and only if the character is absent. Otherwise it gives the index of its first occurrence. |
| BasicAuth.ExtractUserCredentials | 0x01-Basic_authentication/api/v1/auth/basic_auth.py:83-90 | Anything other than a `str` holding a colon gives `(None, None)`. Otherwise both parts are strings, the user part has no colon, and user + `:` + password is the input. |
| BasicAuth.UserObjectFromCredentials | 0x01-Basic_authentication/api/v1/auth/basic_auth.py:113-125 | Non-`str` arguments give `None`. A user is returned if and only if the search is non-empty and its first record passes the password check. The user returned is that first record. |
| BasicAuth.UserFromAuthorizationHeader | 0x01-Basic_authentication/api/v1/auth/basic_auth.py:147-157 | The four stages chained. A header that is not a `str` starting with `Basic ` gives `None`. The chain raises if and only if the header has that prefix and decoding its token raises. `WellFormedHeaderResolves` and `ResolvedUserHadValidCredentials` state what it resolves. |
| BasicAuth.CurrentUser | 0x01-Basic_authentication/api/v1/auth/basic_auth.py:144-157 | A missing request gives `None` (lines 144-145). `CurrentUserAlwaysNone` states that, with the inherited header stub, every request gives `None`. |
| BasicAuth.DecodeRoundTrip | 0x01-Basic_authentication/api/v1/auth/basic_auth.py:61-63 | The Base64 encoding of the UTF-8 bytes of any text decodes to that text. |
| BasicAuth.DecodeRaisesOnNonUtf8 | 0x01-Basic_authentication/api/v1/auth/basic_auth.py:61-65 | A well-formed token whose bytes are not UTF-8 raises `UnicodeDecodeError` instead of giving `None`. |
| BasicAuth.DecodeExamples | 0x01-Basic_authentication/api/v1/auth/basic_auth.py:57-65 | The empty token gives `""`. `YQ` gives `None`. `/w==` raises. `None` gives `None`. |
| BasicAuth.ExtractUserCredentialsJoin | 0x01-Basic_authentication/api/v1/auth/basic_auth.py:83-90 | Splitting `user:pwd` gives back `user` and `pwd` for any colon-free user. |
| BasicAuth.SplitAtFirstColonExample | 0x01-Basic_authentication/api/v1/auth/basic_auth.py:88-90 | `user:pa:ss` splits at the first colon, so the password keeps its colon. |
| BasicAuth.EmptyPartsExample | 0x01-Basic_authentication/api/v1/auth/basic_auth.py:83-90 | An empty user and an empty password are accepted. |
| BasicAuth.NoColonGivesNothing | 0x01-Basic_authentication/api/v1/auth/basic_auth.py:83-86 | Colon-free text and any non-`str` give `(None, None)`. |
| BasicAuth.UserLookupNeedsStrings | 0x01-Basic_authentication/api/v1/auth/basic_auth.py:113-115 | Unless both arguments are `str`, the result is `None` whatever the store holds. |
| BasicAuth.UserLookupUsesFirstMatchOnly | 0x01-Basic_authentication/api/v1/auth/basic_auth.py:117-125 | Two stores that agree on the first search record and its password check give the same answer. |
| BasicAuth.WellFormedHeaderResolves | 0x01-Basic_authentication/api/v1/auth/basic_auth.py:147-157 | `Basic ` followed by any token that `b64decode` turns into the UTF-8 bytes of `user:pwd`, with a colon-free `user`, resolves exactly as the store resolves `(user, pwd)`. This includes non-canonical tokens with skipped characters or text after the padding. |
| BasicAuth.CanonicalHeaderResolves | 0x01-Basic_authentication/api/v1/auth/basic_auth.py:147-157 | The canonical header `Basic ` + Base64(UTF-8(`user:pwd`)), with a colon-free `user`, resolves exactly as the store resolves `(user, pwd)`. |
| BasicAuth.ResolvedUserHadValidCredentials | 0x01-Basic_authentication/api/v1/auth/basic_auth.py:147-157 | A resolved user comes from a header `Basic <token>`. The token decodes to some `user:pwd` with a colon-free user, and the store resolves that pair to that user. |
| BasicAuth.CurrentUserAlwaysNone | 0x01-Basic_authentication/api/v1/auth/basic_auth.py:144-157 | With the inherited `authorization_header`, `current_user` is `None` for every request. |
| App.Authenticator.RequireAuth | 0x01-Basic_authentication/api/v1/auth/auth.py:8-9 | Both selectable classes inherit `require_auth`, which is always false. |
| App.Authenticator.AuthorizationHeader | 0x01-Basic_authentication/api/v1/auth/auth.py:11-12 | Both selectable classes inherit `authorization_header`, which is always `None`. |
| App.Authenticator.CurrentUser | 0x01-Basic_authentication/api/v1/auth/basic_auth.py:144-157 | `BasicAuth` uses its own `current_user`. For both classes the result is `None` for every request. |
| App.MethodsOf | 0x01-Basic_authentication/api/v1/app.py:15-23 | There are methods exactly when an authenticator was selected. For the shipped classes, `require_auth` is always false, `authorization_header` is always `None`, and `current_user` is always `None`. |
| App.Gate | 0x01-Basic_authentication/api/v1/app.py:45-67 | Without an authenticator the request proceeds. An abort is always 401 or 403. An exception escapes if and only if authentication is required, a header is present and `current_user` raises. `GateRejectsExactly` and `PresentHeaderDecidedByUser` pin the other outcomes. |
| App.BeforeRequest | 0x01-Basic_authentication/api/v1/app.py:15-67 | The gate with the authenticator chosen from `AUTH_TYPE`. It has no contract of its own: `ShippedGateAllowsEverything` states that every request proceeds. |
| App.SelectAuthenticator | 0x01-Basic_authentication/api/v1/app.py:15-23 | `auth` gives `Auth` and `basic_auth` gives `BasicAuth`, by exact match. Any other value, or an unset variable, gives no authenticator. |
| App.ErrorHandler | 0x01-Basic_authentication/api/v1/app.py:70-88 | There is a handler exactly for 401, 403 and 404. It keeps the status, and its body has the single key `error`. |
| App.ErrorHandlerBodies | 0x01-Basic_authentication/api/v1/app.py:70-88 | The bodies are `Unauthorized`, `Forbidden` and `Not found`. |
| App.GateAbortsAreHandled | 0x01-Basic_authentication/api/v1/app.py:61-67 | The gate aborts only with 401 or 403, and both have a handler. |
| App.DisabledGateAllows | 0x01-Basic_authentication/api/v1/app.py:46-47 | Without an authenticator every request proceeds. |
| App.NotRequiredIgnoresHeaderAndUser | 0x01-Basic_authentication/api/v1/app.py:56-57 | When authentication is not required, the request proceeds whatever the header and user methods do. |
| App.MissingHeaderIs401 | 0x01-Basic_authentication/api/v1/app.py:61-62 | A required check with a missing header gives 401, whatever `current_user` would say. |
| App.PresentHeaderDecidedByUser | 0x01-Basic_authentication/api/v1/app.py:66-67 | With a header present, no user gives 403 and a user lets the request proceed, each if and only if. An exception from `current_user` escapes. |
| App.GateRejectsExactly | 0x01-Basic_authentication/api/v1/app.py:56-67 | The gate gives 401 if and only if authentication is required and the header is missing. It gives 403 if and only if it is required, the header is present and no user is returned. |
| App.ShippedGateAllowsEverything | 0x01-Basic_authentication/api/v1/app.py:56-57 | With the shipped classes, every `AUTH_TYPE` lets every request through. |
| FilteredLogger.Alternatives | 0x00-personal_data/filtered_logger.py:19 | The group has at least one alternative. A non-empty field list is used as given. |
| FilteredLogger.FirstMatch | 0x00-personal_data/filtered_logger.py:19 | The result is the first field in list order that matches here, with `=` and a non-separator after it. `None` means that no field matches here. |
| FilteredLogger.RunLength | 0x00-personal_data/filtered_logger.py:19 | The replaced run holds no separator and stops at a separator or at the end (greedy `[^sep]+`). |
| FilteredLogger.After | 0x00-personal_data/filtered_logger.py:19 | After a replaced value, scanning resumes at the end of the message or at a separator, strictly further on. |
| FilteredLogger.Substitute | 0x00-personal_data/filtered_logger.py:19-20 | The scanner keeps the first character of a non-empty message. The lemmas below state what it computes: `SubstituteEntry`, `SubstituteSplitsAtSeparator` and `SubstituteIdempotent`. |
| FilteredLogger.FilterDatum | 0x00-personal_data/filtered_logger.py:16-21 | A message without `=` is returned unchanged. `FilterDatumOnRecord` states the field-by-field result on plain log lines, and `FilterDatumIdempotent` states idempotence. |
| FilteredLogger.RedactMessage | 0x00-personal_data/filtered_logger.py:36-39 | `filter_datum` with `***` and `;`. It has no contract of its own: `LoggerDemo.FormatterLineRedacted` states its result on the formatter's log lines. |
| FilteredLogger.SubstituteWithoutMatch | 0x00-personal_data/filtered_logger.py:19-21 | A message in which no field matches anywhere is returned unchanged. |
| FilteredLogger.SubstituteWithoutEquals | 0x00-personal_data/filtered_logger.py:19-21 | A message without `=` is returned unchanged. |
| FilteredLogger.SubstituteSplitsAtSeparator | 0x00-personal_data/filtered_logger.py:19 | The conditions: no field contains the separator, and the separator is not `=`. Then no match crosses a separator, the text on each side is redacted on its own, and the separator is kept. A field that contains the separator can match across it. |
| FilteredLogger.SubstituteEntry | 0x00-personal_data/filtered_logger.py:19-20 | A plain `key=value` is redacted if and only if the value is non-empty and some field ends the key. Otherwise it is unchanged. |
| FilteredLogger.FilterDatumOnRecord | 0x00-personal_data/filtered_logger.py:16-21 | The conditions: no field contains the separator, the separator is not `=`, and every key and value is free of `=` and of the separator. Then, on a line of such `key=value;` fields, `filter_datum` equals the field-by-field reference `RedactEntries`. |
| FilteredLogger.SubstituteKeepsPrefix | 0x00-personal_data/filtered_logger.py:19-20 | The output is the input, or output and input agree up to and including some `=`, and both go on with a non-separator character after it. `SubstituteKeepsFirstMatch` uses this to show that the same field matches first at the start. |
| FilteredLogger.SubstituteKeepsFirstMatch | 0x00-personal_data/filtered_logger.py:19-20 | The same field matches first at the start of the output as at the start of the input. |
| FilteredLogger.SubstituteIdempotent | 0x00-personal_data/filtered_logger.py:19-20 | Redacting twice equals redacting once, for a non-empty redaction without the separator and fields without `=`. |
| FilteredLogger.FilterDatumIdempotent | 0x00-personal_data/filtered_logger.py:16-21 | `filter_datum` is idempotent under the same conditions. |
| FilteredLogger.ListedEntryRedacted | 0x00-personal_data/filtered_logger.py:19-20 | A key that is itself a listed field has its non-empty value replaced. |
| LoggerDemo.ScriptLineFiltered | 0x00-personal_data/main.py:11-15 | Take a line `name;email;password;date_of_birth` with plain values and non-empty `password` and `date_of_birth`. Only those two values are replaced, with `xxx`. An empty value stays empty (`EmptyValueKept`). |
| LoggerDemo.EggLineFiltered | 0x00-personal_data/main.py:11-15 | On the script's first message, `password` and `date_of_birth` become `xxx`. |
| LoggerDemo.BobbyLineFiltered | 0x00-personal_data/main.py:11-15 | The same holds for the script's second message. |
| LoggerDemo.FormatterLineRedacted | 0x00-personal_data/filtered_logger.py:36-41 | The fields are `email`, `ssn` and `password`, and the line has plain values with non-empty `email`, `ssn` and `password`. The formatter's redaction leaves only `name` readable and writes `***` in place of the other three. |
| LoggerDemo.BobLineFormatted | 0x00-personal_data/main.py:17-20 | The script's formatted message keeps `name=Bob` and has `***` for `email`, `ssn` and `password`. |
| LoggerDemo.FieldMatchesInsideLongerKey | 0x00-personal_data/filtered_logger.py:19 | The field `name` also redacts the value of `username`. |
| LoggerDemo.EmptyValueKept | 0x00-personal_data/filtered_logger.py:19 | A listed field followed by `=` and then the separator is left unchanged. |
| LoggerDemo.NoFieldsRedactsEveryValue | 0x00-personal_data/filtered_logger.py:19 | With an empty field list, every non-empty value is replaced. |

## Left out

- Flask plumbing is not modelled: blueprints, CORS, `jsonify`, `app.run` and `os.getenv`. `AUTH_TYPE` and the request are parameters.
- Flask's dispatch of `abort(code)` to its handler is not modelled. An abort is a gate outcome, and `ErrorHandler` is stated beside it.
- The 500 response Flask sends for an escaped exception is not modelled. The exception is the gate outcome `Propagate`.
- `models.user.User` is not part of this model. Its search and password check are a parameter (`UserStore`), so store faults and store exceptions are not modelled. Nothing is assumed about unique emails, or about the records a search returns.
- The shipped code has no excluded-path matcher and no reader of the `Authorization` header. It also never attaches the resolved user to the request. None of these is modelled. `Request.authorization` exists only to state that the header is ignored.
- `Utf8` works on Dafny characters, which are Unicode scalar values. A Python `str` holding a lone surrogate would raise `UnicodeEncodeError` at `.encode('utf-8')`; the model cannot express that input.
- `Base64.Scan` follows the default decoder of CPython 3.11 and later. Older versions handle excess padding after a complete group differently. That difference is not modelled.
- `FilteredLogger.FilterDatum` treats field names, the separator and the redaction as plain text. Regular-expression metacharacters in them, and backslash escapes in the redaction template, are not modelled. A separator that is special inside a character class (`]`, `^`, `\`, `-`) is not modelled either. The separator is one character, while `filter_datum` takes a `str`: a separator of several characters would become a class of several characters. No caller in the repository passes one, and that case is not modelled.
- `FilteredLogger.FilterDatumOnRecord` is stated only for lines of plain `key=value;` fields, with no `=` or separator in keys and values. Other messages are covered only by the scanner lemmas.
- `FilteredLogger.Substitute`: its own contract only says that the first character is kept. What it computes is stated by the lemmas about it.
- The logging side of `RedactingFormatter.format` is not modelled: the format string, the timestamp, and the assignment `record.msg = message`. Only the call to `filter_datum` with `***` and `;` is modelled (`RedactMessage`).
- `get_logger`, `get_db` and `main` in `filtered_logger.py` are logging and MySQL I/O, and are not modelled.
- `encrypt_password.py` uses bcrypt with random salts, a foreign library, and is not modelled.
- `demo.py` and `logging_practice.py` are scripts with printing side effects, and are not modelled. Of `main.py`, only its calls to `filter_datum` are modelled (`LoggerDemo`).
