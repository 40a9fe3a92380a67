# Exception handler of the Laravel Enterprise Starter Kit, modelled in Dafny

The application's exception handler (`App\Exceptions\Handler`) decides, for
every exception the framework reports, whether to record it in the database
and whether to send a notification mail through the LERN add-on, and it
formats that mail: a subject line with the channel name and the time, and a
message body built from the request, the authenticated user, the request
input with the password fields hidden, and the exception's trace rendered one
line per frame.

This project models that logic:

- `report.dfy` (`ExceptionReport`): the reporting gate of `Handler::report`,
  as the sequence of calls it makes (record, set subject, set message,
  notify, the framework's own report).
- `subject.dfy` (`NotificationSubject`): the subject line.
- `user.dfy` (`NotifiedUser`): the four user fields, or their sentinels.
- `input.dfy` (`RequestInput`): the request input as an ordered PHP array,
  array assignment, the password redaction and the input's serialisation.
- `trace.dfy` (`TraceFormat`): the rendering of each trace frame and the
  loop that renders the whole trace.
- `message.dfy` (`NotificationMessage`): the message closure, which
  assembles the variables of the mail view.
- `faults.dfy` (`Faults`) and `wrappers.dfy` (`Wrappers`): the exception
  and frame values, and the option type used for keys tested with `isset`.

The framework and its facades are replaced by inputs. `shouldReport`,
whether the add-on is bound, and the three settings are parameters. The
authenticated user is an `Option<Account>`. The request is a value. The
formatted clock reading is a string. `Utils::formatClass`,
`Utils::formatPath` and `json_encode` are passed in as functions.

The redaction follows the code, not the `$dontFlash` list. It is keyed
only on `password`. When that key is present it overwrites `password` and
also writes `password_confirmation`, adding it when absent. A lone
`password_confirmation` is left as it is.

## Model

| member | source | states |
|---|---|---|
| `ExceptionReport.Report` | app/Exceptions/Handler.php:44-67 | record is attempted iff the exception should be reported, the add-on is bound and recording is enabled; notify iff the same with notifying enabled, unless recording raised; every notify is directly preceded by setting the subject (channel and date) and the message; record precedes notify; when neither call raises, the framework's report comes last; when one raises, report is left right after it and the framework's report is never made; no other calls are made |
| `NotificationSubject.Subject` | app/Exceptions/Handler.php:85 | the subject is "[", the channel, "]: An Exception was thrown! (", the date and " UTC)", each at its position, and nothing more |
| `NotificationSubject.SubjectDeterminesDate` | app/Exceptions/Handler.php:85 | on one channel, equal subjects mean equal dates |
| `NotificationSubject.SubjectDeterminesChannel` | app/Exceptions/Handler.php:85 | for one date, equal subjects mean equal channels |
| `NotifiedUser.ResolveUser` | app/Exceptions/Handler.php:92-103 | without a user the fields are exactly "N/A", "unauthenticated", "Unauthenticated User", "N/A"; with one they are its id, username, first name and last name |
| `NotifiedUser.SentinelsIffUnauthenticated` | app/Exceptions/Handler.php:93-103 | the sentinel fields are reported if and only if there is no authenticated user |
| `NotifiedUser.ResolveUserInjective` | app/Exceptions/Handler.php:93-97 | distinct authenticated users give distinct user fields |
| `RequestInput.Lookup` | app/Exceptions/Handler.php:111 | a key has a value exactly when the array has an entry with that key |
| `RequestInput.LookupAt` | app/Exceptions/Handler.php:111-113 | in an array with unique keys, the value found for an entry's key is that entry's value |
| `RequestInput.Put` | app/Exceptions/Handler.php:112-113 | after assignment the key holds the new value and every other key its old one; an existing key stays where it was and other entries are untouched; a new key is appended at the end |
| `RequestInput.PutKeys` | app/Exceptions/Handler.php:112-113 | assignment adds the assigned key to the keys and no other |
| `RequestInput.PutKeepsDistinct` | app/Exceptions/Handler.php:112-113 | assignment keeps the keys of an array unique |
| `RequestInput.PutSame` | app/Exceptions/Handler.php:112-113 | assigning the value a key already holds leaves the array unchanged |
| `RequestInput.Redact` | app/Exceptions/Handler.php:110-114 | with a password present, both `password` and `password_confirmation` hold "hidden-secret" and the keys gain at most the confirmation; every other key keeps its value; without a password the input is unchanged; existing entries keep their order; unique keys stay unique |
| `RequestInput.RedactHidesEveryEntry` | app/Exceptions/Handler.php:110-115 | in an array with unique keys and a password, every entry under `password` or `password_confirmation` handed to the serialiser holds "hidden-secret" |
| `RequestInput.RedactIdempotent` | app/Exceptions/Handler.php:111-114 | redacting an already redacted input changes nothing |
| `RequestInput.SerializeInput` | app/Exceptions/Handler.php:109-118 | for input with unique keys (as every PHP array has): empty input gives the empty string; otherwise the result is the serialisation of the redacted input |
| `TraceFormat.Callee` | app/Exceptions/Handler.php:122-129 | a frame with both function and class gets the head "at " + formatted class + type + function + "(...)"; one with only a function gets "at " + function + "(...)"; the head is empty exactly when there is no function |
| `TraceFormat.RenderFrame` | app/Exceptions/Handler.php:122-131 | a frame's line is its head followed by the formatted path, which is appended exactly when both file and line are set, whichever head was produced; a frame with neither callee nor location still yields a line, the empty string |
| `TraceFormat.FrameLineSplits` | app/Exceptions/Handler.php:124-131 | a frame's line is its callee part followed by its location part, each independent of the other |
| `TraceFormat.OwnerOnlyForMethods` | app/Exceptions/Handler.php:124-129 | the call type and the class formatter affect only frames with both a function and a class |
| `TraceFormat.RenderTrace` | app/Exceptions/Handler.php:120-134 | the rendered trace has exactly one line per frame, the i-th line being the i-th frame's |
| `TraceFormat.RenderTraceAppend` | app/Exceptions/Handler.php:120-134 | rendering two consecutive pieces of a trace is rendering each piece in turn |
| `TraceFormat.FormatTrace` | app/Exceptions/Handler.php:120-134 | the loop that builds each frame's line and appends it produces the rendered trace |
| `NotificationMessage.ComposeMessage` | app/Exceptions/Handler.php:88-138 | the view gets the request's URL, IP and method, the resolved user fields, the exception's class, file, line, message and trace, the rendered trace, and the serialisation of the redacted input (the empty string for empty input) |

## Left out

- `Handler::render` (lines 76-79) only passes the call on to the framework; it is not modelled.
- The framework's `parent::report` and `shouldReport` are not modelled: the first is an event and the second a boolean input. The empty `$dontReport` list only feeds `shouldReport`.
- The `$dontFlash` list (lines 31-34) is used by the framework when it flashes input after validation errors. It plays no part in the redaction, which is keyed on `password` alone.
- `app()->bound("lern")` and the `Settings`, `Auth`, `Request` and `Input` facades are service lookups; their results are parameters. Settings are taken as already tested for truth, and a missing channel as the empty string.
- What LERN does when it records or notifies is not modelled; these calls are events in the trace that `Report` returns.
- ExceptionReport.Report: `Settings::get`, `LERN::setSubject` and `LERN::setMessage` are assumed to return normally; only a raising `LERN::record` or `LERN::notify` (with the message closure it runs) is modelled.
- The `SetMessage` event carries no value, so no contract ties the closure registered there to `ComposeMessage`.
- Input is assumed to have unique keys, as every PHP array does; `SerializeInput` and `ComposeMessage` require it.
- `Utils::formatClass` and `Utils::formatPath` are not part of this model; they are function parameters, so nothing is said about the text they produce.
- `json_encode` is a parameter that always returns a string. Its failure result `false` is not modelled.
- `View::make(...)->render()` and the mail template are not modelled; `ComposeMessage` stops at the view's variables.
- `date(...)` and `time()` are not modelled; the formatted date is an input of `Subject`.
- PHP array keys are modelled as strings only; integer keys, as in nested lists, are written as their decimal strings.
- Input values are strings, integers, booleans, null or nested arrays. Uploaded files and floats are not modelled. Redaction never looks inside nested arrays, as in the code.
- A user's username, first name and last name are modelled as strings, never null.
- A trace frame's `type` is a plain string. PHP sets it on every frame that has a `class`, so the case of a class without a type is not modelled.
