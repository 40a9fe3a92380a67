/**
 * The message closure that the handler registers with the notification
 * add-on: it gathers the request, the user, the exception, the redacted
 * input and the rendered trace, the variables that the mail view receives.
 * The view and its rendering to HTML are not part of this model. The
 * handler registers this closure with LERN::setMessage; the SetMessage event
 * of the report carries no value, so no contract links that event to
 * ComposeMessage.
 */
module NotificationMessage {
  import opened Wrappers
  import opened Faults
  import opened TraceFormat
  import opened RequestInput
  import opened NotifiedUser

  /** What the closure reads from the current request (Request::url(), ip(), method(), Input::all()). */
  datatype Request = Request(url: string, ip: string, httpMethod: string, input: seq<Entry>)

  /** The variables handed to the mail view. */
  datatype MessageView = MessageView(
    url: string,
    httpMethod: string,
    user: UserFields,
    exceptionClass: string,
    exceptionFile: string,
    exceptionLine: int,
    exceptionMessage: string,
    exceptionTrace: seq<Frame>,
    exceptionTraceFormatted: seq<string>,
    input: string,
    ip: string)

  /**
   * The body of the closure up to the view. formatClass and formatPath stand
   * for Utils::formatClass and Utils::formatPath, encode for json_encode.
   */
  method ComposeMessage(fault: Fault, request: Request, user: Option<Account>,
                        formatClass: string -> string, formatPath: (string, int) -> string,
                        encode: seq<Entry> -> string)
    returns (view: MessageView)
    requires DistinctKeys(request.input)
    ensures view.url == request.url && view.ip == request.ip && view.httpMethod == request.httpMethod
    ensures view.user == ResolveUser(user)
    ensures view.exceptionClass == fault.className && view.exceptionFile == fault.file
    ensures view.exceptionLine == fault.line && view.exceptionMessage == fault.message
    ensures view.exceptionTrace == fault.trace
    // one formatted line per frame, in frame order
    ensures view.exceptionTraceFormatted == RenderTrace(fault.trace, formatClass, formatPath)
    // the serialiser only ever sees the redacted input
    ensures request.input == [] ==> view.input == ""
    ensures request.input != [] ==> view.input == encode(Redact(request.input))
  {
    var fields := ResolveUser(user);
    var input := SerializeInput(request.input, encode);
    var formatted := FormatTrace(fault.trace, formatClass, formatPath);
    view := MessageView(request.url, request.httpMethod, fields, fault.className, fault.file, fault.line,
                        fault.message, fault.trace, formatted, input, request.ip);
  }
}
