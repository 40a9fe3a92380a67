/**
 * Rendering of an exception's trace into one human-readable line per frame,
 * as the notification closure does before handing the lines to the mail view.
 * Utils::formatClass and Utils::formatPath are helpers of the application
 * whose code is not part of this model; they are passed in as functions.
 */
module TraceFormat {
  import opened Wrappers
  import opened Faults

  /** s is a tail of t. */
  predicate IsSuffix(s: string, t: string) {
    |s| <= |t| && t[|t| - |s|..] == s
  }

  /** Both 'function' and 'class' are set: the frame names a method of a class. */
  predicate IsMethodCall(f: Frame) {
    f.functionName.Some? && f.className.Some?
  }

  /** Both 'file' and 'line' are set: the frame knows where the call was made. */
  predicate IsLocated(f: Frame) {
    f.file.Some? && f.line.Some?
  }

  /** What formatPath contributes to a frame's line: nothing unless the frame is located. */
  function Location(f: Frame, formatPath: (string, int) -> string): string {
    if IsLocated(f) then formatPath(f.file.value, f.line.value) else ""
  }

  /**
   * The head of a frame's line: "at Class->method(...)" for a method,
   * "at function(...)" for a free function, and nothing without a function.
   */
  function Callee(f: Frame, formatClass: string -> string): (head: string)
    ensures head == "" <==> f.functionName.None?
    ensures f.functionName.Some? ==> "at " <= head && IsSuffix(f.functionName.value + "(...)", head)
    // a method call names the formatted class and the call type right after "at "
    ensures IsMethodCall(f) ==>
      var owner := formatClass(f.className.value) + f.callType;
      |head| == 3 + |owner| + |f.functionName.value| + 5 && head[3..3 + |owner|] == owner
    // a free function is named alone
    ensures f.functionName.Some? && f.className.None? ==> head == "at " + f.functionName.value + "(...)"
  {
    if IsMethodCall(f) then
      "at " + formatClass(f.className.value) + f.callType + f.functionName.value + "(...)"
    else if f.functionName.Some? then
      "at " + f.functionName.value + "(...)"
    else
      ""
  }

  /** The line for one frame: its head followed by its location. */
  function RenderFrame(f: Frame, formatClass: string -> string, formatPath: (string, int) -> string): (r: string)
    // a frame with neither a callee nor a location still yields an (empty) line,
    // and a frame without a location yields an empty line only when it has no callee
    ensures !IsLocated(f) ==> (r == "" <==> f.functionName.None?)
    ensures f.functionName.Some? ==> "at " <= r
    // the location is appended whichever branch produced the head
    ensures IsLocated(f) ==> IsSuffix(formatPath(f.file.value, f.line.value), r)
    ensures IsLocated(f) && f.functionName.None? ==> r == formatPath(f.file.value, f.line.value)
    // what precedes the location is exactly the head
    ensures |Location(f, formatPath)| <= |r| && r[..|r| - |Location(f, formatPath)|] == Callee(f, formatClass)
  {
    var head := Callee(f, formatClass);
    var r := head + Location(f, formatPath);
    assert r[..|head|] == head;
    r
  }

  /**
   * A frame's line is its line without the location followed by its line
   * without the callee: the two halves never influence each other.
   */
  lemma FrameLineSplits(f: Frame, formatClass: string -> string, formatPath: (string, int) -> string)
    ensures RenderFrame(f, formatClass, formatPath) ==
      RenderFrame(f.(file := None), formatClass, formatPath) +
      RenderFrame(f.(functionName := None, className := None), formatClass, formatPath)
  {
  }

  /** The call type and the class formatter matter only to a frame that names a method. */
  lemma OwnerOnlyForMethods(f: Frame, t: string, formatClass: string -> string, otherFormatClass: string -> string,
                            formatPath: (string, int) -> string)
    requires !IsMethodCall(f)
    ensures RenderFrame(f.(callType := t), otherFormatClass, formatPath) == RenderFrame(f, formatClass, formatPath)
  {
  }

  /** The whole trace rendered, frame by frame. */
  function RenderTrace(trace: seq<Frame>, formatClass: string -> string, formatPath: (string, int) -> string)
    : (lines: seq<string>)
    // one line per frame, in frame order
    ensures |lines| == |trace|
    ensures forall i :: 0 <= i < |trace| ==> lines[i] == RenderFrame(trace[i], formatClass, formatPath)
  {
    if trace == [] then [] else [RenderFrame(trace[0], formatClass, formatPath)] + RenderTrace(trace[1..], formatClass, formatPath)
  }

  /** Rendering a trace that is split in two renders each half on its own. */
  lemma RenderTraceAppend(a: seq<Frame>, b: seq<Frame>, formatClass: string -> string,
                            formatPath: (string, int) -> string)
    ensures RenderTrace(a + b, formatClass, formatPath) ==
      RenderTrace(a, formatClass, formatPath) + RenderTrace(b, formatClass, formatPath)
  {
  }

  /**
   * The foreach loop of the notification closure: each frame's line is built
   * up in a local string and appended to the list of formatted lines.
   */
  method FormatTrace(trace: seq<Frame>, formatClass: string -> string, formatPath: (string, int) -> string)
    returns (formatted: seq<string>)
    ensures formatted == RenderTrace(trace, formatClass, formatPath)
  {
    formatted := [];
    for i := 0 to |trace|
      invariant |formatted| == i
      invariant forall k :: 0 <= k < i ==> formatted[k] == RenderFrame(trace[k], formatClass, formatPath)
    {
      var frame := trace[i];
      var line := "";
      if frame.functionName.Some? && frame.className.Some? {
        line := "at " + formatClass(frame.className.value) + frame.callType + frame.functionName.value + "(...)";
      } else if frame.functionName.Some? {
        line := "at " + frame.functionName.value + "(...)";
      }
      if frame.file.Some? && frame.line.Some? {
        line := line + formatPath(frame.file.value, frame.line.value);
      }
      formatted := formatted + [line];
    }
  }
}
