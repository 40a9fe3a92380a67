/**
 * Handler::report: when the exception is to be reported and the
 * notification add-on is installed, record it and/or notify about it as the
 * two settings say, setting the subject and message format first; in every
 * case hand the exception on to the framework's own report.
 * The calls the handler makes are modelled as the sequence of events it emits.
 */
module ExceptionReport {
  import opened Faults
  import opened NotificationSubject

  datatype Event =
    | Record(fault: Fault)           // LERN::record
    | SetSubject(subject: string)    // LERN::setSubject
    | SetMessage                     // LERN::setMessage with the closure
    | Notify(fault: Fault)           // LERN::notify
    | ParentReport(fault: Fault)     // parent::report

  /** The values of the settings 'lern.enable_record', 'lern.enable_notify' and 'lern.notify.channel'. */
  datatype LernSettings = LernSettings(recordEnabled: bool, notifyEnabled: bool, channel: string)

  /**
   * shouldReport is the framework's verdict on the exception, lernBound
   * whether the add-on is bound in the container, date the formatted clock
   * reading used in the subject. recordThrows and notifyThrows say whether
   * LERN::record, or LERN::notify together with the message closure it runs,
   * raises an exception; report has no handler for it, so it leaves at once
   * and returned is false. The failing call is the last event.
   */
  method Report(fault: Fault, shouldReport: bool, lernBound: bool, settings: LernSettings, date: string,
                recordThrows: bool, notifyThrows: bool)
    returns (events: seq<Event>, returned: bool)
    // record is attempted iff the exception is reported, the add-on is bound and recording is on
    ensures Record(fault) in events <==> shouldReport && lernBound && settings.recordEnabled
    // notify is attempted iff the same holds with notifying on, unless recording raised
    ensures Notify(fault) in events <==>
      shouldReport && lernBound && settings.notifyEnabled && !(settings.recordEnabled && recordThrows)
    ensures returned <==>
      !(shouldReport && lernBound && settings.recordEnabled && recordThrows) &&
      !(shouldReport && lernBound && settings.notifyEnabled && notifyThrows)
    // nothing but these calls, each at most once
    ensures |events| ==
      (if Record(fault) in events then 1 else 0) + (if Notify(fault) in events then 3 else 0) + (if returned then 1 else 0)
    // the framework's report comes last when report returns, and nowhere else
    ensures returned ==> events[|events| - 1] == ParentReport(fault)
    ensures !returned ==> events != [] && events[|events| - 1] in {Record(fault), Notify(fault)}
    ensures forall i :: 0 <= i < |events| - 1 ==> !events[i].ParentReport?
    ensures !returned ==> ParentReport(fault) !in events
    // a notification is preceded by the subject and the message format
    ensures forall j :: 0 <= j < |events| && events[j].Notify? ==>
      2 <= j && events[j - 2] == SetSubject(Subject(settings.channel, date)) && events[j - 1] == SetMessage
    // recording comes before notifying
    ensures forall i, j :: 0 <= i < |events| && 0 <= j < |events| && events[i].Record? && events[j].Notify? ==> i < j
  {
    events, returned := [], true;
    if shouldReport {
      if lernBound {
        var recordEnabled := settings.recordEnabled;
        var notifyEnabled := settings.notifyEnabled;
        if recordEnabled {
          events := events + [Record(fault)];
          if recordThrows {
            returned := false;
            return;
          }
        }
        if notifyEnabled {
          events := events + [SetSubject(Subject(settings.channel, date)), SetMessage];
          events := events + [Notify(fault)];
          if notifyThrows {
            returned := false;
            return;
          }
        }
      }
    }
    events := events + [ParentReport(fault)];
  }
}
