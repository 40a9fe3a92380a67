/**
 * The subject line that the handler gives the notification add-on before
 * each notification: the channel name in brackets, a fixed announcement and
 * the time of the report. The clock reading, already formatted as
 * "D M d, Y G:i", is passed in as the date string.
 */
module NotificationSubject {

  const Announcement := "]: An Exception was thrown! ("
  const Closing := " UTC)"

  function Subject(channel: string, date: string): (r: string)
    ensures |r| == 1 + |channel| + |Announcement| + |date| + |Closing|
    // "[" channel, the announcement, the date, " UTC)" — each at its place
    ensures r[..1] == "[" && r[1..1 + |channel|] == channel
    ensures r[1 + |channel|..1 + |channel| + |Announcement|] == Announcement
    ensures r[1 + |channel| + |Announcement|..1 + |channel| + |Announcement| + |date|] == date
    ensures r[|r| - |Closing|..] == Closing
  {
    "[" + channel + Announcement + date + Closing
  }

  /** On a fixed channel, two subjects are equal only when their dates are. */
  lemma SubjectDeterminesDate(channel: string, date: string, otherDate: string)
    requires Subject(channel, date) == Subject(channel, otherDate)
    ensures date == otherDate
  {
  }

  /** For a fixed date, two subjects are equal only when their channels are. */
  lemma SubjectDeterminesChannel(channel: string, otherChannel: string, date: string)
    requires Subject(channel, date) == Subject(otherChannel, date)
    ensures channel == otherChannel
  {
  }
}
