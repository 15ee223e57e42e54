/**
 The static helper `Mailer` (src/Utils/Mailer.php): mode dispatch on the
 `EMAIL_METHOD` setting, the two public send operations and the log sink,
 whose read-modify-write of `logs/mail.log` is modelled as an update of
 the object's `logFile` field.
 */
module Mailer {
  import opened MailLog

  /** Where one send goes: the SMTP relay, the local log, or nowhere. */
  datatype Sink = SmtpSink | LogSink | NoSink

  /** `genericSendMail`'s switch on `getenv('EMAIL_METHOD')` (None when the
      variable is unset). The SMTP case compares against the literal "STMP",
      so the value "SMTP" selects no sink at all. */
  function Dispatch(mode: Option<string>): (s: Sink)
    ensures s == SmtpSink <==> mode == Some("STMP")
    ensures s == LogSink <==> mode == Some("LOG")
  {
    match mode
    case Some("STMP") => SmtpSink
    case Some("LOG") => LogSink
    case _ => NoSink
  }

  /** The setting spelt "SMTP" does nothing, and neither does an unset one. */
  lemma SmtpSpellingSelectsNothing()
    ensures Dispatch(Some("SMTP")) == NoSink
    ensures Dispatch(None) == NoSink
  {
  }

  class Mailer {
    /** `Mailer::$MAX_LOG_SIZE`, a public static that callers may change. */
    var maxLogSize: int
    /** The state of `logs/mail.log`. */
    var logFile: LogFile

    constructor (file: LogFile)
      ensures maxLogSize == 16 && logFile == file
    {
      maxLogSize := 16;
      logFile := file;
    }

    /** `sendUsingLog`: read the stored list (nothing usable reads as the
        empty list), append the new entry, shift off the oldest entry if
        the list is now longer than `maxLogSize`, and write the list back. */
    method SendUsingLog(to: Recipients, subject: string, body: string, isHtml: bool,
                        now: int, stripTags: string -> string)
      modifies this`logFile
      ensures logFile.Holding? && logFile.content.Entries?
      ensures logFile.content.entries
           == BoundedAppend(GetMailLog(old(logFile)), NewEntry(to, subject, body, isHtml, now, stripTags), maxLogSize)
      ensures |GetMailLog(old(logFile))| <= maxLogSize ==> |GetMailLog(logFile)| <= maxLogSize
    {
      var data := GetMailLog(logFile);
      data := data + [NewEntry(to, subject, body, isHtml, now, stripTags)];
      if |data| > maxLogSize {
        data := data[1..];
      }
      logFile := Holding(Entries(data));
    }

    /** `genericSendMail`: the log sink appends one entry; the SMTP sink and
        an unrecognised mode leave the log as it was. */
    method GenericSendMail(mode: Option<string>, to: Recipients, subject: string, body: string,
                           isHtml: bool, now: int, stripTags: string -> string)
      returns (sink: Sink)
      modifies this`logFile
      ensures sink == Dispatch(mode)
      ensures sink == LogSink ==> logFile == Holding(Entries(BoundedAppend(
                GetMailLog(old(logFile)), NewEntry(to, subject, body, isHtml, now, stripTags), maxLogSize)))
      ensures sink != LogSink ==> logFile == old(logFile)
    {
      sink := Dispatch(mode);
      match sink
      case SmtpSink =>
      case LogSink => SendUsingLog(to, subject, body, isHtml, now, stripTags);
      case NoSink =>
    }

    /** `sendTextMail`: a plain-text mail; a logged entry has no `alt`. */
    method SendTextMail(mode: Option<string>, to: Recipients, subject: string, body: string,
                        now: int, stripTags: string -> string)
      returns (sink: Sink)
      modifies this`logFile
      ensures sink == Dispatch(mode)
      ensures sink == LogSink ==> logFile == Holding(Entries(BoundedAppend(
                GetMailLog(old(logFile)), Entry(to, subject, body, None, now), maxLogSize)))
      ensures sink != LogSink ==> logFile == old(logFile)
    {
      sink := GenericSendMail(mode, to, subject, body, false, now, stripTags);
    }

    /** `sendHtmlMail`: an HTML mail; a logged entry carries the stripped
        body as `alt`. */
    method SendHtmlMail(mode: Option<string>, to: Recipients, subject: string, body: string,
                        now: int, stripTags: string -> string)
      returns (sink: Sink)
      modifies this`logFile
      ensures sink == Dispatch(mode)
      ensures sink == LogSink ==> logFile == Holding(Entries(BoundedAppend(
                GetMailLog(old(logFile)), Entry(to, subject, body, Some(stripTags(body)), now), maxLogSize)))
      ensures sink != LogSink ==> logFile == old(logFile)
    {
      sink := GenericSendMail(mode, to, subject, body, true, now, stripTags);
    }
  }
}
