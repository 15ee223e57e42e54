# Mailer: bounded mail log and mode dispatch

A Dafny model of `OpenCore\Utils\Mailer`, a static helper that sends a
plain-text or HTML mail either through an SMTP relay or, for development,
by appending it to a local JSON log `logs/mail.log`. Each append evicts at
most one entry. While `MAX_LOG_SIZE` stays at 16 and only this class writes
the file, the log holds at most 16 entries. A log already longer than a
lowered cap keeps its length on every append.

- `mail_log.dfy`, module `MailLog`: the log entry `{to, subject, body, alt,
  time}`, the abstract state of the log file (absent, of size 0, or holding
  content that decodes to a list of entries or to nothing usable), the read
  of that file (`getMailLog`), and the append-then-evict step of
  `sendUsingLog` as a function on the decoded list, with the lemmas that
  describe what repeated appends leave behind.
- `mailer.dfy`, module `Mailer`: the switch on `EMAIL_METHOD`, and a class
  `Mailer` whose two fields are the static `MAX_LOG_SIZE` and the state of
  the log file. `sendUsingLog` reads, mutates and rewrites the file.
  `sendTextMail`/`sendHtmlMail` forward to `genericSendMail` with the HTML
  flag set to false or true. `genericSendMail` reaches `sendUsingLog` only
  for the mode `"LOG"`. These are methods that update the file field.

The switch compares the setting against the literal `'STMP'`, not `'SMTP'`.
The model follows the code. `"STMP"` selects the SMTP sink, `"LOG"` selects
the log, and every other value, `"SMTP"` included, does nothing. The sink
that `'STMP'` selects is `sendUsingSmtp`, which is configured from
`SMTP_HOST`, `SMTP_USER`, `SMTP_PASS` and `SMTP_PORT`
(src/Utils/Mailer.php:83-97). So `'STMP'` reads as a misspelling, and as
written, `EMAIL_METHOD=SMTP` silently drops every mail.

The environment value of `EMAIL_METHOD` is an `Option<string>`: `None`
stands for an unset variable, where `getenv` returns `false`. PHP's `switch`
compares loosely. Both literals are non-numeric strings, so loose equality
is string equality here, and `false` equals neither.

`MAX_LOG_SIZE` is a mutable public static. It is a field of any integer
value, 16 after construction. The contracts also cover a cap of zero or
less: the shift then empties a log that held only the new entry.

The clock (`time()`) and `strip_tags($body, '<a>')` are parameters: `now`
and a function `stripTags`.

## Model

| member | source | states |
|---|---|---|
| `MailLog.GetMailLog` | src/Utils/Mailer.php:27-42 | a missing file, a file of size 0 and content that decodes to nothing usable all read as the empty log; a stored list reads as itself |
| `MailLog.NewEntry` | src/Utils/Mailer.php:61-67 | the appended entry carries the given recipients, subject, body and time; `alt` is absent exactly for a plain-text mail and is the stripped body for an HTML mail |
| `MailLog.BoundedAppend` | src/Utils/Mailer.php:61-71 | within the cap the old log is an unchanged prefix of the new one; over the cap exactly the oldest entry is removed and the others keep their order; the new entry is last; a log within the cap stays within it, and one already over it keeps its length |
| `MailLog.AppendAllKeepsNewest` | src/Utils/Mailer.php:59-71 | appending entries one by one to a log within the cap leaves the newest `cap` entries of the old log followed by the appended ones, in append order |
| `MailLog.FromEmptyKeepsLastAppended` | src/Utils/Mailer.php:59-71 | from an empty log, N appends leave exactly the last min(N, cap) appended entries, oldest first |
| `Mailer.Dispatch` | src/Utils/Mailer.php:20-25 | the SMTP sink is chosen exactly for the value "STMP" and the log sink exactly for "LOG"; anything else chooses no sink |
| `Mailer.SmtpSpellingSelectsNothing` | src/Utils/Mailer.php:21-24 | the value "SMTP" and an unset variable both select no sink |
| `Mailer.Mailer.constructor` | src/Utils/Mailer.php:10 | `MAX_LOG_SIZE` starts at 16 |
| `Mailer.Mailer.SendUsingLog` | src/Utils/Mailer.php:52-81 | the file afterwards holds the bounded append of the new entry to what the file read as; a log within `MAX_LOG_SIZE` stays within it |
| `Mailer.Mailer.GenericSendMail` | src/Utils/Mailer.php:20-25 | the sink used is the one `Dispatch` selects; only the log sink changes the file, and it appends one entry |
| `Mailer.Mailer.SendTextMail` | src/Utils/Mailer.php:12-14 | with the log sink, the file gains an entry whose `alt` is null; otherwise the file is unchanged |
| `Mailer.Mailer.SendHtmlMail` | src/Utils/Mailer.php:16-18 | with the log sink, the file gains an entry whose `alt` is the stripped body; otherwise the file is unchanged |

## Left out

- File opening, `flock` shared and exclusive locking, truncation, seeking, writing and `clearstatcache`: these are operating-system I/O and inter-process concurrency. The file is a single field, and each call is one atomic step.
- `SendUsingLog`: does not model a failed `json_encode`. PHP strings are byte strings, and this model's strings are Unicode. A subject, body or recipient that is not valid UTF-8 makes `json_encode` return `false`, because no partial-output flag is set. The file has already been truncated, so nothing is written and the whole log is erased. The model always writes the appended list back.
- `SendUsingLog`: a `$to` other than a string or a list of strings cannot be represented in `Recipients`. This covers null, an integer and an associative array.
- JSON encoding and decoding and their flags: the decoded contents are abstract (`Decoded`). Content that decodes to a non-list value other than `null` is not modelled.
- `strip_tags` keeps only `<a>` tags, and its HTML semantics are not modelled. It is an uninterpreted function parameter.
- The SMTP sink (`sendUsingSmtp`, lines 83-116) is not modelled. This covers the PHPMailer configuration from the environment, the `(array)$to` recipient list, the network send and the wrapping of its failure in `MailerException`. It is a foreign library plus network I/O. The model only records that this sink leaves the log untouched.
- `getenv` and `time()` are environment and clock reads. They are parameters (`mode`, `now`).
