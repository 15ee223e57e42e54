/**
 The bounded mail log of `Mailer` (src/Utils/Mailer.php): the entries it
 records, the abstract state of the file `logs/mail.log`, how that file is
 read back, and the append-then-evict step that keeps a log within
 `MAX_LOG_SIZE` entries within it. A log already over a lowered cap keeps
 its length, because each append evicts at most one entry.
 */
module MailLog {

  datatype Option<+T> = None | Some(value: T)

  /** The `$to` argument: either one address or a list of addresses.
      The log stores it as given. */
  datatype Recipients = One(address: string) | Many(addresses: seq<string>)

  /** One record of the log: `{to, subject, body, alt, time}`.
      `alt` is `null` (None) for a plain-text mail. */
  datatype Entry = Entry(
    to: Recipients,
    subject: string,
    body: string,
    alt: Option<string>,
    time: int)

  /** What `json_decode` makes of a non-empty file: a list of entries, or
      nothing usable (`null`). */
  datatype Decoded = Undecodable | Entries(entries: seq<Entry>)

  /** The state of the log file: not there yet, there but of size 0, or
      holding some content. */
  datatype LogFile = Absent | Blank | Holding(content: Decoded)

  /** `getMailLog`: a missing file, an empty file and content that decodes
      to a falsy value (null, or the empty list) all read as the empty log;
      a stored list reads as itself. */
  function GetMailLog(file: LogFile): (log: seq<Entry>)
    ensures file.Holding? && file.content.Entries? ==> log == file.content.entries
    ensures file == Absent || file == Blank || file == Holding(Undecodable) ==> log == []
  {
    match file
    case Holding(Entries(s)) => s
    case _ => []
  }

  /** The entry `sendUsingLog` appends: the alternative body is the stripped
      HTML body for an HTML mail and absent for a plain-text one. */
  function NewEntry(to: Recipients, subject: string, body: string, isHtml: bool,
                    now: int, stripTags: string -> string): (e: Entry)
    ensures e.alt.None? <==> !isHtml
    ensures isHtml ==> e.alt.value == stripTags(body)
    ensures e.to == to && e.subject == subject && e.body == body && e.time == now
  {
    Entry(to, subject, body, if isHtml then Some(stripTags(body)) else None, now)
  }

  /** One `sendUsingLog` step on the decoded list: push `e` at the end,
      then, if the list is now longer than `cap`, shift off index 0 once. */
  function BoundedAppend(log: seq<Entry>, e: Entry, cap: int): (r: seq<Entry>)
    // within the cap nothing is removed: the old log is an unchanged prefix
    ensures |log| + 1 <= cap ==> r == log + [e]
    // over the cap exactly the oldest entry goes; the rest keep their order
    ensures |log| + 1 > cap ==> log + [e] == [(log + [e])[0]] + r
    // the new entry comes last, unless a non-positive cap emptied the log
    ensures cap > 0 || |log| > 0 ==> |r| > 0 && r[|r| - 1] == e
    // a log within the cap stays within it; one over it keeps its length
    ensures |log| <= cap ==> |r| <= cap
    ensures |log| > cap ==> |r| == |log|
  {
    var data := log + [e];
    if |data| > cap then data[1..] else data
  }

  /** Successive `sendUsingLog` steps, one per entry of `es`, in order. */
  function AppendAll(log: seq<Entry>, es: seq<Entry>, cap: int): (r: seq<Entry>)
    decreases |es|
  {
    if es == [] then log
    else AppendAll(BoundedAppend(log, es[0], cap), es[1..], cap)
  }

  /** The last `min(|s|, n)` elements of `s`, in order. */
  function Newest(s: seq<Entry>, n: nat): (r: seq<Entry>)
    ensures |r| == if |s| <= n then |s| else n
    ensures forall i :: 0 <= i < |r| ==> r[i] == s[|s| - |r| + i]
  {
    if |s| <= n then s else s[|s| - n..]
  }

  /** Keeping the newest `n` of a sequence and then of its extension is the
      same as keeping the newest `n` of the extension. */
  lemma NewestOfExtended(s: seq<Entry>, t: seq<Entry>, n: nat)
    ensures Newest(Newest(s, n) + t, n) == Newest(s + t, n)
  {
    if |s| > n {
      var u, v := s[|s| - n..] + t, s + t;
      assert Newest(s, n) == s[|s| - n..];
      assert u == v[|s| - n..];
      var a, b := Newest(u, n), Newest(v, n);
      forall i | 0 <= i < n ensures a[i] == b[i] {
        assert a[i] == u[|t| + i];
        assert b[i] == v[|s| + |t| - n + i];
      }
    }
  }

  /** A log within the cap is turned by one append into the newest `cap`
      entries of the old log followed by the new one. */
  lemma BoundedAppendIsNewest(log: seq<Entry>, e: Entry, cap: int)
    requires |log| <= cap
    ensures BoundedAppend(log, e, cap) == Newest(log + [e], cap)
  {
  }

  /** Appending entries one by one to a log within the cap leaves exactly
      the newest `cap` entries of the old log followed by the appended
      ones, in append order. */
  lemma {:induction false} AppendAllKeepsNewest(log: seq<Entry>, es: seq<Entry>, cap: nat)
    requires |log| <= cap
    ensures AppendAll(log, es, cap) == Newest(log + es, cap)
    decreases |es|
  {
    if es == [] {
      assert log + es == log;
    } else {
      var e, rest := es[0], es[1..];
      var next := BoundedAppend(log, e, cap);
      assert log + es == (log + [e]) + rest by {
        assert es == [e] + rest;
      }
      BoundedAppendIsNewest(log, e, cap);
      AppendAllKeepsNewest(next, rest, cap);
      NewestOfExtended(log + [e], rest, cap);
      calc {
        AppendAll(log, es, cap);
        AppendAll(next, rest, cap);
        Newest(next + rest, cap);
        Newest(Newest(log + [e], cap) + rest, cap);
        Newest((log + [e]) + rest, cap);
      }
    }
  }

  /** Starting from an empty log, `N` appends leave the last `min(N, cap)`
      appended entries, oldest first. */
  lemma FromEmptyKeepsLastAppended(es: seq<Entry>, cap: nat)
    ensures |AppendAll([], es, cap)| == if |es| <= cap then |es| else cap
    ensures AppendAll([], es, cap) == es[|es| - |AppendAll([], es, cap)|..]
  {
    AppendAllKeepsNewest([], es, cap);
    assert [] + es == es;
  }
}
