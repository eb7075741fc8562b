/**
 * The server's action log (api/logger.js): the line `logAction` appends and
 * the tail `getLogs` reads back. The file is a string field; the clock's
 * formatted timestamp and `JSON.stringify(data)` are parameters.
 */
module Logger {
  import opened Wrappers
  import opened Text

  const NL: char := '\n'

  /** `s.split("\n")`: always at least one piece, none containing a newline. */
  function Split(s: string): (r: seq<string>)
    ensures |r| >= 1
    ensures forall i :: 0 <= i < |r| ==> NL !in r[i]
  {
    if s == [] then [[]]
    else
      var rest := Split(s[1..]);
      if s[0] == NL then [[]] + rest else [[s[0]] + rest[0]] + rest[1..]
  }

  /** `parts.join("\n")`. */
  function Join(parts: seq<string>): string
    requires |parts| >= 1
  {
    if |parts| == 1 then parts[0] else parts[0] + [NL] + Join(parts[1..])
  }

  lemma {:induction false} JoinCons(c: char, parts: seq<string>)
    requires |parts| >= 1
    ensures Join([[c] + parts[0]] + parts[1..]) == [c] + Join(parts)
  {
    var q := [[c] + parts[0]] + parts[1..];
    assert q[1..] == parts[1..];
  }

  /** Splitting and joining again gives back the text. */
  lemma {:induction false} JoinSplit(s: string)
    ensures Join(Split(s)) == s
  {
    if s != [] {
      JoinSplit(s[1..]);
      var rest := Split(s[1..]);
      if s[0] == NL {
        assert ([[]] + rest)[1..] == rest;
      } else {
        JoinCons(s[0], rest);
      }
      assert s == [s[0]] + s[1..];
    }
  }

  /** A text without newline is a single piece. */
  lemma {:induction false} SplitSingle(s: string)
    requires NL !in s
    ensures Split(s) == [s]
  {
    if s != [] {
      assert NL !in s[1..] by {
        forall k | 0 <= k < |s[1..]| ensures s[1..][k] != NL {
          assert s[1..][k] == s[k + 1] && s[k + 1] in s;
        }
      }
      SplitSingle(s[1..]);
      assert s == [s[0]] + s[1..];
    }
  }

  /** Splitting at a newline splits each side on its own. */
  lemma {:induction false} SplitAround(a: string, b: string)
    ensures Split(a + [NL] + b) == Split(a) + Split(b)
  {
    if a == [] {
      assert a + [NL] + b == [NL] + b;
      SplitCons(NL, b);
    } else {
      var t := a[1..] + [NL] + b;
      assert a + [NL] + b == [a[0]] + t;
      assert a == [a[0]] + a[1..];
      SplitAround(a[1..], b);
      SplitCons(a[0], t);
      SplitCons(a[0], a[1..]);
      PrependPiece(a[0], Split(a[1..]), Split(b));
    }
  }

  /** Splitting a text that starts with `c`. */
  lemma SplitCons(c: char, s: string)
    ensures Split([c] + s) == if c == NL then [[]] + Split(s) else [[c] + Split(s)[0]] + Split(s)[1..]
  {
    assert ([c] + s)[1..] == s;
  }

  /** Prepending a character to the first piece commutes with appending more pieces. */
  lemma PrependPiece(c: char, x: seq<string>, y: seq<string>)
    requires |x| >= 1
    ensures (if c == NL then [[]] + (x + y) else [[c] + (x + y)[0]] + (x + y)[1..])
      == (if c == NL then [[]] + x else [[c] + x[0]] + x[1..]) + y
  {
    assert (x + y)[0] == x[0] && (x + y)[1..] == x[1..] + y;
  }

  /** Joining pieces without newlines and splitting again gives back the pieces. */
  lemma {:induction false} SplitJoin(parts: seq<string>)
    requires |parts| >= 1 && forall i :: 0 <= i < |parts| ==> NL !in parts[i]
    ensures Split(Join(parts)) == parts
  {
    SplitSingle(parts[0]);
    if |parts| > 1 {
      SplitJoin(parts[1..]);
      SplitAround(parts[0], Join(parts[1..]));
      assert parts == [parts[0]] + parts[1..];
    }
  }

  /** The lines `getLogs` keeps: those not blank after trimming. */
  function NonBlank(lines: seq<string>): (r: seq<string>)
    ensures forall l :: l in r <==> l in lines && !Blank(l)
    ensures |r| <= |lines|
  {
    if lines == [] then []
    else (if Blank(lines[0]) then [] else [lines[0]]) + NonBlank(lines[1..])
  }

  lemma {:induction false} NonBlankAppend(a: seq<string>, b: seq<string>)
    ensures NonBlank(a + b) == NonBlank(a) + NonBlank(b)
  {
    if a != [] {
      assert (a + b)[0] == a[0] && (a + b)[1..] == a[1..] + b;
      NonBlankAppend(a[1..], b);
    } else {
      assert a + b == b;
    }
  }

  /**
   * `getLogs(limit)`: `content` is the file (`None` when it cannot be read)
   * and `limit` the argument (`None` when omitted).
   */
  function GetLogs(content: Option<string>, limit: Option<int>): seq<string> {
    match content
    case None => []
    case Some(text) => SliceFrom(NonBlank(Split(text)), -limit.GetOr(100))
  }

  /**
   * A positive limit gives the last `limit` non-blank lines (all of them if
   * there are fewer), in file order; a missing limit means 100; a limit of
   * 0 gives every non-blank line; an unreadable file gives nothing.
   */
  lemma GetLogsTail(text: string, limit: Option<int>)
    ensures var lines := NonBlank(Split(text));
      var n := limit.GetOr(100);
      var r := GetLogs(Some(text), limit);
      && (n > 0 ==> |r| == (if n < |lines| then n else |lines|) && r == lines[|lines| - |r|..])
      && (limit.None? ==> r == GetLogs(Some(text), Some(100)))
      && (n == 0 ==> r == lines)
      && (forall l :: l in r ==> !Blank(l) && NL !in l)
    ensures GetLogs(None, limit) == []
  {
    GetLogsCount(text, limit);
    GetLogsLines(text, limit);
  }

  /** How many lines `getLogs` returns, and which. */
  lemma GetLogsCount(text: string, limit: Option<int>)
    ensures var lines := NonBlank(Split(text));
      var n := limit.GetOr(100);
      var r := GetLogs(Some(text), limit);
      && (n > 0 ==> |r| == (if n < |lines| then n else |lines|) && r == lines[|lines| - |r|..])
      && (limit.None? ==> r == GetLogs(Some(text), Some(100)))
      && (n == 0 ==> r == lines)
  {
    var lines := NonBlank(Split(text));
    var n := limit.GetOr(100);
    assert GetLogs(Some(text), limit) == SliceFrom(lines, -n);
    SliceFromEnd(lines, n);
  }

  /** Every line `getLogs` returns is non-blank and holds no newline. */
  lemma GetLogsLines(text: string, limit: Option<int>)
    ensures forall l :: l in GetLogs(Some(text), limit) ==> !Blank(l) && NL !in l
  {
    var lines := NonBlank(Split(text));
    var r := SliceFrom(lines, -limit.GetOr(100));
    assert GetLogs(Some(text), limit) == r;
    SliceFromEnd(lines, limit.GetOr(100));
    LinesOfLog(text);
    forall l | l in r ensures !Blank(l) && NL !in l {
      assert l in lines;
    }
  }

  /** `xs.slice(-n)`: for a positive `n` the last `n` elements, or all of them; for 0 all of them. */
  lemma SliceFromEnd<T>(xs: seq<T>, n: int)
    ensures var r := SliceFrom(xs, -n);
      && (n > 0 ==> |r| == (if n < |xs| then n else |xs|) && r == xs[|xs| - |r|..])
      && (n == 0 ==> r == xs)
      && (forall x :: x in r ==> x in xs)
  {
  }

  /** Every line `getLogs` can return is non-blank and holds no newline. */
  lemma LinesOfLog(text: string)
    ensures forall l :: l in NonBlank(Split(text)) ==> !Blank(l) && NL !in l
  {
    var parts := Split(text);
    forall l | l in NonBlank(parts) ensures !Blank(l) && NL !in l {
      var m :| 0 <= m < |parts| && parts[m] == l;
    }
  }

  /** The text `logAction` appends; `userId` is `None` when the argument is omitted. */
  function LogLine(timestamp: string, action: string, userId: Option<string>, data: string): string {
    "[" + timestamp + "] [" + Upper(action) + "] [User: " + userId.GetOr("system") + "] " + data + [NL]
  }

  /** The line without its final newline, as `getLogs` returns it. */
  function LogEntry(timestamp: string, action: string, userId: Option<string>, data: string): string {
    "[" + timestamp + "] [" + Upper(action) + "] [User: " + userId.GetOr("system") + "] " + data
  }

  predicate NoNewline(timestamp: string, action: string, userId: Option<string>, data: string) {
    NL !in timestamp && NL !in action && NL !in userId.GetOr("system") && NL !in data
  }

  lemma LogLineShape(timestamp: string, action: string, userId: Option<string>, data: string)
    requires NoNewline(timestamp, action, userId, data)
    ensures LogLine(timestamp, action, userId, data) == LogEntry(timestamp, action, userId, data) + [NL]
    ensures NL !in LogEntry(timestamp, action, userId, data) && !Blank(LogEntry(timestamp, action, userId, data))
    ensures LogEntry(timestamp, action, userId, data)[0] == '['
  {
    var e := LogEntry(timestamp, action, userId, data);
    assert !IsSpace(e[0]);
    var up := Upper(action);
    forall k | 0 <= k < |up| ensures up[k] != NL {
      assert action[k] in action;
    }
  }

  /** A file that is empty or ends with a newline, as `logAction` leaves it. */
  predicate WellFormed(text: string) {
    text == [] || text[|text| - 1] == NL
  }

  /** The pieces before the last of a well-formed file. */
  function Front(text: string): seq<string>
    requires WellFormed(text)
  {
    if text == [] then [] else Split(text[..|text| - 1])
  }

  /** Appending an entry and a newline to a well-formed file adds the entry and an empty piece. */
  lemma SplitAppendLine(text: string, e: string)
    requires WellFormed(text) && NL !in e
    ensures Split(text + e + [NL]) == Front(text) + [e, []]
  {
    SplitLastLine(text + e);
    if text == [] {
      assert text + e == e;
      SplitSingle(e);
    } else {
      var head := text[..|text| - 1];
      assert text + e == head + [NL] + e;
      SplitAround(head, e);
      SplitSingle(e);
    }
  }

  /** A trailing newline adds an empty last piece. */
  lemma SplitLastLine(s: string)
    ensures Split(s + [NL]) == Split(s) + [[]]
  {
    SplitAround(s, []);
    assert Split([]) == [[]];
    assert s + [NL] == s + [NL] + [];
  }

  /**
   * After a line is appended to a well-formed file, `getLogs(1)` returns
   * exactly that entry, and the file stays well formed.
   */
  lemma LatestEntry(text: string, timestamp: string, action: string, userId: Option<string>, data: string)
    requires WellFormed(text) && NoNewline(timestamp, action, userId, data)
    ensures WellFormed(text + LogLine(timestamp, action, userId, data))
    ensures GetLogs(Some(text + LogLine(timestamp, action, userId, data)), Some(1))
      == [LogEntry(timestamp, action, userId, data)]
  {
    var e := LogEntry(timestamp, action, userId, data);
    LogLineShape(timestamp, action, userId, data);
    assert text + LogLine(timestamp, action, userId, data) == text + e + [NL];
    SplitAppendLine(text, e);
    var front := Front(text);
    NonBlankAppend(front, [e, []]);
    assert NonBlank([e, []]) == [e] by {
      assert [e, []][1..] == [[]];
      assert Blank([]);
    }
    var lines := NonBlank(front) + [e];
    assert lines[|lines| - 1..] == [e];
  }

  /**
   * A line break in any part of the line splits it: `getLogs(1)` then no
   * longer returns the whole entry.
   */
  lemma BrokenEntryNotReadBack(text: string, timestamp: string, action: string, userId: Option<string>, data: string)
    requires !NoNewline(timestamp, action, userId, data)
    ensures GetLogs(Some(text + LogLine(timestamp, action, userId, data)), Some(1))
      != [LogEntry(timestamp, action, userId, data)]
  {
    var e := LogEntry(timestamp, action, userId, data);
    assert NL in e by {
      if NL in action {
        var k :| 0 <= k < |action| && action[k] == NL;
        assert Upper(action)[k] == NL;
      }
    }
    GetLogsTail(text + LogLine(timestamp, action, userId, data), Some(1));
  }

  class LogFile {
    var content: string

    predicate Valid()
      reads this
    {
      WellFormed(content)
    }

    constructor ()
      ensures content == "" && Valid()
    {
      content := "";
    }

    /** `logAction`: true iff the append succeeded (`appended` is the file system's answer). */
    method LogAction(timestamp: string, action: string, userId: Option<string>, data: string, appended: bool)
      returns (ok: bool)
      requires Valid()
      modifies this
      ensures Valid()
      ensures ok == appended
      ensures ok ==> content == old(content) + LogLine(timestamp, action, userId, data)
      ensures ok && NoNewline(timestamp, action, userId, data) ==>
        GetLogs(Some(content), Some(1)) == [LogEntry(timestamp, action, userId, data)]
      ensures !ok ==> content == old(content)
    {
      if appended {
        var line := LogLine(timestamp, action, userId, data);
        assert line[|line| - 1] == NL;
        assert (content + line)[|content + line| - 1] == NL;
        if NoNewline(timestamp, action, userId, data) {
          LatestEntry(content, timestamp, action, userId, data);
        }
        content := content + line;
      }
      ok := appended;
    }
  }
}
