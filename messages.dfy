/** The text handling of commands.js around its in-sheet log and its
    notification dialog: how `logToSheet` combines the text already in cell
    A1 of the log sheet with a new stamped entry, how an array of lines is
    joined, and how `notify` escapes '<' before embedding the message in
    HTML. The clock (`new Date().toISOString()`) is a parameter, `stamp`. */
module Messages {
  import opened Text

  /** What cell A1 of the log sheet held when it was loaded. Only text is
      modelled: the log cell is written by this code alone. */
  datatype Cell = Empty | Str(text: string)

  /** The argument of `logToSheet`: an array of lines or a single message. */
  datatype LogArg = Lines(lines: seq<string>) | Message(text: string)

  /** `existing`: the cell's text, or "" when the cell is empty. */
  function ExistingLog(a1: Cell): string
  {
    match a1
    case Empty => ""
    case Str(t) => t
  }

  /** `Array.prototype.join("\n")`. */
  function Join(lines: seq<string>): (s: string)
    ensures |lines| == 1 ==> s == lines[0]
  {
    if |lines| == 0 then ""
    else if |lines| == 1 then lines[0]
    else lines[0] + "\n" + Join(lines[1..])
  }

  /** `String.prototype.split("\n")`, the inverse of Join. */
  function Split(s: string): (parts: seq<string>)
    ensures |parts| >= 1
  {
    if '\n' !in s then [s]
    else
      var i := FirstNewline(s);
      [s[..i]] + Split(s[i + 1..])
  }

  function FirstNewline(s: string): (i: nat)
    requires '\n' in s
    ensures i < |s| && s[i] == '\n' && '\n' !in s[..i]
  {
    if s[0] == '\n' then 0 else 1 + FirstNewline(s[1..])
  }

  /** Lines that contain no newline are recovered from their join. */
  lemma {:induction false} SplitJoin(lines: seq<string>)
    requires |lines| >= 1
    requires forall k :: 0 <= k < |lines| ==> '\n' !in lines[k]
    ensures Split(Join(lines)) == lines
  {
    if |lines| > 1 {
      SplitJoin(lines[1..]);
      SplitAfterLine(lines[0], Join(lines[1..]));
      assert lines == [lines[0]] + lines[1..];
    }
  }

  /** Split takes a line with no newline of its own off the front. */
  lemma SplitAfterLine(head: string, tail: string)
    requires '\n' !in head
    ensures Split(head + "\n" + tail) == [head] + Split(tail)
  {
    var s := head + "\n" + tail;
    assert s[|head|] == '\n';
    assert s[..|head|] == head;
    FirstNewlineAt(s, |head|);
    assert s[|head| + 1..] == tail;
  }

  lemma FirstNewlineAt(s: string, i: nat)
    requires i < |s| && s[i] == '\n' && '\n' !in s[..i]
    ensures FirstNewline(s) == i
  {
  }

  /** `add`: the lines joined with "\n", or the message itself. */
  function AddText(arg: LogArg): string
  {
    match arg
    case Lines(ls) => Join(ls)
    case Message(t) => t
  }

  /** One log entry: `[${stamp}] ${add}`. */
  function Entry(stamp: string, add: string): (e: string)
    ensures |e| > 0 && e[0] == '['
  {
    "[" + stamp + "] " + add
  }

  /** `combined`: the previous text, a newline when there was any, then the
      new entry. The log only grows at its end. */
  function Appended(existing: string, entry: string): (combined: string)
    ensures |combined| >= |existing| + |entry|
    ensures combined[..|existing|] == existing
    ensures combined[|combined| - |entry|..] == entry
    ensures existing != "" ==> |combined| == |existing| + 1 + |entry| && combined[|existing|] == '\n'
    ensures existing == "" ==> combined == entry
  {
    (if existing != "" then existing + "\n" else "") + entry
  }

  /** The text `logToSheet` writes back into A1. */
  function LogToSheet(a1: Cell, stamp: string, arg: LogArg): (combined: string)
    ensures var existing := ExistingLog(a1);
      |combined| > |existing| &&
      combined[..|existing|] == existing &&
      combined[|existing|..] == (if existing == "" then "" else "\n") + Entry(stamp, AddText(arg))
  {
    var existing := ExistingLog(a1);
    var combined := Appended(existing, Entry(stamp, AddText(arg)));
    assert combined == existing + combined[|existing|..];
    combined
  }

  /** The log after writing `entries` one call at a time, starting from `log`. */
  function Replay(log: string, entries: seq<string>): string
    decreases |entries|
  {
    if entries == [] then log else Replay(Appended(log, entries[0]), entries[1..])
  }

  /** Starting from an empty cell, the log is exactly the entries joined by
      newlines, in the order they were written. */
  lemma {:induction false} ReplayFromEmpty(entries: seq<string>)
    requires forall k :: 0 <= k < |entries| ==> entries[k] != ""
    ensures Replay("", entries) == Join(entries)
  {
    ReplayJoin([], entries);
    assert [] + entries == entries;
  }

  lemma {:induction false} ReplayJoin(done: seq<string>, entries: seq<string>)
    requires forall k :: 0 <= k < |done| ==> done[k] != ""
    requires forall k :: 0 <= k < |entries| ==> entries[k] != ""
    ensures Replay(Join(done), entries) == Join(done + entries)
    decreases |entries|
  {
    if entries != [] {
      var next := done + [entries[0]];
      AppendedJoin(done, entries[0]);
      assert Replay(Join(done), entries) == Replay(Join(next), entries[1..]);
      ReplayJoin(next, entries[1..]);
      assert next + entries[1..] == done + entries;
    } else {
      assert done + entries == done;
    }
  }

  lemma {:induction false} AppendedJoin(done: seq<string>, e: string)
    requires forall k :: 0 <= k < |done| ==> done[k] != ""
    requires e != ""
    ensures Appended(Join(done), e) == Join(done + [e])
    decreases |done|
  {
    if |done| == 1 {
      assert done + [e] == [done[0], e];
      assert Join([done[0], e]) == done[0] + "\n" + Join([e]);
    } else if |done| > 1 {
      var tail := done[1..];
      AppendedJoin(tail, e);
      JoinNonEmpty(tail);
      JoinNonEmpty(done);
      assert (done + [e])[0] == done[0] && (done + [e])[1..] == tail + [e];
      calc {
        Join(done + [e]);
        done[0] + "\n" + Join(tail + [e]);
        done[0] + "\n" + Appended(Join(tail), e);
        done[0] + "\n" + (Join(tail) + "\n" + e);
        (done[0] + "\n" + Join(tail)) + "\n" + e;
        Join(done) + "\n" + e;
        Appended(Join(done), e);
      }
    }
  }

  lemma JoinNonEmpty(lines: seq<string>)
    requires |lines| >= 1 && lines[0] != ""
    ensures Join(lines) != ""
  {
  }

  // ---------- notify ----------

  /** `(message || "").replace(/</g, "&lt;")`: every '<' becomes "&lt;",
      every other character is kept. A missing message is the empty text. */
  function EscapeLt(message: string): (html: string)
    ensures '<' !in html
    ensures |html| >= |message|
    ensures '<' !in message ==> html == message
  {
    if message == [] then []
    else (if message[0] == '<' then "&lt;" else [message[0]]) + EscapeLt(message[1..])
  }

  /** The escape works character by character: escaping a message in two
      parts and joining the results escapes the whole message, so the
      characters keep their order and only each '<' is replaced. */
  lemma {:induction false} EscapeLtConcat(a: string, b: string)
    ensures EscapeLt(a + b) == EscapeLt(a) + EscapeLt(b)
    decreases |a|
  {
    if a == [] {
      assert a + b == b;
    } else {
      assert (a + b)[0] == a[0] && (a + b)[1..] == a[1..] + b;
      EscapeLtConcat(a[1..], b);
    }
  }

  /** On one character: '<' becomes "&lt;", any other character stays. */
  lemma EscapeLtChar(c: char)
    ensures c == '<' ==> EscapeLt([c]) == "&lt;"
    ensures c != '<' ==> EscapeLt([c]) == [c]
  {
    assert [c][1..] == [];
  }

  function NotifyBody(message: Option<string>): string
  {
    match message
    case None => ""
    case Some(m) => EscapeLt(m)
  }

  /** How a browser reads "&lt;" back: the entity becomes '<'. */
  function UnescapeLt(html: string): string
  {
    if |html| >= 4 && html[..4] == "&lt;" then "<" + UnescapeLt(html[4..])
    else if html == [] then []
    else [html[0]] + UnescapeLt(html[1..])
  }

  /** The dialog shows the message as written whenever the message has no
      '&' of its own ('&' is not escaped, so "&lt;" typed by the user would
      show as '<'). */
  lemma {:induction false} UnescapeEscape(message: string)
    requires '&' !in message
    ensures UnescapeLt(EscapeLt(message)) == message
  {
    if message != [] {
      var rest := EscapeLt(message[1..]);
      UnescapeEscape(message[1..]);
      if message[0] == '<' {
        assert EscapeLt(message) == "&lt;" + rest;
        UnescapeEntity(rest);
      } else {
        assert EscapeLt(message) == [message[0]] + rest;
        UnescapeOther(message[0], rest);
      }
      assert message == [message[0]] + message[1..];
    }
  }

  /** Why `UnescapeEscape` needs a message without '&': the text "&lt;"
      typed by the user is not escaped and shows as "<". */
  lemma TypedEntityShowsLt()
    ensures EscapeLt("&lt;") == "&lt;"
    ensures UnescapeLt(EscapeLt("&lt;")) == "<"
  {
    UnescapeEntity("");
    assert "&lt;" + "" == "&lt;";
  }

  /** "&lt;" at the front reads back as '<'. */
  lemma UnescapeEntity(rest: string)
    ensures UnescapeLt("&lt;" + rest) == "<" + UnescapeLt(rest)
  {
    assert ("&lt;" + rest)[..4] == "&lt;" && ("&lt;" + rest)[4..] == rest;
  }

  /** A character other than '&' at the front reads back as itself. */
  lemma UnescapeOther(c: char, rest: string)
    requires c != '&'
    ensures UnescapeLt([c] + rest) == [c] + UnescapeLt(rest)
  {
    var h := [c] + rest;
    assert h[0] == c;
    assert |h| >= 4 ==> h[..4][0] == c;
    assert h[1..] == rest;
  }
}
