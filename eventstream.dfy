/** How a receiver interprets a `text/event-stream` body, after the HTML Living Standard,
    section 9.2.6 "Interpreting an event stream": lines end at LF; a blank line dispatches
    the buffered data (without its final LF) as one message event; a `data` field appends
    its value and an LF to the data buffer; a leading colon marks a comment; other fields
    (`event`, `id`, `retry`) do not affect the data of message events and are ignored here. */
module EventStream {
  import opened Types

  datatype ParserState = ParserState(line: string, data: string, events: seq<string>)

  const Start := ParserState([], [], [])

  /** The position of the first `c` in `s`, if any. */
  function IndexOf(s: string, c: char): (r: Option<nat>)
    ensures r.Some? ==> r.value < |s| && s[r.value] == c && c !in s[..r.value]
    ensures r.None? ==> c !in s
  {
    if s == [] then None
    else if s[0] == c then Some(0)
    else
      match IndexOf(s[1..], c)
      case None => None
      case Some(k) =>
        assert s[..k + 1] == [s[0]] + s[1..][..k];
        Some(k + 1)
  }

  /** Field name and value of a non-blank, non-comment line; one space after the colon is dropped. */
  function SplitField(line: string): (string, string)
  {
    match IndexOf(line, ':')
    case None => (line, [])
    case Some(k) =>
      var value := line[k + 1..];
      (line[..k], if value != [] && value[0] == ' ' then value[1..] else value)
  }

  function ProcessLine(st: ParserState, line: string): ParserState
  {
    if line == [] then
      if st.data == [] then st
      else st.(data := [], events := st.events + [st.data[..|st.data| - 1]])
    else if line[0] == ':' then st
    else
      var (name, value) := SplitField(line);
      if name == "data" then st.(data := st.data + value + "\n") else st
  }

  function Feed(st: ParserState, c: char): ParserState
  {
    if c == '\n' then ProcessLine(st.(line := []), st.line) else st.(line := st.line + [c])
  }

  /** The parser state after reading `s`. */
  function FeedAll(st: ParserState, s: string): ParserState
    decreases s
  {
    if s == [] then st else FeedAll(Feed(st, s[0]), s[1..])
  }

  lemma {:induction false} FeedAllAppend(st: ParserState, a: string, b: string)
    ensures FeedAll(st, a + b) == FeedAll(FeedAll(st, a), b)
    decreases a
  {
    if a == [] {
      assert a + b == b;
    } else {
      assert (a + b)[0] == a[0] && (a + b)[1..] == a[1..] + b;
      FeedAllAppend(Feed(st, a[0]), a[1..], b);
    }
  }

  lemma {:induction false} FeedAllNoNewline(st: ParserState, x: string)
    requires '\n' !in x
    ensures FeedAll(st, x) == st.(line := st.line + x)
    decreases x
  {
    if x == [] {
      assert st.line + x == st.line;
    } else {
      assert '\n' !in x[1..] by { assert forall k :: 0 <= k < |x[1..]| ==> x[1..][k] == x[k + 1]; }
      FeedAllNoNewline(Feed(st, x[0]), x[1..]);
      assert st.line + [x[0]] + x[1..] == st.line + x;
    }
  }

  lemma DataLineField(p: string)
    ensures SplitField("data: " + p) == ("data", p)
  {
    var line := "data: " + p;
    assert line[..4] == "data" && line[4] == ':';
    assert ':' !in line[..4];
    assert IndexOf(line, ':') == Some(4) by {
      assert line[1..][0] == 'a' && line[2..][0] == 't' && line[3..][0] == 'a' && line[4..][0] == ':';
    }
    assert line[5..] == " " + p;
  }
}
