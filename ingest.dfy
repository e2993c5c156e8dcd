/** Turning a chunk of input into items (src/helper/ingest.rs): the chunk is split into lines
    on '\n' and on the configured line ending, trailing carriage returns are trimmed, and each
    line is sent as an item until the receiving side disconnects. */
module Ingest {
  import opened Common
  import opened ItemHelper

  //------------------------------------------------------------------------------
  // Splitting

  /** The configured line ending (a byte) as the character `line_ending as char`. */
  function EndingChar(lineEnding: Byte): char
  {
    (lineEnding as int) as char
  }

  predicate IsSeparator(ch: char, lineEnding: Byte)
  {
    ch == '\n' || ch == EndingChar(lineEnding)
  }

  /** `str::split(['\n', line_ending as char])`: the pieces between separators, including an
      empty piece before a leading separator and after a trailing one. */
  function Split(chunk: string, lineEnding: Byte): (pieces: seq<string>)
    ensures |pieces| > 0
  {
    if |chunk| == 0 then [""]
    else if IsSeparator(chunk[0], lineEnding) then [""] + Split(chunk[1..], lineEnding)
    else
      var rest := Split(chunk[1..], lineEnding);
      [[chunk[0]] + rest[0]] + rest[1..]
  }

  /** The separator characters of a chunk, in order. */
  function Separators(chunk: string, lineEnding: Byte): seq<char>
  {
    if |chunk| == 0 then []
    else (if IsSeparator(chunk[0], lineEnding) then [chunk[0]] else []) + Separators(chunk[1..], lineEnding)
  }

  /** Pieces put back together with the separators between them. */
  function Rejoin(pieces: seq<string>, seps: seq<char>): string
    requires |pieces| == |seps| + 1
  {
    if |seps| == 0 then pieces[0] else pieces[0] + [seps[0]] + Rejoin(pieces[1..], seps[1..])
  }

  predicate NoSeparator(s: string, lineEnding: Byte)
  {
    forall i :: 0 <= i < |s| ==> !IsSeparator(s[i], lineEnding)
  }

  /** There is one piece more than there are separators, so a chunk ending in a separator
      yields a trailing empty piece. */
  lemma {:induction false} SplitCount(chunk: string, lineEnding: Byte)
    ensures |Split(chunk, lineEnding)| == |Separators(chunk, lineEnding)| + 1
  {
    if |chunk| > 0 {
      SplitCount(chunk[1..], lineEnding);
    }
  }

  /** No piece holds a separator. */
  lemma {:induction false} SplitNoSeparator(chunk: string, lineEnding: Byte)
    ensures forall k :: 0 <= k < |Split(chunk, lineEnding)| ==> NoSeparator(Split(chunk, lineEnding)[k], lineEnding)
  {
    if |chunk| > 0 {
      SplitNoSeparator(chunk[1..], lineEnding);
      var rest := Split(chunk[1..], lineEnding);
      var pieces := Split(chunk, lineEnding);
      if !IsSeparator(chunk[0], lineEnding) {
        forall k | 0 <= k < |pieces|
          ensures NoSeparator(pieces[k], lineEnding)
        {
          if k == 0 {
            assert NoSeparator(rest[0], lineEnding);
            assert pieces[0] == [chunk[0]] + rest[0];
          } else {
            assert pieces[k] == rest[k];
          }
        }
      } else {
        forall k | 0 <= k < |pieces|
          ensures NoSeparator(pieces[k], lineEnding)
        {
          if k > 0 {
            assert pieces[k] == rest[k - 1];
          }
        }
      }
    }
  }

  /** Putting the pieces back together with the separators between them gives the chunk. */
  lemma {:induction false} SplitRejoin(chunk: string, lineEnding: Byte)
    ensures |Split(chunk, lineEnding)| == |Separators(chunk, lineEnding)| + 1
    ensures Rejoin(Split(chunk, lineEnding), Separators(chunk, lineEnding)) == chunk
  {
    SplitCount(chunk, lineEnding);
    if |chunk| > 0 {
      var tail := chunk[1..];
      SplitRejoin(tail, lineEnding);
      var rest := Split(tail, lineEnding);
      var seps := Separators(tail, lineEnding);
      assert chunk == [chunk[0]] + tail;
      if IsSeparator(chunk[0], lineEnding) {
        var pieces := [""] + rest;
        assert pieces[1..] == rest;
        assert Separators(chunk, lineEnding) == [chunk[0]] + seps;
        assert ([chunk[0]] + seps)[1..] == seps;
      } else {
        var pieces := [[chunk[0]] + rest[0]] + rest[1..];
        assert Separators(chunk, lineEnding) == seps;
        if |seps| > 0 {
          assert pieces[1..] == rest[1..];
          assert Rejoin(rest, seps) == rest[0] + [seps[0]] + Rejoin(rest[1..], seps[1..]);
        }
      }
    }
  }

  //------------------------------------------------------------------------------
  // Trimming

  predicate EndsWith(s: string, suffix: string)
  {
    |suffix| <= |s| && s[|s| - |suffix|..] == suffix
  }

  /** `str::trim_end_matches(pat)`: removes `pat` from the end as often as it occurs there. */
  function TrimEndMatches(s: string, pat: string): string
    requires |pat| > 0
    decreases |s|
  {
    if EndsWith(s, pat) then TrimEndMatches(s[..|s| - |pat|], pat) else s
  }

  /** The trim applied to each piece. */
  function TrimLine(line: string): string
  {
    if EndsWith(line, "\r\n") then TrimEndMatches(line, "\r\n")
    else if EndsWith(line, "\r") then TrimEndMatches(line, "\r")
    else line
  }

  /** Trimming a single character leaves a prefix that does not end in it, having removed only
      copies of it. */
  lemma {:induction false} TrimEndCharSpec(s: string, ch: char)
    ensures var r := TrimEndMatches(s, [ch]);
      && |r| <= |s| && r == s[..|r|]
      && (|r| == 0 || r[|r| - 1] != ch)
      && (forall i :: |r| <= i < |s| ==> s[i] == ch)
    decreases |s|
  {
    if EndsWith(s, [ch]) {
      var s' := s[..|s| - 1];
      TrimEndCharSpec(s', ch);
      var r := TrimEndMatches(s', [ch]);
      assert s'[..|r|] == s[..|r|];
      assert s[|s| - 1] == ch;
    }
  }

  /** On a piece of a split (which holds no '\n'), the trim leaves a prefix with no trailing
      '\r', removing only '\r's and keeping every other character, interior '\r's included. */
  lemma TrimLineSpec(line: string)
    requires forall i :: 0 <= i < |line| ==> line[i] != '\n'
    ensures var r := TrimLine(line);
      && |r| <= |line| && r == line[..|r|]
      && (|r| == 0 || r[|r| - 1] != '\r')
      && (forall i :: |r| <= i < |line| ==> line[i] == '\r')
  {
    assert !EndsWith(line, "\r\n");
    TrimEndCharSpec(line, '\r');
    if !EndsWith(line, "\r") && |line| > 0 {
      assert line[|line| - 1..] == [line[|line| - 1]];
    }
  }

  /** Outside split pieces the "\r\n" branch does fire, and then a '\r' can remain. */
  lemma TrimLineCrLfBranch()
    ensures TrimLine("a\r\r\n") == "a\r"
  {
    assert EndsWith("a\r\r\n", "\r\n");
    assert "a\r\r\n"[..2] == "a\r";
    assert !EndsWith("a\r", "\r\n");
  }

  /** The lines a chunk yields: every split piece, trimmed. */
  function Lines(chunk: string, lineEnding: Byte): seq<string>
  {
    var pieces := Split(chunk, lineEnding);
    seq(|pieces|, k requires 0 <= k < |pieces| => TrimLine(pieces[k]))
  }

  /** A chunk yields one line more than it has separators; no line holds a separator or ends
      with '\r'; each line is its piece with only trailing '\r's removed. */
  lemma LinesProperties(chunk: string, lineEnding: Byte)
    ensures var pieces := Split(chunk, lineEnding);
      var lines := Lines(chunk, lineEnding);
      && |lines| == |pieces| == |Separators(chunk, lineEnding)| + 1
      && forall k :: 0 <= k < |lines| ==>
           && NoSeparator(lines[k], lineEnding)
           && (|lines[k]| == 0 || lines[k][|lines[k]| - 1] != '\r')
           && |lines[k]| <= |pieces[k]| && lines[k] == pieces[k][..|lines[k]|]
           && (forall i :: |lines[k]| <= i < |pieces[k]| ==> pieces[k][i] == '\r')
  {
    SplitCount(chunk, lineEnding);
    SplitNoSeparator(chunk, lineEnding);
    var pieces := Split(chunk, lineEnding);
    var lines := Lines(chunk, lineEnding);
    forall k | 0 <= k < |lines|
      ensures NoSeparator(lines[k], lineEnding)
      ensures |lines[k]| == 0 || lines[k][|lines[k]| - 1] != '\r'
      ensures |lines[k]| <= |pieces[k]| && lines[k] == pieces[k][..|lines[k]|]
      ensures forall i :: |lines[k]| <= i < |pieces[k]| ==> pieces[k][i] == '\r'
    {
      assert NoSeparator(pieces[k], lineEnding);
      TrimLineSpec(pieces[k]);
      forall i | 0 <= i < |lines[k]|
        ensures !IsSeparator(lines[k][i], lineEnding)
      {
        assert lines[k][i] == pieces[k][i];
      }
    }
  }

  //------------------------------------------------------------------------------
  // Sending

  /** What `try_send` answers: accepted, refused because the channel is full, or refused
      because the receiver is gone. */
  datatype TrySendResult = Sent | Full | Disconnected

  /** How lines become items: sent as they are, or built into `DefaultSkimItem`s. */
  datatype SendRawOrBuild<F> = Raw | Build(ansiEnabled: bool, transFields: seq<F>, matchingFields: seq<F>)

  /** An item put on the channel. */
  datatype SentItem = RawLine(line: string) | Built(item: DefaultSkimItem)

  /** The item `send` builds for a line. */
  function ItemFor<F>(c: Collab<F>, opts: SendRawOrBuild<F>, line: string): SentItem
  {
    match opts
    case Raw => RawLine(line)
    case Build(ansiEnabled, transFields, matchingFields) =>
      Built(NewItem(c, line, ansiEnabled, transFields, matchingFields))
  }

  /** `send`'s answer: stop (None) only when the receiver is gone; a full channel loses the
      item and carries on. */
  function Send(res: TrySendResult): (r: Option<()>)
    ensures r.None? <==> res == Disconnected
  {
    match res
    case Disconnected => None
    case _ => Some(())
  }

  /** The position of the first line whose send finds the receiver gone, or the number of
      lines when that never happens. */
  function StopIndex(responses: seq<TrySendResult>): (k: nat)
    ensures k <= |responses|
    ensures forall i :: 0 <= i < k ==> responses[i] != Disconnected
    ensures k < |responses| ==> responses[k] == Disconnected
  {
    if |responses| == 0 then 0
    else if responses[0] == Disconnected then 0
    else 1 + StopIndex(responses[1..])
  }

  /** The items the receiver gets from the first n lines, given the answer to each send. */
  function Delivered<F>(c: Collab<F>, opts: SendRawOrBuild<F>, lines: seq<string>, responses: seq<TrySendResult>, n: nat): seq<SentItem>
    requires n <= |lines| == |responses|
  {
    if n == 0 then []
    else
      Delivered(c, opts, lines, responses, n - 1) +
      (if responses[n - 1] == Sent then [ItemFor(c, opts, lines[n - 1])] else [])
  }

  /** The `for line in line_iter` loop of `ingest_loop`: sends every line in order and returns
      as soon as a send reports the receiver gone. `responses[i]` is what `try_send` answers
      for line i. */
  method SendLines<F>(c: Collab<F>, opts: SendRawOrBuild<F>, lines: seq<string>, responses: seq<TrySendResult>)
    returns (delivered: seq<SentItem>, stopped: bool)
    requires |responses| == |lines|
    ensures stopped <==> exists i :: 0 <= i < |responses| && responses[i] == Disconnected
    ensures delivered == Delivered(c, opts, lines, responses, StopIndex(responses))
  {
    delivered := [];
    var i := 0;
    while i < |lines|
      invariant i <= StopIndex(responses)
      invariant delivered == Delivered(c, opts, lines, responses, i)
    {
      var item := ItemFor(c, opts, lines[i]);
      var res := responses[i];
      if res == Sent {
        delivered := delivered + [item];
      }
      if Send(res).None? {
        return delivered, true;
      }
      i := i + 1;
    }
    stopped := false;
  }

  /** With every send accepted, each line arrives once, in order; in raw mode each arrives as
      the line itself. */
  lemma {:induction false} AllSentDeliversAll<F>(c: Collab<F>, opts: SendRawOrBuild<F>, lines: seq<string>, responses: seq<TrySendResult>, n: nat)
    requires n <= |lines| == |responses|
    requires forall i :: 0 <= i < |responses| ==> responses[i] == Sent
    ensures var d := Delivered(c, opts, lines, responses, n);
      && |d| == n
      && (forall i :: 0 <= i < n ==> d[i] == ItemFor(c, opts, lines[i]))
      && (opts == Raw ==> forall i :: 0 <= i < n ==> d[i] == RawLine(lines[i]))
  {
    if n > 0 {
      AllSentDeliversAll(c, opts, lines, responses, n - 1);
    }
  }

  /** A full channel loses exactly that line: the receiver gets the accepted lines before the
      first disconnect and nothing else, so it never gets more lines than were sent. */
  lemma {:induction false} DeliveredCount<F>(c: Collab<F>, opts: SendRawOrBuild<F>, lines: seq<string>, responses: seq<TrySendResult>, n: nat)
    requires n <= |lines| == |responses|
    ensures |Delivered(c, opts, lines, responses, n)| == |AcceptedPositions(responses, n)|
    ensures |Delivered(c, opts, lines, responses, n)| <= n
    ensures forall k :: 0 <= k < |AcceptedPositions(responses, n)| ==>
      Delivered(c, opts, lines, responses, n)[k] == ItemFor(c, opts, lines[AcceptedPositions(responses, n)[k]])
  {
    if n > 0 {
      DeliveredCount(c, opts, lines, responses, n - 1);
    }
  }

  /** The positions among the first n whose send was accepted, in order. */
  function AcceptedPositions(responses: seq<TrySendResult>, n: nat): (ps: seq<nat>)
    requires n <= |responses|
    ensures forall k :: 0 <= k < |ps| ==> ps[k] < n && responses[ps[k]] == Sent
  {
    if n == 0 then []
    else AcceptedPositions(responses, n - 1) + (if responses[n - 1] == Sent then [n - 1] else [])
  }
}
