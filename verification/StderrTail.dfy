/** `EngineStderrTail`: passes on the known lines of a stream that arrives in arbitrary pieces. */
module StderrTail {

  const LIMIT: nat := 4096
  const WITHHELD: string := "[stderr content withheld]"

  // ----- Line by line -----

  /** The lines of a text without carriage returns; the last one is not ended yet. */
  function Lines(text: string): (r: seq<string>)
    ensures r != []
  {
    if text == "" then [""]
    else
      var lines, c := Lines(text[..|text| - 1]), text[|text| - 1];
      if c == '\n' then lines + [""]
      else if c == '\r' then lines
      else lines[..|lines| - 1] + [lines[|lines| - 1] + [c]]
  }

  /** What becomes of a line: nothing of an empty one, a known one as it is, and a marker for any other. */
  function Shown(safe: seq<string>, line: string): string {
    if line == "" then "" else (if line in safe then line else WITHHELD) + "\n"
  }

  function Filtered(safe: seq<string>, lines: seq<string>): string {
    if lines == [] then "" else Filtered(safe, lines[..|lines| - 1]) + Shown(safe, lines[|lines| - 1])
  }

  function Withheld(safe: seq<string>, lines: seq<string>): nat {
    if lines == [] then 0
    else
      var line := lines[|lines| - 1];
      Withheld(safe, lines[..|lines| - 1]) + if line != "" && line !in safe then 1 else 0
  }

  /** The last bytes of an ASCII text. */
  function Last(s: string): string {
    if |s| > LIMIT then s[|s| - LIMIT..] else s
  }

  lemma LastOfMore(s: string, value: string)
    ensures Last(Last(s) + value) == Last(s + value)
  {
    if |s| > LIMIT {
      assert s + value == s[..|s| - LIMIT] + (s[|s| - LIMIT..] + value);
    }
  }

  predicate IsPrefix(p: string, s: string) {
    |p| <= |s| && s[..|p|] == p
  }

  predicate PrefixOfSafe(safe: seq<string>, p: string) {
    exists i | 0 <= i < |safe| :: IsPrefix(p, safe[i])
  }

  /** Once a line is no prefix of a known one it never becomes known. */
  lemma UnsafeStays(safe: seq<string>, p: string, c: char)
    ensures p in safe ==> PrefixOfSafe(safe, p)
    ensures PrefixOfSafe(safe, p + [c]) ==> PrefixOfSafe(safe, p)
  {
    if p in safe {
      var i :| 0 <= i < |safe| && safe[i] == p;
      assert IsPrefix(p, safe[i]);
    }
    if PrefixOfSafe(safe, p + [c]) {
      var i :| 0 <= i < |safe| && IsPrefix(p + [c], safe[i]);
      assert safe[i][..|p|] == (p + [c])[..|p|];
      assert IsPrefix(p, safe[i]);
    }
  }

  /** The line that is not ended yet is given up: it is not known and cannot become so. */
  predicate GivenUp(safe: seq<string>, line: string) {
    line != "" && !PrefixOfSafe(safe, line)
  }

  /** What is written by the time a text has been read: the ended lines, and the marker of one given up. */
  function Written(safe: seq<string>, text: string): string {
    var lines := Lines(text);
    Filtered(safe, lines[..|lines| - 1]) + if GivenUp(safe, lines[|lines| - 1]) then WITHHELD + "\n" else ""
  }

  function Pending(text: string): string {
    Lines(text)[|Lines(text)| - 1]
  }

  function Counted(safe: seq<string>, text: string): nat {
    var lines := Lines(text);
    Withheld(safe, lines[..|lines| - 1]) + if GivenUp(safe, lines[|lines| - 1]) then 1 else 0
  }

  /** A character of a line: it may make the filter give up. */
  lemma WrittenCharacter(safe: seq<string>, text: string, c: char)
    requires c != '\n'
    ensures Pending(text + [c]) == if c == '\r' then Pending(text) else Pending(text) + [c]
    ensures var gives := !GivenUp(safe, Pending(text)) && GivenUp(safe, Pending(text + [c]));
      && Written(safe, text + [c]) == Written(safe, text) + (if gives then WITHHELD + "\n" else "")
      && Counted(safe, text + [c]) == Counted(safe, text) + (if gives then 1 else 0)
    ensures GivenUp(safe, Pending(text)) ==> GivenUp(safe, Pending(text + [c]))
  {
    hide Filtered, Withheld, PrefixOfSafe;
    var more := text + [c];
    assert more[..|more| - 1] == text && more[|more| - 1] == c;
    var lines, lines' := Lines(text), Lines(more);
    assert lines'[..|lines'| - 1] == lines[..|lines| - 1];
    UnsafeStays(safe, Pending(text), c);
  }

  /** The end of a line. */
  lemma WrittenLine(safe: seq<string>, text: string)
    ensures Pending(text + "\n") == ""
    ensures var shown := if GivenUp(safe, Pending(text)) then "" else Shown(safe, Pending(text));
      Written(safe, text + "\n") == Written(safe, text) + shown
    ensures Counted(safe, text + "\n") == Counted(safe, text)
      + if !GivenUp(safe, Pending(text)) && Pending(text) != "" && Pending(text) !in safe then 1 else 0
  {
    hide PrefixOfSafe;
    var more := text + "\n";
    assert more[..|more| - 1] == text && more[|more| - 1] == '\n';
    var lines, lines' := Lines(text), Lines(more);
    assert lines'[..|lines'| - 1] == lines;
    UnsafeStays(safe, Pending(text), 'a');
  }

  lemma EndOfText(safe: seq<string>, text: string)
    ensures var shown := if GivenUp(safe, Pending(text)) then "" else Shown(safe, Pending(text));
      Filtered(safe, Lines(text)) == Written(safe, text) + shown
    ensures Withheld(safe, Lines(text)) == Counted(safe, text)
      + if !GivenUp(safe, Pending(text)) && Pending(text) != "" && Pending(text) !in safe then 1 else 0
  {
    hide PrefixOfSafe, Lines;
    UnsafeStays(safe, Pending(text), 'a');
  }

  // ----- The same in other words -----

  /** The text without carriage returns is these lines with line feeds between them. */
  ghost predicate MadeOf(text: string, lines: seq<string>) {
    && lines != [] && WithoutReturns(text) == Lined(lines)
    && forall line | line in lines :: '\n' !in line && '\r' !in line
  }

  function Lined(lines: seq<string>): string {
    if lines == [] then ""
    else if |lines| == 1 then lines[0]
    else Lined(lines[..|lines| - 1]) + ['\n'] + lines[|lines| - 1]
  }

  function WithoutReturns(text: string): string {
    if text == "" then "" else (if text[0] == '\r' then "" else [text[0]]) + WithoutReturns(text[1..])
  }

  lemma {:induction false} WithoutReturnsConcat(a: string, b: string)
    ensures WithoutReturns(a + b) == WithoutReturns(a) + WithoutReturns(b)
  {
    if a == "" {
      assert a + b == b;
    } else {
      assert (a + b)[1..] == a[1..] + b;
      WithoutReturnsConcat(a[1..], b);
    }
  }

  lemma LinedMore(front: seq<string>, last: string)
    ensures Lined(front + [last]) == if front == [] then last else Lined(front) + ['\n'] + last
  {
    var lines := front + [last];
    assert lines[..|lines| - 1] == front;
  }

  lemma LinedLonger(lines: seq<string>, c: char)
    requires lines != []
    ensures Lined(lines[..|lines| - 1] + [lines[|lines| - 1] + [c]]) == Lined(lines) + [c]
  {
    hide Lined;
    var front, last := lines[..|lines| - 1], lines[|lines| - 1];
    assert lines == front + [last];
    LinedMore(front, last);
    LinedMore(front, last + [c]);
    OneMore(Lined(front) + ['\n'], last, c);
  }

  lemma OneMore(head: string, last: string, c: char)
    ensures head + (last + [c]) == (head + last) + [c]
  {
  }

  lemma {:induction false} LinesExact(text: string)
    ensures MadeOf(text, Lines(text))
  {
    hide Lined, WithoutReturns;
    if text == "" {
      NoLines();
    } else {
      var front, c := text[..|text| - 1], text[|text| - 1];
      var lines := Lines(front);
      LinesExact(front);
      assert text == front + [c];
      WithoutReturnsConcat(front, [c]);
      OneCharacter(c);
      if c == '\n' {
        LinedMore(lines, "");
        assert Lined(lines) + ['\n'] + "" == WithoutReturns(front) + [c];
      } else if c != '\r' {
        LinedLonger(lines, c);
        var more := lines[..|lines| - 1] + [lines[|lines| - 1] + [c]];
        assert lines[|lines| - 1] in lines && forall line | line in lines[..|lines| - 1] :: line in lines;
        assert forall line | line in more :: line in lines[..|lines| - 1] || line == lines[|lines| - 1] + [c];
      } else {
        assert WithoutReturns(front) + "" == WithoutReturns(front);
      }
    }
  }

  lemma NoLines()
    ensures MadeOf("", [""])
  {
  }

  lemma OneCharacter(c: char)
    ensures WithoutReturns([c]) == if c == '\r' then "" else [c]
  {
    assert [c][1..] == "";
  }

  /** The output says of every line what may be said: a known line itself, of another one only that it was
      withheld, and of an empty one nothing. */
  ghost predicate Says(safe: seq<string>, lines: seq<string>, output: string)
    decreases |lines|
  {
    if lines == [] then output == ""
    else exists front, last :: output == front + last && Says(safe, lines[..|lines| - 1], front) && SaysOf(safe, lines[|lines| - 1], last)
  }

  ghost predicate SaysOf(safe: seq<string>, line: string, output: string) {
    && (line == "" ==> output == "")
    && (line != "" && line in safe ==> output == line + ['\n'])
    && (line != "" && line !in safe ==> output == "[stderr content withheld]" + ['\n'])
  }

  lemma {:induction false} FilteredExact(safe: seq<string>, lines: seq<string>, output: string)
    ensures Says(safe, lines, output) <==> output == Filtered(safe, lines)
  {
    if lines != [] {
      var before, line := lines[..|lines| - 1], lines[|lines| - 1];
      forall front
        ensures Says(safe, before, front) <==> front == Filtered(safe, before)
      {
        FilteredExact(safe, before, front);
      }
      forall last
        ensures SaysOf(safe, line, last) <==> last == Shown(safe, line)
      {
      }
    }
  }

  /** As many lines are counted as withheld as are neither empty nor known. */
  lemma {:induction false} WithheldExact(safe: seq<string>, lines: seq<string>)
    ensures Withheld(safe, lines) == |set i | 0 <= i < |lines| && lines[i] != "" && lines[i] !in safe|
  {
    if lines != [] {
      var front, n := lines[..|lines| - 1], |lines| - 1;
      WithheldExact(safe, front);
      var a := set i | 0 <= i < |front| && front[i] != "" && front[i] !in safe;
      var b := set i | 0 <= i < |lines| && lines[i] != "" && lines[i] !in safe;
      assert b == a + if lines[n] != "" && lines[n] !in safe then {n} else {};
    }
  }

  lemma LastExact(s: string)
    ensures |Last(s)| == (if |s| < 4096 then |s| else 4096) && exists front :: s == front + Last(s)
  {
    if |s| > LIMIT {
      assert s == s[..|s| - LIMIT] + Last(s);
    } else {
      assert s == "" + Last(s);
    }
  }

  // ----- The filter -----

  class EngineStderrTail {
    const safe: seq<string>
    var prefix: string
    var discarding: bool
    var tail: string
    var withheldLines: nat
    var truncated: bool
    ghost var seen: string
    ghost var written: string

    /** The state is that of the text seen since the last end, and the tail that of everything written. */
    ghost predicate Valid()
      reads this
    {
      && discarding == GivenUp(safe, Pending(seen)) && prefix == (if discarding then "" else Pending(seen))
      && Tailed()
    }

    ghost predicate Tailed()
      reads this
    {
      tail == Last(written) && truncated == (|written| > LIMIT)
    }

    constructor (safe: seq<string>)
      ensures Valid() && this.safe == safe && seen == "" && written == "" && withheldLines == 0
    {
      this.safe := safe;
      prefix, discarding, tail, withheldLines, truncated := "", false, "", 0, false;
      seen, written := "", "";
    }

    method Append(line: string) returns (value: string)
      requires Tailed()
      modifies `tail, `truncated, `written
      ensures Tailed() && value == line + "\n" && written == old(written) + value
    {
      value := line + "\n";
      LastOfMore(written, value);
      tail := tail + value;
      written := written + value;
      if |tail| > LIMIT {
        tail := tail[|tail| - LIMIT..];
        truncated := true;
      }
    }

    /** Shows the pending line, at its end or at the end of the stream. */
    method Settle() returns (output: string)
      requires Valid()
      modifies this
      ensures Tailed() && prefix == "" && !discarding && seen == old(seen) && written == old(written) + output
      ensures output == if GivenUp(safe, Pending(old(seen))) then "" else Shown(safe, Pending(old(seen)))
      ensures withheldLines == old(withheldLines)
        + if output != "" && Pending(old(seen)) !in safe then 1 else 0
    {
      output := "";
      if !discarding && prefix != "" {
        if prefix in safe {
          output := Append(prefix);
        } else {
          withheldLines := withheldLines + 1;
          output := Append(WITHHELD);
        }
      }
      prefix, discarding := "", false;
    }

    method ConsumeCharacter(character: char) returns (output: string)
      requires Valid()
      modifies this
      ensures Valid() && seen == old(seen) + [character] && written == old(written) + output
      ensures Written(safe, seen) == Written(safe, old(seen)) + output
      ensures withheldLines - old(withheldLines) == Counted(safe, seen) - Counted(safe, old(seen))
    {
      hide Written, Counted, Lines, GivenUp, Shown, Pending;
      output := "";
      if character == '\n' {
        WrittenLine(safe, seen);
        NothingPending(safe);
        ShownNothing(safe, Pending(seen));
        output := Settle();
        seen := seen + "\n";
      } else {
        WrittenCharacter(safe, seen, character);
        if !discarding && character != '\r' {
          prefix := prefix + [character];
          GivenUpMeans(safe, prefix);
          if !PrefixOfSafe(safe, prefix) {
            prefix, discarding, withheldLines := "", true, withheldLines + 1;
            output := Append(WITHHELD);
          }
        }
        seen := seen + [character];
      }
    }

    /** `consume`, and `push` of the text the decoder gives for a piece. */
    method Consume(text: string) returns (output: string)
      requires Valid()
      modifies this
      ensures Valid() && seen == old(seen) + text && written == old(written) + output
      ensures Written(safe, seen) == Written(safe, old(seen)) + output
      ensures withheldLines - old(withheldLines) == Counted(safe, seen) - Counted(safe, old(seen))
    {
      hide Written, Counted, Lines, GivenUp, Pending, Last;
      output := "";
      assert seen + text[..0] == seen;
      for i := 0 to |text|
        invariant Valid() && seen == old(seen) + text[..i] && written == old(written) + output
        invariant Written(safe, seen) == Written(safe, old(seen)) + output
        invariant withheldLines - old(withheldLines) == Counted(safe, seen) - Counted(safe, old(seen))
      {
        var more := ConsumeCharacter(text[i]);
        assert text[..i + 1] == text[..i] + [text[i]];
        output := output + more;
      }
      assert text[..|text|] == text;
    }

    /** `finish`, with what the decoder still holds. */
    method Finish(text: string) returns (output: string)
      requires Valid()
      modifies this
      ensures Valid() && seen == "" && written == old(written) + output
      ensures Written(safe, old(seen)) + output == Filtered(safe, Lines(old(seen) + text))
      ensures withheldLines - old(withheldLines) == Withheld(safe, Lines(old(seen) + text)) - Counted(safe, old(seen))
    {
      hide Written, Counted, Lines, GivenUp, Shown, Filtered, Withheld, Pending;
      output := Consume(text);
      EndOfText(safe, seen);
      ShownNothing(safe, Pending(seen));
      var more := Settle();
      output := output + more;
      seen := "";
      NothingPending(safe);
    }
  }

  lemma NothingPending(safe: seq<string>)
    ensures Pending("") == "" && !GivenUp(safe, "") && Written(safe, "") == "" && Counted(safe, "") == 0
  {
  }

  lemma ShownNothing(safe: seq<string>, line: string)
    ensures Shown(safe, line) == "" <==> line == ""
  {
  }

  lemma GivenUpMeans(safe: seq<string>, line: string)
    ensures GivenUp(safe, line) <==> line != "" && !PrefixOfSafe(safe, line)
  {
  }

  /** Whatever the pieces, the whole output is that of the text line by line, and the tail and the count
      are those of the output. */
  method Run(safe: seq<string>, pieces: seq<string>, rest: string) returns (output: string, filter: EngineStderrTail)
    ensures output == Filtered(safe, Lines(Joined(pieces) + rest))
    ensures filter.tail == Last(output) && filter.truncated == (|output| > LIMIT)
    ensures filter.withheldLines == Withheld(safe, Lines(Joined(pieces) + rest))
    ensures exists lines :: MadeOf(Joined(pieces) + rest, lines) && Says(safe, lines, output)
  {
    hide Written, Counted, Lines, GivenUp, Filtered, Withheld, Last, Pending;
    filter := new EngineStderrTail(safe);
    NothingPending(safe);
    output := "";
    for i := 0 to |pieces|
      invariant fresh(filter) && filter.Valid() && filter.safe == safe && filter.seen == Joined(pieces[..i])
      invariant filter.written == output == Written(safe, filter.seen)
      invariant filter.withheldLines == Counted(safe, filter.seen)
    {
      assert pieces[..i + 1][..i] == pieces[..i];
      var more := filter.Consume(pieces[i]);
      output := output + more;
    }
    assert pieces[..|pieces|] == pieces;
    var more := filter.Finish(rest);
    output := output + more;
    LinesExact(Joined(pieces) + rest);
    FilteredExact(safe, Lines(Joined(pieces) + rest), output);
  }

  function Joined(pieces: seq<string>): string {
    if pieces == [] then "" else Joined(pieces[..|pieces| - 1]) + pieces[|pieces| - 1]
  }
}
