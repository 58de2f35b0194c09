/** Escaping text for Discord's markdown, with and without its code blocks, and reading it back. */
module Markdown {
  import opened Sequences

  const TICK := '`'
  const MARKS: string := "\\*_|~[]()>"

  datatype State = Normal | BigCodeBlock | SmallCodeBlock

  predicate StartsBlock(text: string) {
    |text| >= 3 && text[0] == TICK && text[1] == TICK && text[2] == TICK
  }

  function AfterBlock(state: State): State {
    if state == Normal then BigCodeBlock else Normal
  }

  function AfterTick(state: State): State {
    if state == Normal then SmallCodeBlock else Normal
  }

  function Marked(c: char): string {
    if c in MARKS then ['\\', c] else [c]
  }

  /** One turn of the loop: the piece written, the number of characters read and the state after. */
  function Turn(text: string, state: State, codeBlocks: bool): (t: (string, nat, State))
    requires text != []
    ensures 1 <= t.1 <= |text|
  {
    if StartsBlock(text) then (if codeBlocks then "\\`\\`\\`" else "```", 3, AfterBlock(state))
    else if text[0] == TICK && (codeBlocks || state != BigCodeBlock) then (if codeBlocks then "\\`" else "`", 1, AfterTick(state))
    else (if codeBlocks || state == Normal then Marked(text[0]) else [text[0]], 1, state)
  }

  /** The rest of a text escaped, from a state of the machine on. */
  function Escape(text: string, state: State, codeBlocks: bool): string {
    if text == [] then []
    else
      var (piece, read, next) := Turn(text, state, codeBlocks);
      piece + Escape(text[read..], next, codeBlocks)
  }

  lemma TurnOf(text: string, n: nat, state: State, codeBlocks: bool, output: string)
    requires n < |text|
    ensures StartsBlock(text[n..]) <==> n + 3 <= |text| && text[n..n + 3] == "```"
    ensures var (piece, read, next) := Turn(text[n..], state, codeBlocks);
      && n + read <= |text|
      && (output + piece) + Escape(text[n + read..], next, codeBlocks) == output + Escape(text[n..], state, codeBlocks)
  {
    if n + 3 <= |text| {
      assert text[n..n + 3] == [text[n], text[n + 1], text[n + 2]];
      assert text[n..][3..] == text[n + 3..];
    }
    assert text[n..][1..] == text[n + 1..];
    var (piece, read, next) := Turn(text[n..], state, codeBlocks);
    assert Escape(text[n..], state, codeBlocks) == piece + Escape(text[n + read..], next, codeBlocks);
    Append(output, piece, Escape(text[n + read..], next, codeBlocks));
  }

  method MarkdownEscape(text: string, codeBlocks: bool) returns (output: string)
    ensures output == Escape(text, Normal, codeBlocks)
  {
    hide Escape, StartsBlock;
    var state := Normal;
    output := "";
    var n := 0;
    assert text[0..] == text && "" + Escape(text, Normal, codeBlocks) == Escape(text, Normal, codeBlocks);
    while n < |text|
      invariant n <= |text|
      invariant output + Escape(text[n..], state, codeBlocks) == Escape(text, Normal, codeBlocks)
    {
      TurnOf(text, n, state, codeBlocks, output);
      if n + 3 <= |text| && text[n..n + 3] == "```" {
        output := output + (if codeBlocks then "\\`\\`\\`" else "```");
        n := n + 2;
        state := if state == Normal then BigCodeBlock else Normal;
      } else if text[n] == TICK && (codeBlocks || state != BigCodeBlock) {
        output := output + (if codeBlocks then "\\`" else "`");
        state := if state == Normal then SmallCodeBlock else Normal;
      } else {
        ghost var before := output;
        if codeBlocks || state == Normal {
          if text[n] in MARKS {
            output := output + "\\";
          }
        }
        output := output + [text[n]];
        assert output == before + Turn(text[n..], state, codeBlocks).0;
      }
      n := n + 1;
    }
    EscapeNothing(text[n..], state, codeBlocks);
  }

  lemma EscapeNothing(text: string, state: State, codeBlocks: bool)
    requires text == []
    ensures Escape(text, state, codeBlocks) == []
  {
  }

  // ---------- Code and what is around it ----------

  /** Outside code the marks, and nothing else, get a backslash. */
  lemma PlainMarked(c: char, rest: string)
    requires c != '`'
    ensures Escape([c] + rest, Normal, false)
         == (if c in {'\\', '*', '_', '|', '~', '[', ']', '(', ')', '>'} then ['\\', c] else [c]) + Escape(rest, Normal, false)
  {
    assert ([c] + rest)[1..] == rest;
    EscapeTurn([c] + rest, Normal, false);
  }

  predicate TicksAt(text: string, i: nat) {
    i + 3 <= |text| && text[i] == '`' && text[i + 1] == '`' && text[i + 2] == '`'
  }

  /** The code and the three ticks that end it have no three ticks further in front. */
  predicate NoTicksBefore(code: string) {
    forall i :: 0 <= i < |code| ==> !TicksAt(code + "```", i)
  }

  /** A block of code between three ticks stays as it is. */
  lemma BlockUntouched(code: string, rest: string)
    requires NoTicksBefore(code)
    ensures Escape("```" + (code + ("```" + rest)), Normal, false) == "```" + (code + ("```" + Escape(rest, Normal, false)))
  {
    var tail := code + ("```" + rest);
    assert ("```" + tail)[3..] == tail;
    EscapeTurn("```" + tail, Normal, false);
    hide Escape;
    InBlock(code, rest);
  }

  lemma {:induction false} InBlock(code: string, rest: string)
    requires NoTicksBefore(code)
    ensures Escape(code + ("```" + rest), BigCodeBlock, false) == code + ("```" + Escape(rest, Normal, false))
  {
    hide Escape;
    var text := code + ("```" + rest);
    EscapeTurn(text, BigCodeBlock, false);
    if code == [] {
      EmptyAppend("```" + rest);
      assert text[3..] == rest;
      EmptyAppend("```" + Escape(rest, Normal, false));
    } else {
      NextNoTicks(code);
      assert text[1..] == code[1..] + ("```" + rest);
      assert !TicksAt(code + "```", 0);
      FirstThree(code, "```", rest);
      InBlock(code[1..], rest);
    }
  }

  lemma FirstThree(code: string, ticks: string, rest: string)
    requires |ticks| == 3
    ensures forall i :: 0 <= i < |code| + 3 ==> (code + (ticks + rest))[i] == (code + ticks)[i]
  {
  }

  lemma NextNoTicks(code: string)
    requires code != [] && NoTicksBefore(code)
    ensures NoTicksBefore(code[1..])
  {
    assert code[1..] + "```" == (code + "```")[1..];
    forall i | 0 <= i < |code| - 1 ensures !TicksAt(code[1..] + "```", i) {
      assert !TicksAt(code + "```", i + 1);
    }
  }

  /** Code between single ticks stays as it is. */
  lemma InlineUntouched(code: string, rest: string)
    requires '`' !in code && (rest == [] || rest[0] != '`')
    ensures Escape("`" + (code + ("`" + rest)), Normal, false) == "`" + (code + ("`" + Escape(rest, Normal, false)))
  {
    var tail := code + ("`" + rest);
    assert ("`" + tail)[1..] == tail;
    EscapeTurn("`" + tail, Normal, false);
    hide Escape;
    InInline(code, "`", rest);
  }

  /** Code between single ticks goes on to the next tick; three of them end it just as one does. */
  lemma ThreeTicksEndInline(code: string, rest: string)
    requires code != [] && '`' !in code
    ensures Escape("`" + (code + ("```" + rest)), Normal, false) == "`" + (code + ("```" + Escape(rest, Normal, false)))
  {
    var tail := code + ("```" + rest);
    assert ("`" + tail)[1..] == tail;
    EscapeTurn("`" + tail, Normal, false);
    hide Escape;
    InInline(code, "```", rest);
  }

  lemma {:induction false} InInline(code: string, end: string, rest: string)
    requires '`' !in code && (end == "```" || (end == "`" && (rest == [] || rest[0] != '`')))
    ensures Escape(code + (end + rest), SmallCodeBlock, false) == code + (end + Escape(rest, Normal, false))
  {
    hide Escape;
    var text := code + (end + rest);
    EscapeTurn(text, SmallCodeBlock, false);
    if code == [] {
      EmptyAppend(end + rest);
      assert text[|end|..] == rest;
      EmptyAppend(end + Escape(rest, Normal, false));
    } else {
      assert text[1..] == code[1..] + (end + rest);
      InInline(code[1..], end, rest);
    }
  }

  /** Code that is never closed stays as it is to the end. */
  lemma {:induction false} UnclosedUntouched(code: string, state: State)
    requires state != Normal && '`' !in code
    ensures Escape(code, state, false) == code
  {
    if code != [] {
      UnclosedUntouched(code[1..], state);
      EscapeTurn(code, state, false);
      assert code == [code[0]] + code[1..];
    }
  }

  // ---------- Reading it back ----------

  /** A reader that runs the same machine over escaped text. */
  function Unescape(text: string, state: State, codeBlocks: bool): string {
    if text == [] then []
    else if codeBlocks then
      if text[0] == '\\' && |text| >= 2 then [text[1]] + Unescape(text[2..], state, true)
      else [text[0]] + Unescape(text[1..], state, true)
    else if StartsBlock(text) then "```" + Unescape(text[3..], AfterBlock(state), false)
    else if text[0] == TICK && state != BigCodeBlock then "`" + Unescape(text[1..], AfterTick(state), false)
    else if state == Normal && text[0] == '\\' && |text| >= 2 then [text[1]] + Unescape(text[2..], state, false)
    else [text[0]] + Unescape(text[1..], state, false)
  }

  /** Escaping with code blocks treats every character by itself. */
  function EscapeEach(text: string): string {
    if text == [] then [] else (if text[0] == TICK then "\\`" else Marked(text[0])) + EscapeEach(text[1..])
  }

  lemma {:induction false} EscapeIsEach(text: string, state: State)
    ensures Escape(text, state, true) == EscapeEach(text)
  {
    if text != [] {
      EscapeTurn(text, state, true);
      var (_, read, next) := Turn(text, state, true);
      EscapeIsEach(text[read..], next);
      if StartsBlock(text) {
        hide Escape, EscapeEach;
        EachTick(text);
        EachTick(text[1..]);
        EachTick(text[2..]);
        assert text[1..][1..] == text[2..] && text[2..][1..] == text[3..];
        Append("\\`", "\\`", EscapeEach(text[3..]));
        Append("\\`", "\\`\\`", EscapeEach(text[3..]));
      }
    }
  }

  lemma EachTick(text: string)
    requires text != [] && text[0] == TICK
    ensures EscapeEach(text) == "\\`" + EscapeEach(text[1..])
  {
  }

  /** With code blocks escaped, the parts of a text can be escaped apart. */
  lemma {:induction false} EscapeDistributes(a: string, b: string, state: State)
    ensures Escape(a + b, state, true) == Escape(a, state, true) + Escape(b, state, true)
  {
    EscapeIsEach(a + b, state);
    EscapeIsEach(a, state);
    EscapeIsEach(b, state);
    EachDistributes(a, b);
  }

  lemma {:induction false} EachDistributes(a: string, b: string)
    ensures EscapeEach(a + b) == EscapeEach(a) + EscapeEach(b)
  {
    if a == [] {
      assert a + b == b;
    } else {
      EachDistributes(a[1..], b);
      assert (a + b)[1..] == a[1..] + b;
      Append(if a[0] == TICK then "\\`" else Marked(a[0]), EscapeEach(a[1..]), EscapeEach(b));
    }
  }

  lemma {:induction false} EachReadsBack(text: string, state: State)
    ensures Unescape(EscapeEach(text), state, true) == text
  {
    if text != [] {
      EachReadsBack(text[1..], state);
      var rest := EscapeEach(text[1..]);
      var piece := if text[0] == TICK then "\\`" else Marked(text[0]);
      assert (piece + rest)[|piece|..] == rest;
      assert text == [text[0]] + text[1..];
    }
  }

  /** Where the escaped text shows three ticks the text did. */
  lemma BlockShows(text: string, state: State)
    ensures StartsBlock(Escape(text, state, false)) <==> StartsBlock(text)
  {
    FirstShows(text, state);
    if text != [] && text[0] == TICK && !StartsBlock(text) {
      var next := if state != BigCodeBlock then AfterTick(state) else state;
      FirstShows(text[1..], next);
      if |text| >= 2 && text[1] == TICK {
        var after := if next != BigCodeBlock then AfterTick(next) else next;
        FirstShows(text[2..], after);
        assert text[1..][1..] == text[2..];
      }
    }
  }

  lemma FirstShows(text: string, state: State)
    ensures Escape(text, state, false) == [] <==> text == []
    ensures text != [] ==> (Escape(text, state, false)[0] == TICK <==> text[0] == TICK)
  {
  }

  lemma EscapeTurn(text: string, state: State, codeBlocks: bool)
    requires text != []
    ensures var (piece, read, next) := Turn(text, state, codeBlocks);
      Escape(text, state, codeBlocks) == piece + Escape(text[read..], next, codeBlocks)
  {
  }

  lemma BlockReads(rest: string, state: State)
    ensures Unescape("```" + rest, state, false) == "```" + Unescape(rest, AfterBlock(state), false)
  {
    assert ("```" + rest)[3..] == rest;
  }

  lemma TickReads(rest: string, state: State)
    requires state != BigCodeBlock && !StartsBlock("`" + rest)
    ensures Unescape("`" + rest, state, false) == "`" + Unescape(rest, AfterTick(state), false)
  {
    assert ("`" + rest)[1..] == rest;
  }

  lemma MarkedReads(c: char, rest: string)
    requires c != TICK
    ensures Unescape(Marked(c) + rest, Normal, false) == [c] + Unescape(rest, Normal, false)
  {
    assert (['\\', c] + rest)[2..] == rest && ([c] + rest)[1..] == rest;
  }

  lemma PlainReads(c: char, rest: string, state: State)
    requires state != Normal && (c == TICK ==> state == BigCodeBlock) && !StartsBlock([c] + rest)
    ensures Unescape([c] + rest, state, false) == [c] + Unescape(rest, state, false)
  {
    assert ([c] + rest)[1..] == rest;
  }

  /** The reader undoes one turn of the machine. */
  lemma TurnReadsBack(text: string, state: State)
    requires text != []
    ensures var (_, read, next) := Turn(text, state, false);
      Unescape(Escape(text, state, false), state, false)
        == text[..read] + Unescape(Escape(text[read..], next, false), next, false)
  {
    hide Unescape, Escape, Marked;
    EscapeTurn(text, state, false);
    BlockShows(text, state);
    var (_, read, next) := Turn(text, state, false);
    var rest := Escape(text[read..], next, false);
    if StartsBlock(text) {
      BlockReads(rest, state);
      assert text[..3] == "```";
    } else {
      assert text[..1] == [text[0]];
      if text[0] == TICK && state != BigCodeBlock {
        TickReads(rest, state);
      } else if state == Normal {
        MarkedReads(text[0], rest);
      } else {
        PlainReads(text[0], rest, state);
      }
    }
  }

  lemma Parts(text: string, n: nat)
    requires n <= |text|
    ensures text[..n] + text[n..] == text
  {
  }

  /** The reader recovers every text, whichever way it was escaped. */
  lemma {:induction false} ReadsBack(text: string, state: State, codeBlocks: bool)
    ensures Unescape(Escape(text, state, codeBlocks), state, codeBlocks) == text
  {
    if codeBlocks {
      EscapeIsEach(text, state);
      EachReadsBack(text, state);
    } else if text == [] {
    } else {
      var (_, read, next) := Turn(text, state, false);
      TurnReadsBack(text, state);
      ReadsBack(text[read..], next, false);
      Parts(text, read);
    }
  }

  /** So two texts never look the same escaped. */
  lemma EscapeIsInjective(a: string, b: string, codeBlocks: bool)
    requires Escape(a, Normal, codeBlocks) == Escape(b, Normal, codeBlocks)
    ensures a == b
  {
    ReadsBack(a, Normal, codeBlocks);
    ReadsBack(b, Normal, codeBlocks);
  }
}
