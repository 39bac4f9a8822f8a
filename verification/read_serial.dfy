/** The body of `readSerial`'s loop, one character at a time: the terminator
    dispatches the line to the command handler and clears the buffer; a
    printable character is stored; anything else is ignored. */
module ReadSerial {
  import opened Wrappers
  import opened Config
  import opened CString
  import opened SerialCommandState
  import opened CommandHandlerTable

  /** The state after one character, and the `handle` call it made, if any. */
  datatype Stepped = Stepped(state: SerialCommand, dispatched: Option<Outcome>)

  /** The handler set with `setHandler` exists (the source leaves
      `cmdHandle` uninitialised until then). */
  ghost predicate HandlerSet(reg: Registry, sc: SerialCommand) {
    sc.cmdHandle.Some? && sc.cmdHandle.value in reg
  }

  /** One pass of `readSerial`'s loop on the character `c`. */
  function ReadChar(reg: Registry, sc: SerialCommand, c: char): (r: Stepped)
    requires Closed(reg) && SerialCommandState.Valid(sc)
    requires c == Terminator ==> HandlerSet(reg, sc)
    ensures SerialCommandState.Valid(r.state) && r.state.cmdHandle == sc.cmdHandle
    ensures c == Terminator ==>
              && r.dispatched == Some(Handle(reg, sc.cmdHandle.value, sc))
              && r.state.bufPos == 0 && Line(r.state) == []
              && r.state.firstToken && r.state.lastTok.None?
    ensures c != Terminator ==> r.dispatched.None?
    ensures c != Terminator && IsPrint(c) && sc.bufPos < BufferSize ==>
              && Line(r.state) == Line(sc) + [c]
              && r.state.bufPos == sc.bufPos + 1
              && r.state.firstToken == sc.firstToken && r.state.last == sc.last
              && r.state.lastTok == sc.lastTok
    ensures c != Terminator && !(IsPrint(c) && sc.bufPos < BufferSize) ==> r.state == sc
  {
    if c == Terminator then
      Stepped(ClearBuffer(sc), Some(Handle(reg, sc.cmdHandle.value, sc)))
    else
      Stepped(Accept(sc, c), None)
  }

  /** Any character but the terminator: store it if printable, else ignore it. */
  function Accept(sc: SerialCommand, c: char): (r: SerialCommand)
    requires SerialCommandState.Valid(sc)
    ensures SerialCommandState.Valid(r)
    ensures r.cmdHandle == sc.cmdHandle && r.firstToken == sc.firstToken
    ensures r.last == sc.last && r.lastTok == sc.lastTok
    ensures IsPrint(c) && sc.bufPos < BufferSize ==>
              Line(r) == Line(sc) + [c] && r.bufPos == sc.bufPos + 1
    ensures !(IsPrint(c) && sc.bufPos < BufferSize) ==> r == sc
  {
    if IsPrint(c) then Store(sc, c) else sc
  }

  function Count(cs: seq<char>, c: char): nat {
    if |cs| == 0 then 0 else (if cs[0] == c then 1 else 0) + Count(cs[1..], c)
  }

  /** The printable characters of `cs`, in order. */
  function Printable(cs: seq<char>): seq<char> {
    if |cs| == 0 then [] else (if IsPrint(cs[0]) then [cs[0]] else []) + Printable(cs[1..])
  }

  /** The state after a run of characters and the `handle` calls it made. */
  datatype Fed = Fed(state: SerialCommand, dispatched: seq<Outcome>)

  /** `readSerial` over the characters `cs`, in arrival order. */
  function Feed(reg: Registry, sc: SerialCommand, cs: seq<char>): (r: Fed)
    requires Closed(reg) && SerialCommandState.Valid(sc)
    requires Terminator in cs ==> HandlerSet(reg, sc)
    ensures SerialCommandState.Valid(r.state) && r.state.bufPos <= BufferSize
    ensures r.state.cmdHandle == sc.cmdHandle
    ensures |r.dispatched| == Count(cs, Terminator)
    decreases |cs|
  {
    if |cs| == 0 then
      Fed(sc, [])
    else
      var step := ReadChar(reg, sc, cs[0]);
      assert Terminator in cs[1..] ==> Terminator in cs;
      var rest := Feed(reg, step.state, cs[1..]);
      Fed(rest.state, (if step.dispatched.Some? then [step.dispatched.value] else []) + rest.dispatched)
  }

  /** The characters `cs`, none of them the terminator, accepted in order. */
  function Accumulate(sc: SerialCommand, cs: seq<char>): (r: SerialCommand)
    requires SerialCommandState.Valid(sc)
    ensures SerialCommandState.Valid(r)
    ensures r.cmdHandle == sc.cmdHandle && r.firstToken == sc.firstToken
    decreases |cs|
  {
    if |cs| == 0 then sc else Accumulate(Accept(sc, cs[0]), cs[1..])
  }

  /** Without a terminator, `readSerial` dispatches nothing and only
      accumulates characters. */
  lemma {:induction false} FeedWithoutTerminatorAccumulates(reg: Registry, sc: SerialCommand, cs: seq<char>)
    requires Closed(reg) && SerialCommandState.Valid(sc)
    requires Terminator !in cs
    ensures Feed(reg, sc, cs) == Fed(Accumulate(sc, cs), [])
    decreases |cs|
  {
    if |cs| > 0 {
      assert Terminator !in cs[1..];
      FeedWithoutTerminatorAccumulates(reg, Accept(sc, cs[0]), cs[1..]);
    }
  }

  /** Reading two runs of characters is reading the first, then the second
      from where the first left off; the dispatches are concatenated. */
  lemma {:induction false} FeedConcat(reg: Registry, sc: SerialCommand, a: seq<char>, b: seq<char>)
    requires Closed(reg) && SerialCommandState.Valid(sc)
    requires Terminator in a + b ==> HandlerSet(reg, sc)
    ensures var first := Feed(reg, sc, a);
            var second := Feed(reg, first.state, b);
            Feed(reg, sc, a + b) == Fed(second.state, first.dispatched + second.dispatched)
    decreases |a|
  {
    if |a| == 0 {
      assert a + b == b;
    } else {
      assert (a + b)[1..] == a[1..] + b;
      assert Terminator in a[1..] + b ==> Terminator in a + b;
      assert Terminator in a ==> Terminator in a + b;
      assert (a + b)[0] == a[0];
      var step := ReadChar(reg, sc, a[0]);
      var d := if step.dispatched.Some? then [step.dispatched.value] else [];
      FeedConcat(reg, step.state, a[1..], b);
      var first' := Feed(reg, step.state, a[1..]);
      var second := Feed(reg, first'.state, b);
      assert Feed(reg, sc, a) == Fed(first'.state, d + first'.dispatched);
      assert Feed(reg, sc, a + b) == Fed(second.state, d + (first'.dispatched + second.dispatched));
      ConcatAssociates(d, first'.dispatched, second.dispatched);
    }
  }

  lemma ConcatAssociates<T>(x: seq<T>, y: seq<T>, z: seq<T>)
    ensures x + (y + z) == (x + y) + z
  {
  }

  /** A line ended by the terminator is dispatched exactly once, to the
      handler set with `setHandler`, holding everything accepted since the
      previous terminator; the buffer is cleared afterwards. */
  lemma {:induction false} FeedLineDispatchesIt(reg: Registry, sc: SerialCommand, cs: seq<char>)
    requires Closed(reg) && SerialCommandState.Valid(sc) && HandlerSet(reg, sc)
    requires Terminator !in cs
    ensures var line := Accumulate(sc, cs);
            Feed(reg, sc, cs + [Terminator])
              == Fed(ClearBuffer(line), [Handle(reg, sc.cmdHandle.value, line)])
    decreases |cs|
  {
    if |cs| == 0 {
      assert cs + [Terminator] == [Terminator];
    } else {
      assert (cs + [Terminator])[1..] == cs[1..] + [Terminator];
      assert Terminator !in cs[1..];
      FeedLineDispatchesIt(reg, Accept(sc, cs[0]), cs[1..]);
    }
  }

  /** Accumulating appends the printable characters until the buffer is
      full and drops the rest, never disturbing what was already held. */
  lemma {:induction false} AccumulateFillsUpToCapacity(sc: SerialCommand, cs: seq<char>)
    requires SerialCommandState.Valid(sc)
    ensures Line(Accumulate(sc, cs)) == Truncate(Line(sc) + Printable(cs), BufferSize)
    decreases |cs|
  {
    if |cs| == 0 {
      assert Line(sc) + Printable(cs) == Line(sc);
    } else {
      AccumulateFillsUpToCapacity(Accept(sc, cs[0]), cs[1..]);
      assert cs == [cs[0]] + cs[1..];
      AcceptKeepsPendingLine(sc, cs[0], cs[1..]);
    }
  }

  /** One accepted character moves from the pending input into the line
      without changing what the line will be once everything is in. */
  lemma AcceptKeepsPendingLine(sc: SerialCommand, c: char, rest: seq<char>)
    requires SerialCommandState.Valid(sc)
    ensures Truncate(Line(sc) + Printable([c] + rest), BufferSize)
            == Truncate(Line(Accept(sc, c)) + Printable(rest), BufferSize)
  {
    var line, p := Line(sc), Printable(rest);
    assert ([c] + rest)[1..] == rest;
    if !IsPrint(c) {
      assert Printable([c] + rest) == p;
    } else {
      assert Printable([c] + rest) == [c] + p;
      if sc.bufPos < BufferSize {
        assert line + ([c] + p) == (line + [c]) + p;
      } else {
        TruncateFull(line, [c] + p, BufferSize);
        TruncateFull(line, p, BufferSize);
      }
    }
  }

  /** Without a terminator nothing is dispatched, the printable characters
      are appended until the buffer is full, later ones are dropped, and
      what was already buffered is never disturbed. */
  lemma FeedWithoutTerminatorFillsUpToCapacity(reg: Registry, sc: SerialCommand, cs: seq<char>)
    requires Closed(reg) && SerialCommandState.Valid(sc)
    requires Terminator !in cs
    ensures Feed(reg, sc, cs).dispatched == []
    ensures Line(Feed(reg, sc, cs).state) == Truncate(Line(sc) + Printable(cs), BufferSize)
  {
    FeedWithoutTerminatorAccumulates(reg, sc, cs);
    AccumulateFillsUpToCapacity(sc, cs);
  }

  /** A printable line that fits, fed into an empty buffer, is held exactly
      as it arrived. */
  lemma ShortLineIsHeldExactly(sc: SerialCommand, cs: seq<char>)
    requires SerialCommandState.Valid(sc) && Line(sc) == []
    requires |cs| <= BufferSize && forall i :: 0 <= i < |cs| ==> IsPrint(cs[i])
    ensures Line(Accumulate(sc, cs)) == cs
  {
    AccumulateFillsUpToCapacity(sc, cs);
    PrintableKeepsPrintable(cs);
    assert Line(sc) + Printable(cs) == cs;
  }

  /** Text that is already printable passes through unchanged. */
  lemma {:induction false} PrintableKeepsPrintable(cs: seq<char>)
    requires forall i :: 0 <= i < |cs| ==> IsPrint(cs[i])
    ensures Printable(cs) == cs
    decreases |cs|
  {
    if |cs| > 0 {
      PrintableKeepsPrintable(cs[1..]);
      assert cs == [cs[0]] + cs[1..];
    }
  }

  lemma TruncateFull(line: seq<char>, more: seq<char>, n: nat)
    requires |line| == n
    ensures Truncate(line + more, n) == line
  {
    assert (line + more)[..n] == line;
  }

  /** A line that is only a terminator reaches the default handler once
      when one is set, and fires nothing otherwise. */
  lemma EmptyLineReachesDefault(reg: Registry, sc: SerialCommand)
    requires Closed(reg) && HandlerSet(reg, sc)
    requires SerialCommandState.Valid(sc) && sc.firstToken && Line(sc) == []
    ensures var o := ReadChar(reg, sc, Terminator).dispatched.value;
            var d := reg[sc.cmdHandle.value].defaultHandler;
            && o.token.None?
            && (d.Some? ==> Calls(o) == [InvokedDefault(d.value, NextToken(sc).state)])
            && (d.None? ==> Calls(o) == [])
  {
  }
}
