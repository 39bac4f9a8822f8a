/** Worked examples of the documented behaviour, on concrete lines. */
module Scenarios {
  import opened Wrappers
  import opened Config
  import opened CString
  import opened Tokenizer
  import opened SerialCommandState
  import opened CommandHandlerTable
  import opened ReadSerial

  /** The successive `strtok_r` calls on "move 10 20": three words, then
      NULL. */
  lemma SplitExample()
    ensures Tokens("move 10 20", 0) == [Token(0, 4), Token(5, 2), Token(8, 2)]
  {
    MoveCommandWord();
    MoveArguments();
  }

  lemma MoveArguments()
    ensures Tokens("move 10 20", 5) == [Token(5, 2), Token(8, 2)]
  {
    assert StrTok("move 10 20", 5) == Scan(Some(Token(5, 2)), 8);
    MoveLastArgument();
  }

  lemma MoveLastArgument()
    ensures Tokens("move 10 20", 8) == [Token(8, 2)]
  {
    assert StrTok("move 10 20", 8) == Scan(Some(Token(8, 2)), 10);
    assert StrTok("move 10 20", 10) == Scan(None, 10);
  }

  /** One handler, binding "move" to a callback that reads its own
      arguments. */
  function MoveMenu(): Registry {
    map[0 := AddCommandWithSource(CommandHandlerTable.Create(), "move", 7)]
  }

  lemma MoveMenuTable()
    ensures Closed(MoveMenu())
    ensures var t := Table(MoveMenu()[0]);
            |t| == 1 && t[0].action == WithSource(7) && Name(t[0]) == "move"
  {
  }

  lemma MoveFirstToken(sc: SerialCommand)
    requires SerialCommandState.Valid(sc) && sc.firstToken && Line(sc) == "move 10 20"
    ensures NextToken(sc).token == Some(Token(0, 4))
    ensures Word(sc, Token(0, 4)) == "move"
    ensures From(NextToken(sc).state) == 5
  {
    MoveCommandWord();
    assert Text(Line(sc), Token(0, 4)) == "move";
  }

  lemma MoveCommandWord()
    ensures StrTok("move 10 20", 0) == Scan(Some(Token(0, 4)), 5)
  {
  }

  lemma MoveArgumentsAfterCommand(sc: SerialCommand)
    requires SerialCommandState.Valid(sc) && sc.firstToken && Line(sc) == "move 10 20"
    ensures Drain(NextToken(sc).state) == [Token(5, 2), Token(8, 2)]
    ensures Word(NextToken(sc).state, Token(5, 2)) == "10"
    ensures Word(NextToken(sc).state, Token(8, 2)) == "20"
  {
    assert Text(Line(sc), Token(5, 2)) == "10";
    assert Text(Line(sc), Token(8, 2)) == "20";
    MoveFirstToken(sc);
    DrainIsStrTokFromCursor(NextToken(sc).state);
    MoveArguments();
  }

  lemma MoveHandle(sc: SerialCommand)
    requires SerialCommandState.Valid(sc) && sc.firstToken && Line(sc) == "move 10 20"
    ensures Closed(MoveMenu())
    ensures Handle(MoveMenu(), 0, sc).Ran?
    ensures Calls(Handle(MoveMenu(), 0, sc)) == [InvokedWithSource(7, NextToken(sc).state)]
  {
    var reg := MoveMenu();
    MoveMenuTable();
    MoveFirstToken(sc);
    assert IsFirstMatch(Table(reg[0]), "move", 0);
    var o := Handle(reg, 0, sc);
    assert o.Ran? && o.index == 0;
  }

  /** With "move" bound to a callback that reads its own arguments, the
      characters "move 10 20\n" arriving at a new `SerialCommand` fire that
      callback once; from the state it is handed the callback reads "10",
      "20" and then NULL; and the buffer is empty again afterwards. */
  lemma MoveExample(storage: seq<char>)
    requires |storage| == BufferSlots
    ensures Closed(MoveMenu())
    ensures var r := Feed(MoveMenu(), Attached(storage), "move 10 20" + [Terminator]);
            && Line(r.state) == []
            && |r.dispatched| == 1
            && r.dispatched[0].Ran? && r.dispatched[0].call.InvokedWithSource?
            && var src := r.dispatched[0].call.source;
               && Calls(r.dispatched[0]) == [InvokedWithSource(7, src)]
               && SerialCommandState.Valid(src) && Line(src) == "move 10 20"
               && Drain(src) == [Token(5, 2), Token(8, 2)]
               && Word(src, Token(5, 2)) == "10" && Word(src, Token(8, 2)) == "20"
  {
    MoveMenuTable();
    MoveFeed(storage);
    var acc := Accumulate(Attached(storage), "move 10 20");
    MoveLineAssembled(storage);
    MoveHandle(acc);
    MoveArgumentsAfterCommand(acc);
    var o := Handle(MoveMenu(), 0, acc);
    var src := NextToken(acc).state;
    assert o.call == InvokedWithSource(7, src);
    assert Line(src) == Line(acc);
  }

  /** A new `SerialCommand`, over whatever its array held, dispatching to
      handler 0. */
  function Attached(storage: seq<char>): (sc: SerialCommand)
    requires |storage| == BufferSlots
    ensures SerialCommandState.Valid(sc) && Line(sc) == [] && sc.firstToken
    ensures sc.cmdHandle == Some(0)
  {
    SetHandler(SerialCommandState.Create(storage), 0)
  }

  lemma MoveFeed(storage: seq<char>)
    requires |storage| == BufferSlots
    ensures Closed(MoveMenu())
    ensures var acc := Accumulate(Attached(storage), "move 10 20");
            Feed(MoveMenu(), Attached(storage), "move 10 20" + [Terminator])
              == Fed(ClearBuffer(acc), [Handle(MoveMenu(), 0, acc)])
  {
    MoveMenuTable();
    var reg, sc, cs := MoveMenu(), Attached(storage), "move 10 20";
    assert Terminator !in cs;
    FeedLineDispatchesIt(reg, sc, cs);
  }

  lemma MoveLineAssembled(storage: seq<char>)
    requires |storage| == BufferSlots
    ensures var acc := Accumulate(Attached(storage), "move 10 20");
            acc.firstToken && Line(acc) == "move 10 20"
  {
    var cs := "move 10 20";
    assert forall i :: 0 <= i < |cs| ==> IsPrint(cs[i]);
    ShortLineIsHeldExactly(Attached(storage), cs);
  }

  /** One handler binding "move" to a no-argument callback, with a default. */
  function FallbackMenu(): Registry {
    map[0 := SetDefault(AddCommand(CommandHandlerTable.Create(), "move", 7), Some(3))]
  }

  lemma FallbackMenuTable()
    ensures Closed(FallbackMenu())
    ensures FallbackMenu()[0].defaultHandler == Some(3)
    ensures var t := Table(FallbackMenu()[0]); |t| == 1 && Name(t[0]) == "move"
  {
  }

  lemma UnknownFirstToken(sc: SerialCommand)
    requires SerialCommandState.Valid(sc) && sc.firstToken && Line(sc) == "unknown"
    ensures NextToken(sc).token == Some(Token(0, 7))
    ensures Word(sc, Token(0, 7)) == "unknown"
  {
    UnknownWord();
    assert Text(Line(sc), Token(0, 7)) == "unknown";
  }

  lemma UnknownWord()
    ensures StrTok("unknown", 0) == Scan(Some(Token(0, 7)), 7)
  {
  }

  /** An unknown command with a default set: only the default fires, and it
      is handed the state in which `lastToken` is the unknown word. */
  lemma UnknownCommandExample(sc: SerialCommand)
    requires SerialCommandState.Valid(sc) && sc.firstToken && Line(sc) == "unknown"
    requires sc.cmdHandle == Some(0)
    ensures Closed(FallbackMenu())
    ensures var o := ReadChar(FallbackMenu(), sc, Terminator).dispatched.value;
            && Calls(o) == [InvokedDefault(3, NextToken(sc).state)]
            && LastToken(NextToken(sc).state) == Some("unknown")
  {
    var reg := FallbackMenu();
    FallbackMenuTable();
    UnknownFirstToken(sc);
    assert Truncate("unknown", MaxCommandLength) == "unknown";
    assert NoMatch(Table(reg[0]), "unknown");
    var o := Handle(reg, 0, sc);
    assert o.Defaulted?;
  }

  /** A two-level menu: handler 0 delegates "config" to handler 1, which
      binds "set" to a callback that reads its own arguments. */
  function ConfigMenu(): Registry {
    map[0 := AddHandler(CommandHandlerTable.Create(), "config", 1),
        1 := AddCommandWithSource(CommandHandlerTable.Create(), "set", 9)]
  }

  lemma ConfigMenuTables()
    ensures Closed(ConfigMenu())
    ensures var t := Table(ConfigMenu()[0]); |t| == 1 && Name(t[0]) == "config" && t[0].action == Sub(1)
    ensures var t := Table(ConfigMenu()[1]); |t| == 1 && Name(t[0]) == "set" && t[0].action == WithSource(9)
  {
  }

  lemma ConfigFirstWord()
    ensures StrTok("config set 5", 0) == Scan(Some(Token(0, 6)), 7)
  {
  }

  lemma ConfigSecondWord()
    ensures StrTok("config set 5", 7) == Scan(Some(Token(7, 3)), 11)
  {
  }

  lemma ConfigLastWord()
    ensures Tokens("config set 5", 11) == [Token(11, 1)]
  {
    assert StrTok("config set 5", 11) == Scan(Some(Token(11, 1)), 12);
    assert StrTok("config set 5", 12) == Scan(None, 12);
  }

  lemma ConfigFirstToken(sc: SerialCommand)
    requires SerialCommandState.Valid(sc) && sc.firstToken && Line(sc) == "config set 5"
    ensures NextToken(sc).token == Some(Token(0, 6)) && NextToken(sc).state.last == 7
    ensures Word(sc, Token(0, 6)) == "config"
  {
    ConfigFirstWord();
    assert Text(Line(sc), Token(0, 6)) == "config";
  }

  lemma ConfigSecondToken(sc: SerialCommand)
    requires SerialCommandState.Valid(sc) && !sc.firstToken && sc.last == 7
    requires Line(sc) == "config set 5"
    ensures NextToken(sc).token == Some(Token(7, 3))
    ensures Word(sc, Token(7, 3)) == "set"
    ensures Drain(NextToken(sc).state) == [Token(11, 1)]
    ensures Word(NextToken(sc).state, Token(11, 1)) == "5"
  {
    ConfigSecondWord();
    assert Text(Line(sc), Token(11, 1)) == "5";
    assert Text(Line(sc), Token(7, 3)) == "set";
    DrainIsStrTokFromCursor(NextToken(sc).state);
    ConfigLastWord();
  }

  /** The inner handler alone, on the state left after "config" was read. */
  lemma NestedInner(sc: SerialCommand)
    requires SerialCommandState.Valid(sc) && !sc.firstToken && sc.last == 7
    requires Line(sc) == "config set 5"
    ensures Closed(ConfigMenu())
    ensures var o := Handle(ConfigMenu(), 1, sc);
            && o.Ran? && o.token == Some(Token(7, 3))
            && o.call == InvokedWithSource(9, NextToken(sc).state)
  {
    var reg := ConfigMenu();
    ConfigMenuTables();
    ConfigSecondToken(sc);
    assert IsFirstMatch(Table(reg[1]), "set", 0);
    var o := Handle(reg, 1, sc);
    assert o.Ran? && o.index == 0;
  }

  /** "config set 5" on the two-level menu: the first handler reads
      "config", the second reads "set" and fires its callback, which can
      still read "5". */
  lemma NestedExample(sc: SerialCommand)
    requires SerialCommandState.Valid(sc) && sc.firstToken && Line(sc) == "config set 5"
    ensures Closed(ConfigMenu())
    ensures var o := Handle(ConfigMenu(), 0, sc);
            && o.Delegated? && o.token == Some(Token(0, 6))
            && o.inner.handler == 1 && o.inner.token == Some(Token(7, 3))
            && o.inner.Ran? && o.inner.call.InvokedWithSource? && o.inner.call.callback == 9
            && Drain(o.inner.call.source) == [Token(11, 1)]
            && Line(o.inner.call.source) == Line(sc)
            && Word(o.inner.call.source, Token(11, 1)) == "5"
  {
    var reg := ConfigMenu();
    ConfigMenuTables();
    ConfigFirstToken(sc);
    assert IsFirstMatch(Table(reg[0]), "config", 0);
    var n := NextToken(sc);
    var o := Handle(reg, 0, sc);
    assert o.Delegated? && o.index == 0;
    assert o.inner == Handle(reg, 1, n.state);
    NestedInner(n.state);
    ConfigSecondToken(n.state);
  }
}
