/** The `SerialCommand` class: the fixed-size line buffer that characters are
    assembled into, and the token cursor that reads words back out of it. */
module SerialCommandState {
  import opened Wrappers
  import opened Config
  import opened CString
  import opened Tokenizer

  /** Names a `CommandHandler` instance; `cmdHandle` is a pointer to one. */
  type HandlerId = nat

  /** The fields of a `SerialCommand`. The terminator and the delimiter have
      no setter and are the constants of `Config`. */
  datatype SerialCommand = SerialCommand(
    buffer: seq<char>,          // char buffer[SERIALCOMMAND_BUFFER + 1]
    bufPos: nat,                // characters held
    firstToken: bool,           // the next nextToken() starts from the buffer
    last: nat,                  // strtok_r's save pointer, as an index into buffer
    lastTok: Option<Token>,     // what nextToken() last returned
    cmdHandle: Option<HandlerId>)

  /** The invariant every reachable state keeps: the line fits, is
      NUL-terminated inside the array, holds only printable characters, and
      the cursor and the last token lie within it. */
  ghost predicate Valid(sc: SerialCommand) {
    && |sc.buffer| == BufferSlots
    && sc.bufPos <= BufferSize
    && sc.buffer[sc.bufPos] == Nul
    && (forall i :: 0 <= i < sc.bufPos ==> IsPrint(sc.buffer[i]))
    && (sc.firstToken || sc.last <= sc.bufPos)
    && (sc.lastTok.Some? ==> sc.lastTok.value.End() <= sc.bufPos)
  }

  /** The command line held so far: the C string in the buffer. */
  function Line(sc: SerialCommand): (line: seq<char>)
    requires Valid(sc)
    ensures |line| == sc.bufPos <= BufferSize
    ensures NulFree(line)
    ensures forall i :: 0 <= i < |line| ==> IsPrint(line[i])
  {
    sc.buffer[..sc.bufPos]
  }

  /** The line is the C string the buffer holds: the NUL written at
      `bufPos` ends it. */
  lemma LineIsBufferContent(sc: SerialCommand)
    requires Valid(sc)
    ensures Content(sc.buffer) == Line(sc)
  {
    ContentOfTerminated(Line(sc), sc.buffer[sc.bufPos..]);
    assert Line(sc) + sc.buffer[sc.bufPos..] == sc.buffer;
  }

  /** The characters a token views. */
  function Word(sc: SerialCommand, t: Token): (w: seq<char>)
    requires Valid(sc) && t.End() <= sc.bufPos
    ensures NulFree(w) && |w| == t.len
  {
    Text(Line(sc), t)
  }

  /** `clearBuffer`: an empty line, the tokenizer rewound, no last token.
      The rest of the array and the save pointer are left as they were. */
  function ClearBuffer(sc: SerialCommand): (r: SerialCommand)
    requires |sc.buffer| == BufferSlots
    ensures Valid(r)
    ensures Line(r) == [] && r.firstToken && r.lastTok.None?
    ensures r.cmdHandle == sc.cmdHandle
  {
    sc.(buffer := sc.buffer[0 := Nul], bufPos := 0, firstToken := true, lastTok := None)
  }

  /** The `SerialCommand` constructor, over whatever the array held before.
      `cmdHandle` is not initialised by the source; here it is unset. */
  function Create(storage: seq<char>): (r: SerialCommand)
    requires |storage| == BufferSlots
    ensures Valid(r)
    ensures Line(r) == [] && r.firstToken && r.lastTok.None? && r.cmdHandle.None?
  {
    ClearBuffer(SerialCommand(storage, 0, true, 0, None, None))
  }

  /** `setHandler`: the handler the terminator dispatches to. */
  function SetHandler(sc: SerialCommand, h: HandlerId): (r: SerialCommand)
    ensures r.cmdHandle == Some(h)
    ensures r.buffer == sc.buffer && r.bufPos == sc.bufPos
    ensures r.firstToken == sc.firstToken && r.last == sc.last && r.lastTok == sc.lastTok
  {
    sc.(cmdHandle := Some(h))
  }

  /** The printable branch of `readSerial`: append while there is room,
      keeping the line NUL-terminated; drop the character once it is full. */
  function Store(sc: SerialCommand, c: char): (r: SerialCommand)
    requires Valid(sc) && IsPrint(c)
    ensures Valid(r)
    ensures sc.bufPos < BufferSize ==> Line(r) == Line(sc) + [c] && r.bufPos == sc.bufPos + 1
    ensures sc.bufPos == BufferSize ==> r == sc
    ensures r.firstToken == sc.firstToken && r.last == sc.last
    ensures r.lastTok == sc.lastTok && r.cmdHandle == sc.cmdHandle
  {
    if sc.bufPos < BufferSize then
      var r := sc.(buffer := sc.buffer[sc.bufPos := c][sc.bufPos + 1 := Nul], bufPos := sc.bufPos + 1);
      assert Line(r) == Line(sc) + [c];
      r
    else
      sc
  }

  /** Where the next `strtok_r` call starts scanning. */
  function From(sc: SerialCommand): nat {
    if sc.firstToken then 0 else sc.last
  }

  /** A measure that every token handed out strictly decreases. */
  function Remaining(sc: SerialCommand): nat
    requires Valid(sc)
  {
    if sc.firstToken then sc.bufPos + 1 else sc.bufPos - sc.last
  }

  datatype Next = Next(token: Option<Token>, state: SerialCommand)

  /** `nextToken`: the first call after `clearBuffer` scans from the start
      of the buffer, later calls resume at the save pointer. The line itself
      is not changed, and the result is remembered for `lastToken`. */
  function NextToken(sc: SerialCommand): (r: Next)
    requires Valid(sc)
    ensures Valid(r.state)
    ensures r.state.buffer == sc.buffer && r.state.bufPos == sc.bufPos
    ensures r.state.cmdHandle == sc.cmdHandle && !r.state.firstToken
    ensures r.state.lastTok == r.token
    ensures r.token.Some? ==> FirstRunFrom(Line(sc), From(sc), r.token.value)
    ensures r.token.Some? ==> Remaining(r.state) < Remaining(sc)
    ensures r.token.None? <==> ExhaustedFrom(Line(sc), From(sc))
  {
    var scan := StrTok(Line(sc), From(sc));
    Next(scan.token, sc.(firstToken := false, last := scan.next, lastTok := scan.token))
  }

  /** `lastToken`: the word `nextToken` most recently returned, or NULL. */
  function LastToken(sc: SerialCommand): (r: Option<seq<char>>)
    requires Valid(sc)
    ensures r.None? <==> sc.lastTok.None?
    ensures r.Some? ==> NulFree(r.value) && |r.value| <= sc.bufPos
    ensures r.Some? ==> forall i :: 0 <= i < |r.value| ==> IsPrint(r.value[i])
  {
    match sc.lastTok
    case None => None
    case Some(t) => Some(Word(sc, t))
  }

  /** The tokens successive `nextToken` calls return before the first NULL. */
  function Drain(sc: SerialCommand): seq<Token>
    requires Valid(sc)
    decreases Remaining(sc)
  {
    var n := NextToken(sc);
    if n.token.None? then [] else [n.token.value] + Drain(n.state)
  }

  /** `lastToken` reports what `nextToken` just returned, and is NULL right
      after `clearBuffer`; reading it does not move the cursor, since it is
      a pure read of the state. */
  lemma LastTokenFollowsNextToken(sc: SerialCommand)
    requires Valid(sc)
    ensures NextToken(sc).token.None? ==> LastToken(NextToken(sc).state).None?
    ensures NextToken(sc).token.Some? ==>
              LastToken(NextToken(sc).state) == Some(Word(sc, NextToken(sc).token.value))
    ensures LastToken(ClearBuffer(sc)) == None
    ensures NextToken(ClearBuffer(sc)).token == None
  {
  }

  /** Successive `nextToken` calls are `strtok_r` run from the cursor. */
  lemma {:induction false} DrainIsStrTokFromCursor(sc: SerialCommand)
    requires Valid(sc)
    ensures Drain(sc) == Tokens(Line(sc), From(sc))
    decreases Remaining(sc)
  {
    var n := NextToken(sc);
    if n.token.Some? {
      DrainIsStrTokFromCursor(n.state);
    }
  }

  /** After `clearBuffer` (or before the first `nextToken` of a line),
      successive `nextToken` calls return exactly the maximal space-free
      runs of the line, left to right, and then NULL. */
  lemma FreshLineYieldsEveryWordInOrder(sc: SerialCommand)
    requires Valid(sc) && sc.firstToken
    ensures forall t :: t in Drain(sc) <==> IsToken(Line(sc), t)
    ensures LeftToRight(Drain(sc))
  {
    DrainIsStrTokFromCursor(sc);
    TokensAreTheMaximalRuns(Line(sc), 0);
  }

  /** Once `nextToken` has returned NULL it keeps returning NULL. */
  lemma NullIsFinal(sc: SerialCommand)
    requires Valid(sc) && NextToken(sc).token.None?
    ensures NextToken(NextToken(sc).state).token.None?
    ensures Drain(NextToken(sc).state) == []
  {
  }
}
