/** The `CommandHandler` class: an insertion-ordered table of command names
    bound to actions, an optional default, and `handle`, which reads one
    token and fires the action of the first binding whose name matches. */
module CommandHandlerTable {
  import opened Wrappers
  import opened Config
  import opened CString
  import opened Tokenizer
  import opened SerialCommandState

  /** Names an opaque callback function. */
  type CallbackId = nat

  /** The one slot of a `SerialCommandCallback` that an `add*` call fills:
      `function1` (no argument), `function2` (receives the SerialCommand)
      or `hand` (a sub-handler). */
  datatype Action =
    | Simple(callback: CallbackId)
    | WithSource(callback: CallbackId)
    | Sub(handler: HandlerId)

  /** A `SerialCommandCallback`: the command field holds the
      `SERIALCOMMAND_MAXCOMMANDLENGTH` significant slots written by
      `strncpy` (the extra terminator slot is never read). */
  datatype Binding = Binding(command: seq<char>, action: Action)

  /** The fields of a `CommandHandler`. `commandList` is the allocated
      array, of which the first `commandCount` entries are in use. */
  datatype CommandHandler = CommandHandler(
    commandList: seq<Binding>,
    commandCount: nat,
    defaultHandler: Option<CallbackId>)

  ghost predicate Valid(h: CommandHandler) {
    h.commandCount <= |h.commandList| && h.commandCount < ByteRange
  }

  /** The bindings `handle` scans. */
  function Table(h: CommandHandler): seq<Binding>
    requires Valid(h)
  {
    h.commandList[..h.commandCount]
  }

  /** The name a binding answers to: the C string in its command field. */
  function Name(b: Binding): seq<char> {
    Content(b.command)
  }

  /** Every handler, by identity. */
  type Registry = map<HandlerId, CommandHandler>

  /** Every handler is valid and every sub-handler it names exists. */
  ghost predicate Closed(reg: Registry) {
    forall id :: id in reg ==>
      && Valid(reg[id])
      && forall b :: b in Table(reg[id]) && b.action.Sub? ==> b.action.handler in reg
  }

  /** The `CommandHandler` constructor. */
  function Create(): (h: CommandHandler)
    ensures Valid(h) && Table(h) == [] && h.defaultHandler.None?
  {
    CommandHandler([], 0, None)
  }

  /** `strncpy` of the name into a fresh binding. */
  function MakeBinding(name: seq<char>, action: Action): (b: Binding)
    requires NulFree(name)
    ensures |b.command| == MaxCommandLength
    ensures Name(b) == Truncate(name, MaxCommandLength)
    ensures b.action == action
  {
    Binding(StrNCpy(name, MaxCommandLength), action)
  }

  /** The body shared by `addHandler` and both `addCommand`s: `realloc`
      to `commandCount + 1` entries (keeping the ones in use), fill the
      new entry, and increment the byte-sized count, which wraps to 0
      after 255. */
  function AddBinding(h: CommandHandler, name: seq<char>, action: Action): (r: CommandHandler)
    requires Valid(h) && NulFree(name)
    ensures Valid(r)
    ensures r.defaultHandler == h.defaultHandler
    ensures h.commandCount + 1 < ByteRange ==>
              && |Table(r)| == |Table(h)| + 1
              && Table(r)[..|Table(h)|] == Table(h)
              && Name(Table(r)[|Table(h)|]) == Truncate(name, MaxCommandLength)
              && Table(r)[|Table(h)|].action == action
    ensures h.commandCount + 1 == ByteRange ==> Table(r) == []
  {
    var list := h.commandList[..h.commandCount] + [MakeBinding(name, action)];
    CommandHandler(list, (h.commandCount + 1) % ByteRange, h.defaultHandler)
  }

  /** `addCommand` with a callback that takes no argument. */
  function AddCommand(h: CommandHandler, name: seq<char>, callback: CallbackId): (r: CommandHandler)
    requires Valid(h) && NulFree(name)
    ensures Valid(r) && r.defaultHandler == h.defaultHandler
    ensures h.commandCount + 1 < ByteRange ==>
              Table(r) == Table(h) + [Binding(StrNCpy(name, MaxCommandLength), Simple(callback))]
  {
    AddBinding(h, name, Simple(callback))
  }

  /** `addCommand` with a callback that receives the SerialCommand. */
  function AddCommandWithSource(h: CommandHandler, name: seq<char>, callback: CallbackId): (r: CommandHandler)
    requires Valid(h) && NulFree(name)
    ensures Valid(r) && r.defaultHandler == h.defaultHandler
    ensures h.commandCount + 1 < ByteRange ==>
              Table(r) == Table(h) + [Binding(StrNCpy(name, MaxCommandLength), WithSource(callback))]
  {
    AddBinding(h, name, WithSource(callback))
  }

  /** `addHandler`: delegate the command to another handler. */
  function AddHandler(h: CommandHandler, name: seq<char>, sub: HandlerId): (r: CommandHandler)
    requires Valid(h) && NulFree(name)
    ensures Valid(r) && r.defaultHandler == h.defaultHandler
    ensures h.commandCount + 1 < ByteRange ==>
              Table(r) == Table(h) + [Binding(StrNCpy(name, MaxCommandLength), Sub(sub))]
  {
    AddBinding(h, name, Sub(sub))
  }

  /** `setDefault`: replaces any earlier default; the table is untouched.
      NULL (`None`) is accepted and clears the default. */
  function SetDefault(h: CommandHandler, callback: Option<CallbackId>): (r: CommandHandler)
    ensures r.defaultHandler == callback
    ensures r.commandList == h.commandList && r.commandCount == h.commandCount
  {
    h.(defaultHandler := callback)
  }

  /** The test `handle` applies to a binding: `strncmp(token, command,
      SERIALCOMMAND_MAXCOMMANDLENGTH) == 0`. */
  function Matches(b: Binding, token: seq<char>): bool {
    StrNEqual(token, b.command, MaxCommandLength)
  }

  /** What the comparison means: the token and the binding's name agree in
      their first `SERIALCOMMAND_MAXCOMMANDLENGTH` characters. */
  ghost predicate Agrees(b: Binding, token: seq<char>) {
    Truncate(token, MaxCommandLength) == Truncate(Name(b), MaxCommandLength)
  }

  lemma MatchesIffAgrees(b: Binding, token: seq<char>)
    requires NulFree(token)
    ensures Matches(b, token) <==> Agrees(b, token)
  {
    StrNEqualIffTruncatedEqual(token, b.command, MaxCommandLength);
    ContentOfNulFree(token);
  }

  /** Binding `i` is the first one, in insertion order, that agrees. */
  ghost predicate IsFirstMatch(table: seq<Binding>, token: seq<char>, i: int) {
    && 0 <= i < |table|
    && Agrees(table[i], token)
    && forall j :: 0 <= j < i ==> !Agrees(table[j], token)
  }

  ghost predicate NoMatch(table: seq<Binding>, token: seq<char>) {
    forall j :: 0 <= j < |table| ==> !Agrees(table[j], token)
  }

  /** The scan of `handle`'s loop from entry `i` on. */
  function FirstMatch(table: seq<Binding>, token: seq<char>, i: nat): (r: Option<nat>)
    requires NulFree(token) && i <= |table|
    ensures r.Some? ==> i <= r.value < |table| && Agrees(table[r.value], token)
    ensures r.Some? ==> forall j :: i <= j < r.value ==> !Agrees(table[j], token)
    ensures r.None? ==> forall j :: i <= j < |table| ==> !Agrees(table[j], token)
    decreases |table| - i
  {
    if i == |table| then None
    else
      MatchesIffAgrees(table[i], token);
      if Matches(table[i], token) then Some(i) else FirstMatch(table, token, i + 1)
  }

  /** A callback `handle` invoked, with the SerialCommand state it was
      handed (positioned just after the command token). */
  datatype Invocation =
    | InvokedSimple(callback: CallbackId)
    | InvokedWithSource(callback: CallbackId, source: SerialCommand)
    | InvokedDefault(callback: CallbackId, source: SerialCommand)

  /** What one `handle` call did: the token it read and the branch taken. */
  datatype Outcome =
    | Ran(handler: HandlerId, token: Option<Token>, index: nat, call: Invocation)
    | Delegated(handler: HandlerId, token: Option<Token>, index: nat, inner: Outcome)
    | Defaulted(handler: HandlerId, token: Option<Token>, call: Invocation)
    | Ignored(handler: HandlerId, token: Option<Token>)

  /** The callbacks fired, outermost level first. */
  function Calls(o: Outcome): seq<Invocation> {
    match o
    case Ran(_, _, _, call) => [call]
    case Delegated(_, _, _, inner) => Calls(inner)
    case Defaulted(_, _, call) => [call]
    case Ignored(_, _) => []
  }

  /** The tokens read, one per level of delegation. */
  function Consumed(o: Outcome): seq<Token> {
    (if o.token.Some? then [o.token.value] else [])
    + (if o.Delegated? then Consumed(o.inner) else [])
  }

  /** The innermost `handle` call reached through delegation. */
  function Innermost(o: Outcome): Outcome {
    if o.Delegated? then Innermost(o.inner) else o
  }

  /** The fallback after the loop: the default if set, otherwise nothing. */
  function Fallback(reg: Registry, h: HandlerId, token: Option<Token>, source: SerialCommand): (o: Outcome)
    requires h in reg
    ensures o.handler == h && o.token == token
    ensures o.Defaulted? <==> reg[h].defaultHandler.Some?
    ensures o.Ignored? <==> reg[h].defaultHandler.None?
    ensures reg[h].defaultHandler.Some? ==>
              Calls(o) == [InvokedDefault(reg[h].defaultHandler.value, source)]
    ensures reg[h].defaultHandler.None? ==> Calls(o) == []
  {
    match reg[h].defaultHandler
    case Some(cb) => Defaulted(h, token, InvokedDefault(cb, source))
    case None => Ignored(h, token)
  }

  /** `handle` of handler `h`: read one token; fire the action of the first
      binding that matches it (a sub-handler reads the next token from the
      same SerialCommand); with no token or no match fire the default if
      one is set. Callbacks are opaque and do not influence what `handle`
      does after them, so they are recorded rather than run. */
  function Handle(reg: Registry, h: HandlerId, sc: SerialCommand): (o: Outcome)
    requires Closed(reg) && h in reg && SerialCommandState.Valid(sc)
    ensures o.handler == h
    ensures o.token == NextToken(sc).token
    ensures |Calls(o)| <= 1
    ensures (o.Ran? || o.Delegated?) <==>
              o.token.Some? && !NoMatch(Table(reg[h]), Word(sc, o.token.value))
    ensures (o.Ran? || o.Delegated?) ==>
              IsFirstMatch(Table(reg[h]), Word(sc, o.token.value), o.index)
    ensures o.Ran? ==>
              match Table(reg[h])[o.index].action
              case Simple(cb) => o.call == InvokedSimple(cb)
              case WithSource(cb) => o.call == InvokedWithSource(cb, NextToken(sc).state)
              case Sub(_) => false
    ensures o.Delegated? ==>
              && Table(reg[h])[o.index].action == Sub(o.inner.handler)
              && o.inner.handler in reg
              && o.inner == Handle(reg, o.inner.handler, NextToken(sc).state)
              && o.inner.token == NextToken(NextToken(sc).state).token
    ensures o.Defaulted? <==> !(o.Ran? || o.Delegated?) && reg[h].defaultHandler.Some?
    ensures o.Defaulted? ==>
              o.call == InvokedDefault(reg[h].defaultHandler.value, NextToken(sc).state)
    decreases Remaining(sc)
  {
    var next := NextToken(sc);
    var table := Table(reg[h]);
    match next.token
    case None => Fallback(reg, h, None, next.state)
    case Some(t) =>
      match FirstMatch(table, Word(sc, t), 0)
      case None => Fallback(reg, h, next.token, next.state)
      case Some(i) =>
        match table[i].action
        case Simple(cb) => Ran(h, next.token, i, InvokedSimple(cb))
        case WithSource(cb) => Ran(h, next.token, i, InvokedWithSource(cb, next.state))
        case Sub(k) => Delegated(h, next.token, i, Handle(reg, k, next.state))
  }

  /** Exactly one callback fires per `handle`, unless the innermost handler
      reached found no token or no match and has no default, in which case
      none fires. */
  lemma {:induction false} FiresOnceUnlessNoDefault(reg: Registry, h: HandlerId, sc: SerialCommand)
    requires Closed(reg) && h in reg && SerialCommandState.Valid(sc)
    ensures var o := Handle(reg, h, sc);
            && Innermost(o).handler in reg
            && |Calls(o)| == (if Innermost(o).Ignored? then 0 else 1)
            && (Innermost(o).Ignored? <==>
                  !(Innermost(o).Ran? || Innermost(o).Delegated?)
                  && reg[Innermost(o).handler].defaultHandler.None?)
    decreases Remaining(sc)
  {
    var o := Handle(reg, h, sc);
    if o.Delegated? {
      FiresOnceUnlessNoDefault(reg, o.inner.handler, NextToken(sc).state);
    }
  }

  /** Each level of delegation reads exactly one token from the shared
      SerialCommand, so the tokens the levels see are the line's tokens in
      order, starting at the cursor. */
  lemma {:induction false} DelegationReadsTokensInOrder(reg: Registry, h: HandlerId, sc: SerialCommand)
    requires Closed(reg) && h in reg && SerialCommandState.Valid(sc)
    ensures Consumed(Handle(reg, h, sc)) <= Drain(sc)
    decreases Remaining(sc)
  {
    var o := Handle(reg, h, sc);
    var n := NextToken(sc);
    if n.token.Some? {
      var rest := if o.Delegated? then Consumed(o.inner) else [];
      if o.Delegated? {
        DelegationReadsTokensInOrder(reg, o.inner.handler, n.state);
      }
      assert Consumed(o) == [n.token.value] + rest;
      assert Drain(sc) == [n.token.value] + Drain(n.state);
      PrefixCons(n.token.value, rest, Drain(n.state));
    }
  }

  lemma PrefixCons<T>(x: T, a: seq<T>, b: seq<T>)
    requires a <= b
    ensures [x] + a <= [x] + b
  {
    assert ([x] + b)[..|a| + 1] == [x] + b[..|a|];
  }

  /** First match wins: of two bindings whose names agree in their first
      `SERIALCOMMAND_MAXCOMMANDLENGTH` characters, the later one is never
      chosen, whatever the token. */
  lemma LaterDuplicateNeverChosen(table: seq<Binding>, i: nat, j: nat, token: seq<char>)
    requires i < j < |table|
    requires Truncate(Name(table[i]), MaxCommandLength) == Truncate(Name(table[j]), MaxCommandLength)
    requires NulFree(token)
    ensures FirstMatch(table, token, 0) != Some(j)
  {
  }

  /** Matching is equality after truncation, not a prefix test: a name
      shorter than the limit matches only the identical token, and a longer
      name matches every token that shares its first characters. */
  lemma NameMatchIsExactAfterTruncation(name: seq<char>, action: Action, token: seq<char>)
    requires NulFree(name) && NulFree(token)
    ensures Matches(MakeBinding(name, action), token) <==>
              Truncate(token, MaxCommandLength) == Truncate(name, MaxCommandLength)
    ensures |name| < MaxCommandLength ==>
              (Matches(MakeBinding(name, action), token) <==> token == name)
  {
    var b := MakeBinding(name, action);
    MatchesIffAgrees(b, token);
  }

  /** Registering two commands whose names agree in their first
      `SERIALCOMMAND_MAXCOMMANDLENGTH` characters: a token for that name is
      routed to whichever was registered first. */
  lemma FirstRegisteredWins(h: CommandHandler, n1: seq<char>, a1: Action, n2: seq<char>, a2: Action, token: seq<char>)
    requires Valid(h) && h.commandCount + 2 < ByteRange
    requires NulFree(n1) && NulFree(n2) && NulFree(token)
    requires Truncate(n1, MaxCommandLength) == Truncate(n2, MaxCommandLength)
    requires Truncate(token, MaxCommandLength) == Truncate(n1, MaxCommandLength)
    requires NoMatch(Table(h), token)
    ensures var t := Table(AddBinding(AddBinding(h, n1, a1), n2, a2));
            && |t| == |Table(h)| + 2
            && FirstMatch(t, token, 0) == Some(|Table(h)|)
            && t[|Table(h)|].action == a1
  {
    var h1 := AddBinding(h, n1, a1);
    var t := Table(AddBinding(h1, n2, a2));
    assert t[..|Table(h)|] == Table(h) by {
      assert t[..|Table(h1)|] == Table(h1);
    }
    var k := |Table(h)|;
    assert forall j :: 0 <= j < k ==> t[j] == Table(h)[j];
    assert Agrees(t[k], token);
    FirstMatchIsTheFirstAgreeing(t, token, k);
  }

  /** The scan from the start stops exactly at the first agreeing binding. */
  lemma FirstMatchIsTheFirstAgreeing(table: seq<Binding>, token: seq<char>, k: nat)
    requires NulFree(token) && IsFirstMatch(table, token, k)
    ensures FirstMatch(table, token, 0) == Some(k)
  {
    var r := FirstMatch(table, token, 0);
    if r.Some? {
      assert !(r.value < k);
      assert !(k < r.value);
    }
  }

  /** Adding a binding keeps every sub-handler reference resolvable, as
      long as a new sub-handler exists. */
  lemma AddBindingKeepsRegistryClosed(reg: Registry, id: HandlerId, name: seq<char>, action: Action)
    requires Closed(reg) && id in reg && NulFree(name)
    requires action.Sub? ==> action.handler in reg
    ensures Closed(reg[id := AddBinding(reg[id], name, action)])
  {
    var r := AddBinding(reg[id], name, action);
    assert forall b :: b in Table(r) ==> b in Table(reg[id]) || b.action == action;
  }

  /** Changing a default leaves every table, and so every sub-handler
      reference, as it was. */
  lemma SetDefaultKeepsRegistryClosed(reg: Registry, id: HandlerId, callback: Option<CallbackId>)
    requires Closed(reg) && id in reg
    ensures Closed(reg[id := SetDefault(reg[id], callback)])
  {
    var updated := reg[id := SetDefault(reg[id], callback)];
    forall k | k in updated
      ensures Valid(updated[k]) && Table(updated[k]) == Table(reg[k])
    {
    }
  }

  /** `setDefault(NULL)` switches the fallback off: `handle` then never
      fires a default, and a line that matches nothing fires no callback. */
  lemma ClearedDefaultNeverFires(reg: Registry, id: HandlerId, sc: SerialCommand)
    requires Closed(reg) && id in reg && SerialCommandState.Valid(sc)
    ensures var cleared := reg[id := SetDefault(reg[id], None)];
            && Closed(cleared)
            && var o := Handle(cleared, id, sc);
               && !o.Defaulted?
               && ((o.Ran? || o.Delegated?) || Calls(o) == [])
  {
    var cleared := reg[id := SetDefault(reg[id], None)];
    SetDefaultKeepsRegistryClosed(reg, id, None);
    assert cleared[id].defaultHandler.None?;
    var o := Handle(cleared, id, sc);
    if !(o.Ran? || o.Delegated?) {
      assert o.Ignored?;
    }
  }
}
