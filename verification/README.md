# SerialCommand, modelled in Dafny

This project models the core of the Arduino *SerialCommand* library. The library reads characters from a
serial port one at a time and collects them into a fixed 48-character line buffer. When it sees the
terminator (newline) it splits the line into space-separated words. It then looks up the first word in
a `CommandHandler`'s table of commands. The matching entry fires a callback, or hands the rest of the
line to a nested `CommandHandler`. With no word, or no matching entry, the handler's default callback
fires if one is set.

The model is functional: immutable state records and pure step functions. The modules follow the two
classes of `SerialCommand.h`:

- `Config`: the compile-time constants (`SERIALCOMMAND_BUFFER` = 48, `SERIALCOMMAND_MAXCOMMANDLENGTH`
  = 12), the fixed terminator `'\n'` and delimiter `' '`, and `isprint` as the range 0x20 to 0x7E.
- `CString`: `strncpy` into a 12-slot name field, and `strncmp` compared character by character. It
  proves that `strncmp(...) == 0` means the two names are equal after truncation to 12 characters.
  This is not a prefix test.
- `Tokenizer`: `strtok_r` with the delimiter `" "`, as a cursor over a line that is never changed.
  Tokens are `(start, len)` views into the line. It proves that successive calls return exactly the
  maximal space-free runs, left to right.
- `SerialCommandState`: the `SerialCommand` class. Its state is the raw 49-slot buffer, `bufPos`,
  `firsttoken`, the `strtok_r` save pointer, `lastTok` and `cmdHandle`. It models `clearBuffer`,
  `nextToken`, `lastToken`, the constructor, `setHandler`, and the printable-character branch of
  `readSerial`.
- `CommandHandlerTable`: the `CommandHandler` class. It models the binding table, with `commandCount`
  as a byte that wraps; the `add*` functions; `setDefault`; and `handle`. `handle` returns an
  `Outcome` that records which callback fired, at which delegation level, and with which
  `SerialCommand` state. Callbacks are opaque, so they are not run.
- `ReadSerial`: the body of `readSerial`'s loop for one character (`ReadChar`), and the same body
  folded over a sequence of characters (`Feed`).
- `Scenarios`: worked examples on concrete lines ("move 10 20", an unknown command, and a nested
  "config set 5").

Handlers are identified by a `HandlerId`, and all handlers live in a `Registry` map. A `Sub(id)` binding
is the `hand` pointer of the source. `handle` recurses through sub-handlers on the shared
`SerialCommand`. Handler graphs may be cyclic. The recursion still terminates because each level reads
one token, and `Remaining` decreases with every token read.

## Model

| member | source | states |
|---|---|---|
| CString.StrNCpy | SerialCommand.cpp:45 | the stored field has exactly 12 slots, and its C string is the name cut to its first 12 characters |
| CString.StrNEqual | SerialCommand.cpp:102 | `strncmp(a, b, n) == 0` holds exactly when every position below `n` that is not past a NUL of `a` holds the same character in both arrays, which is how the C standard defines the comparison |
| CString.StrNEqualIffTruncatedEqual | SerialCommand.cpp:102 | `strncmp(a, b, 12) == 0` exactly when the C strings of `a` and `b`, each cut to 12 characters, are equal |
| Tokenizer.StrTok | SerialCommand.cpp:177-185 | one `strtok_r` call returns the first run of non-spaces at or after the cursor, skipping leading spaces, and cut at the next space or the end of the line. It returns NULL exactly when only spaces remain, and then leaves the cursor at the end. After a token the cursor is just past the delimiter that ended it, or at the end of the line when no delimiter did |
| Tokenizer.TokensAreTheMaximalRuns | SerialCommand.cpp:177-185 | calling `strtok_r` from a token boundary until NULL yields exactly the maximal space-free runs at or after it, each ending before the next begins |
| Tokenizer.ExhaustedStaysExhausted | SerialCommand.cpp:182 | once `strtok_r` returns NULL, the next call returns NULL too |
| SerialCommandState.Line | SerialCommand.h:99-100 | the line held is the NUL-terminated content of the 49-slot buffer, has `bufPos` ≤ 48 characters, and all of them are printable |
| SerialCommandState.LineIsBufferContent | SerialCommand.cpp:156-157 | the line is exactly the C string in the buffer: the NUL at `bufPos` ends it |
| SerialCommandState.Create | SerialCommand.cpp:126-133 | a new `SerialCommand`, whatever its array held before, has an empty line, rewound tokenizer, NULL last token and no handler set |
| SerialCommandState.SetHandler | SerialCommand.cpp:135-137 | `setHandler` records the handler and changes nothing else |
| SerialCommandState.ClearBuffer | SerialCommand.cpp:166-171 | after `clearBuffer` the line is empty, `bufPos` is 0, `firsttoken` is true and `lastTok` is NULL; the handler is kept |
| SerialCommandState.Store | SerialCommand.cpp:154-158 | below 48 characters a printable character is appended at `bufPos`, `bufPos` grows by one and the earlier content is kept; at 48 the character is dropped and the state is unchanged; the invariant (NUL in bounds) is kept |
| SerialCommandState.NextToken | SerialCommand.cpp:177-185 | `nextToken` scans from the buffer start on the first call and from the save pointer afterwards; returns the first space-free run there, or NULL when only spaces remain; records it as `lastTok`; leaves the line unchanged; and a returned token strictly decreases `Remaining` |
| SerialCommandState.LastToken | SerialCommand.cpp:191-193 | `lastToken` is NULL exactly when no token is recorded; otherwise it is a printable, NUL-free word no longer than the line |
| SerialCommandState.LastTokenFollowsNextToken | SerialCommand.cpp:191-193 | `lastToken` gives the word `nextToken` just returned, or NULL when that was NULL, and is NULL right after `clearBuffer`; on a cleared buffer the first `nextToken` returns NULL |
| SerialCommandState.DrainIsStrTokFromCursor | SerialCommand.cpp:177-185 | repeated `nextToken` calls are the `strtok_r` calls made from the cursor |
| SerialCommandState.FreshLineYieldsEveryWordInOrder | SerialCommand.cpp:177-185 | from a fresh line, successive `nextToken` calls return exactly the maximal space-free runs of the line, left to right, then NULL |
| SerialCommandState.NullIsFinal | SerialCommand.cpp:182-184 | after `nextToken` has returned NULL it keeps returning NULL |
| CommandHandlerTable.Create | SerialCommand.cpp:30-36 | a new handler has no bindings and no default |
| CommandHandlerTable.MakeBinding | SerialCommand.cpp:45-48 | a binding's field has 12 significant slots, its name is the registered name cut to 12 characters, and it holds exactly the one action given |
| CommandHandlerTable.AddBinding | SerialCommand.cpp:44-49 | below 255 bindings, exactly one binding is appended at the end and the existing ones are kept; the default is unchanged; at 255 the byte count wraps to 0 and the table becomes empty |
| CommandHandlerTable.AddCommand | SerialCommand.cpp:57-65 | appends one binding with a no-argument callback and the name cut to 12 characters; everything else is unchanged |
| CommandHandlerTable.AddCommandWithSource | SerialCommand.cpp:72-80 | appends one binding with a callback that receives the `SerialCommand`; everything else is unchanged |
| CommandHandlerTable.AddHandler | SerialCommand.cpp:42-50 | appends one binding that delegates to a sub-handler; everything else is unchanged |
| CommandHandlerTable.SetDefault | SerialCommand.cpp:86-88 | sets or replaces the default, and NULL clears it; the table is left alone |
| CommandHandlerTable.ClearedDefaultNeverFires | SerialCommand.cpp:86-120 | after `setDefault(NULL)`, `handle` never fires a default, and a line that matches nothing fires no callback |
| CommandHandlerTable.MatchesIffAgrees | SerialCommand.cpp:102 | the `strncmp` test on a binding holds exactly when token and name agree in their first 12 characters |
| CommandHandlerTable.FirstMatch | SerialCommand.cpp:99-115 | the loop stops at the first binding, in insertion order, whose name agrees with the token; it finds none exactly when no binding agrees |
| CommandHandlerTable.FirstMatchIsTheFirstAgreeing | SerialCommand.cpp:99-114 | whenever binding `k` is the first that agrees with the token, the loop stops exactly at `k` |
| CommandHandlerTable.Fallback | SerialCommand.cpp:117-120 | after no match (or no token) the default fires, handed the `SerialCommand`, exactly when one is set; otherwise nothing fires |
| CommandHandlerTable.Handle | SerialCommand.cpp:93-121 | `handle` reads one token. A binding fires exactly when a token was read and some binding agrees with it; the binding fired is the first such one. Only the action kind stored there fires. A callback is handed the state positioned after the command. A sub-handler reads the very next token. The default fires exactly when nothing matched (no token included) and a default is set. At most one callback fires |
| CommandHandlerTable.FiresOnceUnlessNoDefault | SerialCommand.cpp:104-120 | exactly one callback fires per line, unless the innermost handler reached matched nothing and has no default; then none fires |
| CommandHandlerTable.DelegationReadsTokensInOrder | SerialCommand.cpp:109-110 | each delegation level consumes exactly one token, so the tokens the levels see are a prefix of the line's remaining tokens, in order |
| CommandHandlerTable.LaterDuplicateNeverChosen | SerialCommand.cpp:99-114 | of two bindings whose names agree in 12 characters, the later one is never chosen |
| CommandHandlerTable.NameMatchIsExactAfterTruncation | SerialCommand.cpp:102 | a registered name matches a token exactly when both agree after truncation to 12; a name shorter than 12 matches only the identical token, not tokens it is a prefix of |
| CommandHandlerTable.FirstRegisteredWins | SerialCommand.cpp:99-114 | registering two names equal in their first 12 characters routes their token to whichever was registered first |
| CommandHandlerTable.AddBindingKeepsRegistryClosed | SerialCommand.cpp:42-50 | adding a binding to a handler keeps every sub-handler reference resolvable |
| CommandHandlerTable.SetDefaultKeepsRegistryClosed | SerialCommand.cpp:86-88 | changing a default leaves every handler's table as it was, so every sub-handler reference stays resolvable |
| ReadSerial.ReadChar | SerialCommand.cpp:149-158 | the terminator is tested first: it dispatches the current line once, even when the buffer is full, then clears the buffer. A printable character is stored while there is room. Anything else leaves the state unchanged. The buffer invariant is kept |
| ReadSerial.Accept | SerialCommand.cpp:154-159 | a character other than the terminator is appended while it is printable and the buffer has room; otherwise the state is unchanged. Either way the handler, `firsttoken`, the save pointer and `lastTok` are kept |
| ReadSerial.Feed | SerialCommand.cpp:145-160 | over any run of characters, `bufPos` stays within 48 and `handle` runs once per terminator |
| ReadSerial.FeedConcat | SerialCommand.cpp:145-160 | reading two runs of characters is reading the first and then the second from where it left off; the `handle` calls are those of the first run followed by those of the second |
| ReadSerial.FeedLineDispatchesIt | SerialCommand.cpp:149-159 | characters up to a terminator make exactly one `handle` call, by the handler set with `setHandler`, on the line assembled from them since the previous terminator; the buffer is then cleared |
| ReadSerial.FeedWithoutTerminatorAccumulates | SerialCommand.cpp:149-159 | without a terminator `readSerial` dispatches nothing and only stores or ignores characters |
| ReadSerial.AccumulateFillsUpToCapacity | SerialCommand.cpp:154-158 | storing characters one by one leaves the old line followed by the printable characters, cut at 48 |
| ReadSerial.FeedWithoutTerminatorFillsUpToCapacity | SerialCommand.cpp:154-158 | without a terminator nothing is dispatched; the line becomes the old line followed by the printable characters, cut at 48; excess characters are dropped and earlier content is not disturbed |
| ReadSerial.ShortLineIsHeldExactly | SerialCommand.cpp:154-158 | a printable line of at most 48 characters, fed into an empty buffer, is held exactly as it arrived |
| ReadSerial.EmptyLineReachesDefault | SerialCommand.cpp:96-120 | an empty line still reaches the default once when one is set, and fires nothing otherwise |
| Scenarios.SplitExample | SerialCommand.cpp:177-185 | "move 10 20" is split into three tokens, then NULL: four characters at 0, two at 5 and two at 8 ("move", "10", "20") |
| Scenarios.MoveExample | SerialCommand.cpp:145-159 | the characters "move 10 20" and a newline, arriving at a new `SerialCommand`, fire the "move" callback once; that callback then reads "10", "20", NULL; and the buffer is empty afterwards |
| Scenarios.UnknownCommandExample | SerialCommand.cpp:117-120 | an unknown word fires only the default, and `lastToken` then gives that word |
| Scenarios.NestedExample | SerialCommand.cpp:109-110 | "config set 5" is delegated from the outer handler to the inner one, which reads "set" and fires its callback, and "5" is still unread |

## Left out

- The `Serial.available()` / `Serial.read()` polling loop (SerialCommand.cpp:145-147) is hardware I/O.
  `ReadChar` models one pass of its body, and `Feed` models a run of passes over a given sequence of
  characters.
- Memory management is not modelled: `realloc`, its unchecked failure, and the 13th slot of a name field
  (which is never written or read). The binding array is a `seq`.
- `strtok_r` writes NULs into the buffer and returns pointers. Tokens here are index views into a line
  that does not change. If characters were stored after tokenizing had begun but before `clearBuffer`,
  the source's buffer would hold NULs that the model does not. This needs `nextToken` to be called
  outside a dispatch.
- Callback bodies are opaque function pointers. `handle` records which callback it invoked and with
  which `SerialCommand` state, instead of running it. What a callback does to the token cursor cannot
  change the rest of `handle`, and the buffer is cleared after `handle` anyway. A callback that re-enters
  `readSerial` or `handle` is not modelled.
- Every `CommandHandler` in a `Registry` is assumed to read from the same `SerialCommand`. The source
  lets each handler be built over a different one.
- The constructor leaves `cmdHandle` uninitialised. Here it is unset, and the terminator step requires
  `setHandler` to have been called first.
- A NULL function pointer passed to either `addCommand` (SerialCommand.cpp:61-63, 76-78) leaves all
  three slots of the binding NULL. A token that matches it then fires nothing, yet still counts as
  matched and blocks the default (SerialCommand.cpp:105-113). `Action` has no case for such a binding,
  so every binding fires a callback or delegates.
- Callbacks are assumed not to call `setHandler`, `addCommand`, `addHandler` or `setDefault`. The source
  re-reads `cmdHandle` at every terminator (SerialCommand.cpp:150), so a callback could change the
  dispatch target or a handler's table for later lines. `ReadChar` keeping `cmdHandle` and `Feed`
  working on one fixed `Registry` hold only under this assumption.
- `isprint` is taken as the range 0x20 to 0x7E. Locale effects and signed `char` values above 0x7F are
  not modelled.
- CommandHandlerTable.AddCommand: states the append only while fewer than 255 bindings exist. The wrap-around
  at the 256th binding is stated on CommandHandlerTable.AddBinding, which it calls.
- CommandHandlerTable.AddCommandWithSource: as for AddCommand, the wrap-around is stated on AddBinding.
- CommandHandlerTable.AddHandler: as for AddCommand, the wrap-around is stated on AddBinding.
