# Vantage: verified models of the agent protocol, the tab machines and the small codecs

This project models the parts of the Vantage browser that are plain state machines, text codecs
and arithmetic under its GTK shell, and proves what they promise for every input and every run.
`dafny verify dfyconfig.toml` checks all of it.

Where the source updates an object, the model is a class with the same fields, and each method is
proved to take the object's abstract value to the value a specification function gives. Whole runs
are then reasoned about on those values. Where the source walks a text with a cursor, the method
keeps the cursor loop and is proved to compute a function on the rest of the text.

| file | models |
|---|---|
| `Text.dfy`, `Lists.dfy` | bytes, searches, list edits shared by the others |
| `JsonText.dfy` | string literals: the escaper, the lenient reader, `\u` escapes as UTF-8 (RFC 8259 section 7, RFC 3629 sections 3 and 4) |
| `JsonField.dfy`, `JsonTree.dfy`, `JsonFieldLaws.dfy` | the raw-text accessor `field`, JSON texts as trees with white space, and what `field` returns on them |
| `AgentWire.dfy`, `WireLaws.dfy`, `StringObject.dfy` | requests, replies, errors, the receive loop, and the string-object parameter reader |
| `WatchReply.dfy` | the `events.since` reply and what the watching client reads from it |
| `EventLog.dfy` | the event ring, its refinement of an unbounded history, and readers that poll it |
| `BrowserModel.dfy`, `BrowserLaws.dfy` | the single tab strip with discarding, reordering and the recently-closed stack |
| `NativeShell.dfy`, `NativeLaws.dfy` | the multi-window shell with tab moves, drags and deferred detach |
| `TabStrip.dfy`, `TabStripLaws.dfy` | the width allocator of the tab strip |
| `FetchBody.dfy` | the bounded body reader of `net.fetch` |
| `DownloadName.dfy` | the download name sanitiser and the collision loop |
| `Preferences.dfy` | the preferences file and the per-site Dark Mode list |
| `Navigation.dfy` | the address bar policy and the query encoding |

## What came out false, and exactly when it holds

- The params of a request do not always come back from `parse_request`. The lookup of "params" is a
  search in raw text, and an id that is `params` or ends in `"params` makes it land on the method
  name. `AgentWire.RequestRoundTrip` states the exact condition, and `AgentWire.HijackedParams` is
  a concrete request the server misreads. On the wire a newline in the params also ends the request
  early (`AgentWire.RequestOverTheWire`, `AgentWire.CutParams`); `WireLaws.TreeOverTheWireIff` says
  for which JSON params that matters.
- In the same way a reply's result comes back exactly when the id does not mention "result"
  (`AgentWire.ReplyRoundTrip`); an id that does makes the client read `true`
  (`AgentWire.HijackedResult`).
- A parameter that must be an object of strings is also taken from a string that holds the text of
  one, since `field` decodes strings first (`StringObject.OnlyObjects`).
- Delivery from the event ring is gapless exactly when no poll was overtaken by eviction or clear
  (`EventLog.GaplessIffNeverOvertaken`, `EventLog.EvictionLoses`). `vant agent watch` moves its
  cursor to the latest sequence (src/agent_rpc.cpp:200), so it also loses what is pending beyond one
  batch (`EventLog.WatchLoses`); `EventLog.DeliveredOrLost` says precisely which events either reader
  loses.
- Polling does not always bring a conforming reader to the latest sequence: one that is behind when
  the ring is cleared has nothing pending and stays behind until the next publish
  (`EventLog.CatchUp`, `EventLog.BehindAfterClear`).
- Turning Dark Mode on for a domain is seen by the query exactly when the domain is not empty and
  has neither `|` nor a newline (`Preferences.SetDarkIsSeenIff`). The setter refuses the first two
  but writes the third to the file as it is, where its lines are read as a list and as entries of
  their own: setting `a` newline `b` switches `a` on (`Preferences.NewlineSwitchesOther`), `k=v` behind
  the newline becomes a preference (`Preferences.NewlineAddsEntry`), and domains can go off. Sets of
  a domain leave all other domains alone, for every file, exactly when it is empty, has a `|`, or has
  no newline (`Preferences.KeepsOthersIff`), and all other entries too (`Preferences.KeepsRestIff`).
- A preferences map survives being written and read exactly when no key has `=` or a newline and no
  value has a newline (`Preferences.WriteThenRead`, `Preferences.NewlineIsLost`).
- Resolving an accepted navigation result again gives the same decision exactly when the result has
  at most 8192 bytes (`Navigation.ResolveIsIdempotent`, `Navigation.LongHostIsRefused`).
- The strip is not exceeded exactly when the placeholder leaves room for one minimal tab
  (`TabStripLaws.AllocationFits`, `TabStripLaws.NarrowStripOverflows`).
- A drag does not always end in just one of dropped, queued for detach or left in place: a drop that
  succeeded and a cancel that the user did not ask for have both effects (`NativeLaws.DragResult`,
  `NativeLaws.DroppedAndQueued`).
- Closing a whole window retires none of its tabs: their ids still resolve
  (`NativeLaws.ClosedWindowStillResolves`).
- `since` with a limit of zero returns one event (src/agent_rpc.cpp:150); the model does the same.
- `file:` addresses are accepted as web (src/navigation.cpp:59), although docs/SECURITY.md:15-17
  says that they are rejected. The model follows the code.

## Model

| member | source | states |
|---|---|---|
| JsonText.JsonEscape | src/agent_rpc.cpp:107 | the escape loop gives the escaped text |
| JsonText.Utf8RoundTrip | src/agent_rpc.cpp:78-86 | the bytes a `\u` escape appends decode to that code point, shortest form only, and are strict UTF-8 exactly unless it is a surrogate |
| JsonText.ReadUnicodeEscape | src/agent_rpc.cpp:65-88 | any four hexadecimal digits behind `\u` read as that code point in UTF-8 |
| JsonText.HexValueIff | src/agent_rpc.cpp:70-75 | a byte has the value v exactly when it is the v-th digit of the lower or the upper row |
| JsonText.Hex4Spells | src/agent_rpc.cpp:67-76 | four digits spell their number, most significant first |
| JsonText.Hex4Iff | src/agent_rpc.cpp:66-76 | and nothing but four digits spells one |
| JsonText.ReadShortEscape | src/agent_rpc.cpp:56-92 | `\b`, `\t`, `\n`, `\f` and `\r` read as bytes 8, 9, 10, 12 and 13, and every other byte behind a backslash but `u` as itself |
| JsonText.ReadPlainByte | src/agent_rpc.cpp:94-95 | every byte but the quote and the backslash reads as itself, control bytes too |
| JsonText.ReadBadEscape | src/agent_rpc.cpp:54-97 | a `\u` without four digits, a backslash at the end and a missing quote fail |
| JsonText.ReadHex4 | src/agent_rpc.cpp:67-76 | the digit loop computes the code point, or fails at the first byte that is no digit |
| JsonText.AppendUtf8 | src/agent_rpc.cpp:78-86 | the three branches append the code point's bytes |
| JsonText.ReadEscape | src/agent_rpc.cpp:53-92 | the escape branch: the bytes it appends and how far the cursor goes, or failure at a cut or bad escape |
| JsonText.ReadJsonString | src/agent_rpc.cpp:46-98 | the cursor loop decodes the literal at the cursor, leaves the cursor behind its closing quote, and fails exactly when the literal is malformed or unfinished |
| JsonText.ReadOfBody | src/agent_rpc.cpp:46-98 | any bytes and escapes the reader takes are read up to the quote behind them, whatever follows |
| JsonText.BodyOfRead | src/agent_rpc.cpp:46-98 | and whatever the reader takes is such bytes and a quote |
| JsonText.EscapeIsBody | src/agent_rpc.cpp:107 | what `json_escape` prints is among them and stands for the string |
| JsonText.ReadPrinted | src/agent_rpc.cpp:46-108 | reading an escaped string gives it back, for every byte string and whatever text follows |
| JsonText.ReadPrintedAt | src/agent_rpc.cpp:46-108 | the same at every offset of every text, with the cursor right behind the literal |
| JsonText.EscapeInjective | src/agent_rpc.cpp:107 | different strings have different escaped forms |
| JsonText.EscapePrints | src/agent_rpc.cpp:107 | the escaped text has no control byte, and the five short forms are used |
| JsonText.ReadExtends | src/agent_rpc.cpp:46-98 | what has been read stays read when more text follows |
| JsonText.CutLiteralFails | src/agent_rpc.cpp:46-98 | any literal the reader takes is refused when it is cut short, wherever |
| JsonField.ScanValue | src/agent_rpc.cpp:37-38 | the depth, quote and escape loop stops where the scan function says |
| JsonField.ReadValue | src/agent_rpc.cpp:34-40 | the part of `field` behind the colon: white space, a literal or a scanned and trimmed value, nothing at the end of the text |
| JsonField.FindValue | src/agent_rpc.cpp:31-33 | the part of `field` up to the colon: the first quoted key, then the first colon behind it |
| JsonField.Field | src/agent_rpc.cpp:30-41 | the cursor code of `field` computes the accessor function |
| JsonField.AbsentKeyHasNoField | src/agent_rpc.cpp:31 | a text in which the quoted key occurs nowhere has no such field |
| JsonField.FieldIsBehindFirstColon | src/agent_rpc.cpp:31-33 | the field is the value behind the first colon behind the first quoted key, and there is none without such a colon |
| JsonField.NoValue | src/agent_rpc.cpp:34-36 | nothing but white space behind the colon, or a literal that cannot be read, is no value |
| JsonField.SpaceIsSkipped | src/agent_rpc.cpp:34 | exactly the blank and the bytes 9 to 13 are skipped before a value |
| JsonField.ScanStopsAtFirst | src/agent_rpc.cpp:37-38 | on every text the scan stops at the first comma or closing bracket that stands outside literals with every bracket before it closed, and else at the end |
| JsonField.ScannedValue | src/agent_rpc.cpp:34-40 | so a value that is no literal is the text up to there, without the white space around it |
| JsonTree.EscapedQuotes | src/agent_rpc.cpp:107 | every quote in escaped text stands behind a backslash and comes from a quote of the string, with the escaped rest behind it |
| JsonTree.BodyQuotes | src/agent_rpc.cpp:52-53 | every quote inside a literal stands behind a backslash |
| JsonTree.SafeString | src/agent_rpc.cpp:30-32 | a literal that does not end with the quoted key closes no quoted key, even behind other text |
| JsonTree.ClosedKeyIsMentioned | src/agent_rpc.cpp:30-32 | a printed string ends with the quoted key only if it is the key or ends with a quote and the key |
| JsonTree.MentionClosesKey | src/agent_rpc.cpp:30-32 | and then it always does |
| JsonTree.ClosesText | src/agent_rpc.cpp:30-32 | the literal printed for a string ends with the quoted key exactly when the string is the key or ends with a quote and the key |
| JsonTree.FoundAtEnd | src/agent_rpc.cpp:31-32 | a quoted key behind safe text is found there and not earlier |
| JsonFieldLaws.PrintShape | src/agent_rpc.cpp:107-108 | a value neither starts nor ends with white space, and starts with a quote exactly when it is a string |
| JsonFieldLaws.Unpad | src/agent_rpc.cpp:34-39 | a padded value is its core between white space |
| JsonFieldLaws.SafeTree | src/agent_rpc.cpp:30-32 | no JSON text none of whose literals ends with the quoted key contains the quoted key |
| JsonFieldLaws.ScanTree | src/agent_rpc.cpp:37-38 | over every JSON tree, with any literals the reader takes and white space anywhere, at every depth and before any text, the scan runs over exactly the tree and is then where it was |
| JsonFieldLaws.ValueAtTree | src/agent_rpc.cpp:34-40 | the value read at a printed tree is that tree without the white space around it, decoded when it is a string |
| JsonFieldLaws.FieldAtKey | src/agent_rpc.cpp:31-33 | behind members whose literals do not end with the quoted key, the lookup lands behind the key's own colon, whatever follows |
| JsonFieldLaws.FieldAtMention | src/agent_rpc.cpp:31-33 | when a string value is the first literal to end with the quoted key, it lands behind the next colon instead |
| JsonFieldLaws.FieldOfMember | src/agent_rpc.cpp:30-41 | `field` finds a member's value when no earlier literal ends with its quoted key, whatever follows and with white space anywhere |
| JsonFieldLaws.FieldBehindMention | src/agent_rpc.cpp:30-41 | when a string value is the first literal to end with the quoted key, `field` returns the value of the member behind it instead |
| JsonFieldLaws.QuotedKeyOccursIff | src/agent_rpc.cpp:30-31 | a JSON text contains the quoted key exactly when one of its literals, at any depth, ends with it |
| JsonFieldLaws.QuietHasNoField | src/agent_rpc.cpp:30-31 | a JSON text none of whose literals ends with the quoted key has no such field |
| AgentWire.ParseRequest | src/agent_rpc.cpp:99-102 | id and method are required, absent params are an empty object |
| WireLaws.ParsedObject | src/agent_rpc.cpp:99-102 | any object with an id, a method and params is accepted with their values, members in any order and white space anywhere |
| WireLaws.ParsedWithoutParams | src/agent_rpc.cpp:102 | without params, the params are the empty object |
| WireLaws.NamelessIsNoRequest | src/agent_rpc.cpp:100 | a JSON text that names no id, or no method, is no request |
| WireLaws.ServedLine | src/agent_rpc.cpp:187 | a line is too large exactly above 1048576 bytes, and else is served as its own text parses, whatever follows it |
| WireLaws.NamelessIsInvalid | src/agent_rpc.cpp:187 | the server refuses a JSON text that names no id or no method as invalid |
| WireLaws.NamedIsAccepted | src/agent_rpc.cpp:187 | it accepts an object that names both, with its params, or with the empty object if it names none |
| AgentWire.RequestIsPrintedTree | src/agent_rpc.cpp:104 | a request line is the printed tree of its four members and a newline |
| AgentWire.RequestId | src/agent_rpc.cpp:99-104 | the id comes back for every id, method and text behind the params key |
| AgentWire.RequestMethod | src/agent_rpc.cpp:99-104 | so does the method, even when the id mentions "method" |
| AgentWire.RequestParams | src/agent_rpc.cpp:99-104 | for any text behind the params key, the params are the value it starts with, unless the id mentions "params"; then they are the method name |
| AgentWire.ParsedWith | src/agent_rpc.cpp:99-104 | every such line is accepted, with the id and the method it was printed from |
| AgentWire.RequestRoundTrip | src/agent_rpc.cpp:99-104 | for params that are a JSON text with white space anywhere, parsing what was printed gives the same request exactly when the id does not mention "params" or the method is the params text |
| AgentWire.ReceiveLine | src/agent_rpc.cpp:187 | the receive loop returns the bytes before the first newline, and refuses a line exactly when it is over 1 MiB |
| AgentWire.Serve | src/agent_rpc.cpp:187 | too large, invalid, or accepted as parsed |
| AgentWire.RequestOverTheWire | src/agent_rpc.cpp:99-104 | for every params text, and whatever else is on the wire, the server refuses an over-long line or accepts the id and method as printed, and of the params what stands before their first newline |
| AgentWire.TreeOverTheWire | src/agent_rpc.cpp:99-104 | JSON params without a newline arrive as they were sent, unless the id mentions "params" |
| AgentWire.HijackedParams | src/agent_rpc.cpp:102 | a concrete request for which the params are read from the method |
| AgentWire.CutParams | src/agent_rpc.cpp:187 | a concrete request whose params arrive cut at a newline |
| WireLaws.ParamsArriveIff | src/agent_rpc.cpp:99-104 | unless the id mentions "params", the server takes the params that were sent exactly when neither they nor the white space before them has a newline, or the newline is before them and they are the empty object |
| WireLaws.TreeOverTheWireIff | src/agent_rpc.cpp:99-104 | so over the wire, for every request that fits the line and whatever follows it |
| AgentWire.ReplyIsPrintedTree | src/agent_rpc.cpp:146 | a reply is the printed tree of its four members |
| AgentWire.ReplyResult | src/agent_rpc.cpp:146 | for any result text, and whatever follows the reply, the client reads the value the result starts with, or true when the id mentions "result" |
| AgentWire.ReplyRoundTrip | src/agent_rpc.cpp:146 | the result comes back from the reply exactly when the id does not mention "result" or the result reads true |
| AgentWire.HijackedResult | src/agent_rpc.cpp:146 | a concrete reply whose result is read as true |
| AgentWire.CliReply | src/agent_rpc.cpp:220 | the command line client prints a result that is not a string byte for byte, but for white space around it, whatever escapes its strings use |
| WireLaws.ErrorsNeverLookOk | src/agent_rpc.cpp:147 | no error reply contains `"ok":true`, whatever its id, code and message contain |
| WireLaws.AnswersLookOk | src/agent_rpc.cpp:146 | every answer does, so the client's search tells the two apart |
| WireLaws.ErrorIsPrintedTree | src/agent_rpc.cpp:147 | an error reply is the printed tree of its id, ok: false, and the code and the message in their places |
| WatchReply.EventIsTree | src/native_app.cpp:4545 | a printed event is a JSON object |
| WatchReply.SinceIsTree | src/native_app.cpp:4545 | the reply to `events.since` is a printed JSON tree for every list of events |
| WatchReply.WatchReadsLatest | src/agent_rpc.cpp:200 | whatever the events contain, the watching client finds the result in the reply and the latest sequence in the result |
| WatchReply.WatchMovesToLatest | src/agent_rpc.cpp:200 | so its cursor becomes that of the watching reader of the event log |
| StringObject.ReadPair | src/agent_rpc.cpp:133-140 | one name, colon and value, with the cursor behind them |
| StringObject.ReadPairs | src/agent_rpc.cpp:138-142 | the pair loop |
| StringObject.JsonParamStringObject | src/agent_rpc.cpp:127-144 | the cursor code computes the reader function |
| StringObject.PairsOfMembers | src/agent_rpc.cpp:138-142 | over printed members and a brace the loop gives all pairs in order with duplicates if all values are strings, and nothing otherwise, whatever follows |
| StringObject.PairsOfObject | src/agent_rpc.cpp:129-142 | an object whose values are all strings gives its pairs, and any other is refused; text that ends with a brace may follow |
| StringObject.AcceptedIsObject | src/agent_rpc.cpp:129-142 | and whatever is accepted is such an object and such a text, with those pairs |
| StringObject.StringObjectRoundTrip | src/agent_rpc.cpp:127-144 | the same through `field`, with white space anywhere: the depth scan and the pair loop agree on the extent of the object |
| StringObject.NoStringObject | src/agent_rpc.cpp:127-128 | without the key there is no object |
| StringObject.OnlyObjects | src/agent_rpc.cpp:127-130 | a value that is neither an object nor a string is refused, and a string is taken for the object whose text it holds |
| EventLog.AgentEventLog.constructor | src/agent_rpc.cpp:148 | an empty ring of at least one place |
| EventLog.AgentEventLog.Publish | src/agent_rpc.cpp:149 | the history grows by the event under the next sequence, and a full ring evicts its oldest; the retained events stay the contiguous end of the history |
| EventLog.AgentEventLog.Since | src/agent_rpc.cpp:150 | the first events of the history above both the cursor and the low-water mark |
| EventLog.AgentEventLog.Latest | src/agent_rpc.cpp:151 | the length of the history |
| EventLog.AgentEventLog.Dropped | src/agent_rpc.cpp:152 | the evictions since the last clear |
| EventLog.AgentEventLog.Clear | src/agent_rpc.cpp:153 | retained events go, the sequence counter stays |
| EventLog.SinceReturns | src/agent_rpc.cpp:150 | a poll returns a sequence exactly when it is among the first `limit` above the cursor and the low-water mark |
| EventLog.RunIsValid | src/agent_rpc.cpp:148-153 | over every run the ring holds the last min(capacity, published since the last clear) events |
| EventLog.LogOfRun | src/agent_rpc.cpp:148-153 | over every run the history is the (type, payload) pairs of the publishes in order, numbered from one, and what is gone from the ring is what came before the last clear or lies further back than the capacity |
| EventLog.CursorReader.Poll | benchmarks/agent_rpc.cpp:10 | a poll moves the cursor to the last event it was handed |
| EventLog.DeliveredInOrder | benchmarks/agent_rpc.cpp:10 | over every run, deliveries are strictly increasing in sequence, and the event of sequence q carries the type and payload of the q-th publish |
| EventLog.DeliveredOrLost | src/agent_rpc.cpp:148-200 | over every run, an event at or below the cursor was delivered exactly when no step passed it while it was evicted, cleared, or beyond a watching reader's batch |
| EventLog.WatchLoses | src/agent_rpc.cpp:200 | two events and a watching poll for one: the second is lost although the ring holds it |
| EventLog.GaplessIffNeverOvertaken | benchmarks/agent_rpc.cpp:10 | a conforming reader was handed the whole history up to its cursor exactly when no poll was overtaken |
| EventLog.EvictionLoses | src/agent_rpc.cpp:149 | a ring of one place loses the first of two events |
| EventLog.PollsAdvance | benchmarks/agent_rpc.cpp:10 | once publishing stops, n polls take n full batches off what is pending, down to nothing |
| EventLog.CatchUp | benchmarks/agent_rpc.cpp:10 | n polls reach the latest sequence exactly when the reader is there already, or something is pending and n is at least pending over limit, rounded up |
| EventLog.BehindAfterClear | src/agent_rpc.cpp:153 | after a publish and a clear no number of polls brings a fresh reader to the latest sequence |
| BrowserModel.BrowserModel.Create | src/browser_model.cpp:9-12 | an empty workspace name is refused |
| BrowserModel.BrowserModel.NewTab | src/browser_model.cpp:14-19 | the new tab is last, under the next id, active if asked for |
| BrowserModel.BrowserModel.Find | src/browser_model.cpp:21-28 | the first tab with the id, or nothing |
| BrowserModel.BrowserModel.Activate | src/browser_model.cpp:30-37 | a present tab is active and no longer discarded |
| BrowserModel.BrowserModel.DiscardToLimit | src/browser_model.cpp:39-51 | the leftmost eligible tabs are discarded, and the result is min(excess, eligible) |
| BrowserModel.BrowserModel.CloseTab | src/browser_model.cpp:53-69 | the strip, the stack and the active tab after a close |
| BrowserModel.BrowserModel.ReopenClosed | src/browser_model.cpp:71-81 | the top of the stack comes back last, active, under a fresh id |
| BrowserModel.BrowserModel.DuplicateTab | src/browser_model.cpp:83-88 | a new active tab with the same address |
| BrowserModel.BrowserModel.MoveTab | src/browser_model.cpp:90-99 | the tab goes into the gap; an absent id or a gap beyond the strip is refused |
| BrowserLaws.ApplyKeepsInv | src/browser_model.cpp:14-99 | every operation keeps ids distinct and below the counter, the active tab in the strip, lifecycles fitting, and the stack within its limit |
| BrowserLaws.RunKeepsInv | src/browser_model.cpp:14-99 | so does every run, from any good state |
| BrowserLaws.RunFromStart | src/browser_model.cpp:9-99 | in particular from the empty model |
| BrowserLaws.IssuedIncrease | src/browser_model.cpp:15-75 | the ids a run issues are strictly increasing, so none is issued twice |
| BrowserLaws.ClosedIdsStayGone | src/browser_model.cpp:53-81 | an id that left the strip never finds a tab again, not even after a reopen |
| BrowserLaws.NewTabEffect | src/browser_model.cpp:14-19 | a new tab comes in last under the next id, at the given address and otherwise blank, and is active exactly when that is asked for |
| BrowserLaws.DuplicateEffect | src/browser_model.cpp:83-88 | a duplicate comes in last at the address of its original and is active |
| BrowserLaws.ReopenEffect | src/browser_model.cpp:71-81 | a reopen brings back the tab closed last, with its address, title and marks, at the end and active; the focus stays |
| BrowserLaws.AbsentChangesNothing | src/browser_model.cpp:30-99 | an id that is not in the strip and a gap beyond its end change nothing |
| BrowserLaws.ActivateEffect | src/browser_model.cpp:30-37 | activating changes the active tab, its discarded flag and the focus only, and the resident count accordingly |
| BrowserLaws.CloseEffect | src/browser_model.cpp:53-69 | a close takes out one tab, keeps the order of the others, and makes the right or else the left neighbour active |
| BrowserLaws.DiscardEffect | src/browser_model.cpp:39-51 | tabs change only by being discarded, only ones neither active nor loading, all of them left of any that could have gone and stayed; within the limit none goes, above it they go until the limit is met and no further, or until none is left; the count returned is the drop |
| BrowserLaws.ResidentIsCount | src/browser_model.cpp:40-41 | resident tabs are those not discarded |
| BrowserLaws.MoveLands | src/browser_model.cpp:90-99 | the tab lands in the gap, the order of the others and everything else stay |
| BrowserLaws.MoveIsUndone | src/browser_model.cpp:90-99 | a second move restores the model |
| BrowserLaws.EveryOrderIsReachable | src/browser_model.cpp:90-99 | every permutation of the strip is reached by some moves |
| BrowserLaws.CloseAllStacks | src/browser_model.cpp:57-62 | after any closes the stack is the end of the old stack and the closed tabs, as they were, oldest first |
| BrowserLaws.ReopenAllUnstacks | src/browser_model.cpp:71-81 | n reopens append the top min(n, stack) tabs, top first, under consecutive fresh ids |
| BrowserLaws.RecentlyClosedIsLifo | src/browser_model.cpp:53-81 | after closing any tabs from an empty stack, min(n, limit) reopens succeed; the i-th appends the tab closed i-th from last with the address, title, discarded, private and audible marks it had in the strip, live, not loading, active, under the next id |
| NativeShell.Application.AgentTab | src/native_app.cpp:4230-4237 | for an id the first tab with it in any window, closed ones too; for none what the first open window shows |
| NativeShell.Application.CreateWindow | src/native_app.cpp:3866-3877 | a new window under the next id with one tab in front |
| NativeShell.Application.NewTab | src/native_app.cpp:3295-3304 | a tab behind the active one; in application mode a window of its own |
| NativeShell.Application.InsertTab | src/native_app.cpp:3404-3447 | the insertion at the end of `new_tab` |
| NativeShell.Application.SelectTab | src/native_app.cpp:1870-1872 | the tab's window shows it |
| NativeShell.Application.CloseTab | src/native_app.cpp:1989-2017 | the windows after a close |
| NativeShell.Application.WindowClosing | src/native_app.cpp:2776-2782 | the window is closed and keeps its tabs |
| NativeShell.Application.MoveTabToWindow | src/native_app.cpp:2059-2111 | the windows after a move, and false with no change exactly when a guard fails |
| NativeShell.Application.TabDragBegin | src/native_app.cpp:2120-2128 | the tab is dragged, the flags are reset |
| NativeShell.Application.QueueTabDetach | src/native_app.cpp:2161-2167 | one request, unless one is pending |
| NativeShell.Application.TabDragCancel | src/native_app.cpp:2169-2181 | cancelled; queued unless the user did it |
| NativeShell.Application.TabDragEnd | src/native_app.cpp:2225-2234 | queued when neither dropped nor cancelled; the drag is over |
| NativeShell.Application.TabDropped | src/native_app.cpp:2236-2245 | completed exactly when the move succeeds |
| NativeShell.Application.FindDetachSource | src/native_app.cpp:2141-2151 | the first open ordinary window that lists the tab |
| NativeShell.Application.DetachTabDeferred | src/native_app.cpp:2135-2155 | the idle callback |
| NativeLaws.HandleKeepsInv | src/native_app.cpp:1989-2245 | every event keeps ownership, back-pointers, privacy, the shown tab, application windows and the pending detach in order; the tabs after it are those before it and the one it makes, or without the one it closes |
| NativeLaws.RunKeepsInv | src/native_app.cpp:1989-2245 | so does every run of events |
| NativeLaws.RunFromStart | src/native_app.cpp:1989-2245 | in particular from an application without windows |
| NativeLaws.ListedTab | src/native_app.cpp:3303-3304 | a listed tab points back to its window, has its privacy, is listed nowhere else and resolves; its window shows one of its own tabs; an application window has just the one |
| NativeLaws.RunAccounts | src/native_app.cpp:3303 | a tab that is there after a run was there before it, equally private, or is new |
| NativeLaws.CloseRemoves | src/native_app.cpp:1989-2012 | a closed tab does not resolve |
| NativeLaws.ClosedIdsStayGone | src/native_app.cpp:4230-4237 | and never does again |
| NativeLaws.LivesUntilClosed | src/native_app.cpp:1989-2245 | over every run a tab resolves exactly until it is closed: no move, drop, detach or closed window loses it |
| NativeLaws.PrivacyIsForLife | src/native_app.cpp:2059-2062 | a tab that is not closed is after any run in exactly one window, and as private as it was made |
| NativeLaws.ClosedWindowStillResolves | src/native_app.cpp:4235 | the ids of a closed window's tabs still lead to them |
| NativeLaws.CurrentTabIsShown | src/native_app.cpp:4231-4234 | without an id the agent gets the tab that the first open window shows, and there is one |
| NativeLaws.SelectEffect | src/native_app.cpp:1870-1872 | the window that lists the tab shows it, and nothing else changes |
| NativeLaws.CloseEffect | src/native_app.cpp:1989-2017 | a close changes one window: the others in order, the right or else the left neighbour in front, and the window closed with its last tab |
| NativeLaws.MoveAcrossEffect | src/native_app.cpp:2082-2111 | a move to another window takes the tab out as a close does, puts it in place, in front, pointing back, and changes no third window |
| NativeLaws.MoveWithinEffect | src/native_app.cpp:2068-2080 | a move within a window changes only where that tab stands |
| NativeLaws.NewTabEffect | src/native_app.cpp:3295-3447 | a new tab comes in directly behind the one in front, at its window's privacy; in application mode in a window of its own |
| NativeLaws.CloseWindowEffect | src/native_app.cpp:2776-2782 | closing a window marks it closed, keeps its tabs and its view, and changes nothing else |
| NativeLaws.MovableIff | src/native_app.cpp:2059-2066 | a listed tab can be moved exactly when both windows are open and equally private outside application mode |
| NativeLaws.DropEffect | src/native_app.cpp:2236-2245 | a drop moves the dragged tab as a move does and completes the drag, and changes nothing when it cannot |
| NativeLaws.AbsentChangesNothing | src/native_app.cpp:1989-2111 | an id that no window lists and an unknown window change nothing |
| NativeLaws.DragOutcome | src/native_app.cpp:2120-2245 | for any events between a begin and its end: the tab stays the dragged one, and the end queues it exactly when no drop of it succeeded, no cancel came and nothing is pending; windows stay, no flag outlives the drag |
| NativeLaws.DragResult | src/native_app.cpp:2120-2245 | a drag that begins with nothing pending ends dropped when a drop succeeded, queued once when it was cancelled outside or neither dropped nor cancelled, else left in place; only the first two go together, when both a drop succeeded and an outside cancel came |
| NativeLaws.DroppedAndQueued | src/native_app.cpp:2169-2245 | a drop that succeeds and an outside cancel: the tab is moved and queued |
| NativeLaws.DragRun | src/native_app.cpp:2120-2245 | during a drag `cancelled` holds exactly when a cancel came and `completed` exactly when some drop could be carried out when it came |
| NativeLaws.UserCancelDetachesNothing | src/native_app.cpp:2169-2181 | whatever else happens, a drag the user called off queues no request that was not queued before |
| NativeLaws.QueuedIsPending | src/native_app.cpp:2135-2167 | over every run from the start: at most one detach is queued, it is the pending one, the idle callback's test for a superseded request never fires, and the callback uses the request up |
| NativeLaws.DetachEffect | src/native_app.cpp:2135-2155 | if the window that owns the tab is open, the deferred detach gives the tab a window of its own at its own privacy, takes it out of the old one, and keeps the set of tabs and all other windows; else, and in application mode, it only uses up the request |
| TabStrip.FindActive | src/native_app.cpp:1814-1824 | the triple loop gives the last tab that shows the window's view, or the first |
| TabStrip.Allocate | src/native_app.cpp:1784-1868 | the two walks over the children compute the allocation |
| TabStripLaws.VisibleRun | src/native_app.cpp:1811-1827 | the visible tabs are the leftmost run that holds the active one: no tab is hidden on the left, or the active one is the last shown |
| TabStripLaws.WidthInRange | src/native_app.cpp:1834-1837 | a tab is 44 to 184 wide |
| TabStripLaws.WidthIsShare | src/native_app.cpp:1834-1837 | it is the equal share rounded down, but not below 44 and not above 184 |
| TabStripLaws.TabsFitIff | src/native_app.cpp:1801-1837 | the visible tabs fit exactly when one minimal tab does |
| TabStripLaws.HiddenMeansFull | src/native_app.cpp:1811-1813 | when tabs are hidden one more would not fit at 44 |
| TabStripLaws.SlackBelowCount | src/native_app.cpp:1834-1837 | below natural width the slack is less than the visible count |
| TabStripLaws.VisibleMonotone | src/native_app.cpp:1811-1813 | a wider strip never shows fewer tabs |
| TabStripLaws.LayoutShowsRun | src/native_app.cpp:1839-1867 | the placed tabs are those of the run, in order, all at one width |
| TabStripLaws.ActiveShowsView | src/native_app.cpp:1814-1824 | the active tab is the last one that shows the window's view, or the first tab when none does |
| TabStripLaws.AllocationFits | src/native_app.cpp:1784-1868 | the whole allocation: shown and placed is the leftmost run with the active tab, at one width, without gap or overlap around the placeholder, with the exact end, and within the strip exactly when one minimal tab fits beside the placeholder |
| TabStripLaws.AllocationIsInOrder | src/native_app.cpp:1839-1867 | tabs and placeholder are placed in the order in which the strip has them |
| TabStripLaws.OnePlaceholder | src/native_app.cpp:1787-1799 | the placeholder's width counts once, and only if the strip has it |
| TabStripLaws.NarrowStripOverflows | src/native_app.cpp:1834-1837 | one tab in 43 pixels ends at 44 |
| FetchBody.AgentFetch.ReadChunk | src/native_app.cpp:4401-4419 | however the rest is cut, the finished fetch is as promised; terminates on the room left |
| FetchBody.AgentFetch.ReadReady | src/native_app.cpp:4371-4399 | the same from a finished read on |
| FetchBody.AgentFetch.Emit | src/native_app.cpp:4344-4349 | without a Content-Length the size computed from the bytes read is that of the retained body |
| FetchBody.Fetch | src/native_app.cpp:4318-4419 | without a read error the result depends on the response alone: its prefix of length min(size, cap), truncated exactly when there is more |
| DownloadName.SafeDownloadName | src/user_data.cpp:51-57 | the sanitiser's steps compute the safe name |
| DownloadName.SafeNameIsSafe | src/user_data.cpp:51-59 | the name is not empty, at most 120 bytes, has no separators or control bytes and no leading dot, so the escape check never fails |
| DownloadName.SafeNamesAreFixed | src/user_data.cpp:51-57 | the sanitiser leaves a name alone exactly when it is safe |
| DownloadName.SanitisingIsIdempotent | src/user_data.cpp:51-57 | sanitising twice is sanitising once |
| DownloadName.ShorteningKeepsExtension | src/user_data.cpp:57 | cutting a long name keeps an extension of at most twelve bytes |
| DownloadName.DirectoriesAreDropped | src/user_data.cpp:52 | directories in front of the name do not matter |
| DownloadName.ForbiddenIsDropped | src/user_data.cpp:53 | a control byte or a backslash leaves no trace, wherever it stands |
| DownloadName.NamelessAndHidden | src/user_data.cpp:54-55 | an empty name, `.` and `..` become `download`, and a leading dot gets it in front |
| DownloadName.LongIsCut | src/user_data.cpp:56-57 | a name that is only too long is cut at 120 bytes, in front of its extension if that has at most twelve |
| DownloadName.ExtensionIs | src/user_data.cpp:57 | the extension goes from the last dot on, which may not be the first byte |
| DownloadName.UnusedName | src/native_app.cpp:2832-2836 | the loop ends for every finite set of files and gives the first candidate that is not taken, with the extension and the directory of the first |
| DownloadName.CandidateShape | src/native_app.cpp:2832-2836 | every candidate keeps the extension and the directory and has grown |
| DownloadName.CandidateText | src/native_app.cpp:2832-2836 | the k-th candidate is the stem, all counters up to k in brackets, and the extension |
| DownloadName.CandidatesGrow | src/native_app.cpp:2832-2836 | each candidate is longer than all before it |
| DownloadName.TriesAreBounded | src/native_app.cpp:2832-2836 | the loop tries at most as many taken names as there are files |
| DownloadName.DownloadDestination | src/native_app.cpp:2831-2836 | the safe name if it is free, else an unused one of the same extension in the same directory |
| Preferences.ReadPreferences | src/preferences.cpp:21-30 | the line loop reads the map |
| Preferences.ReadGivesLast | src/preferences.cpp:21-30 | a key has the value behind the first `=` of the last line that speaks of it, and is absent when none does; lines without `=` speak of none |
| Preferences.LinesAreText | src/preferences.cpp:24 | the lines, each with a newline behind it, are the text, but for a newline at its end |
| Preferences.WritePreferences | src/preferences.cpp:32-44 | the write loop prints the entries in key order |
| Preferences.WrittenLines | src/preferences.cpp:38-40 | a written file is one line for each key, in key order, and nothing else |
| Preferences.LessIff | src/preferences.cpp:38 | key order: a proper prefix first, else the smaller byte where two keys first differ |
| Preferences.WriteThenRead | src/preferences.cpp:21-44 | what was written is read back exactly when no key has `=` or a newline and no value a newline |
| Preferences.NewlineIsLost | src/preferences.cpp:39 | a value with a newline is not read back |
| Preferences.ReadWriteReadIsStable | src/preferences.cpp:21-44 | every map that reading gives survives writing and reading |
| Preferences.SplitDomains | src/preferences.cpp:46-59 | the split loop gives the sorted non-empty pieces without duplicates |
| Preferences.JoinDomains | src/preferences.cpp:61-68 | the join loop |
| Preferences.PiecesOfJoin | src/preferences.cpp:46-68 | splitting a joined list gives it back |
| Preferences.PreferencesFile.DarkModeEnabledDomains | src/preferences.cpp:116-120 | the list in the file |
| Preferences.PreferencesFile.DarkModeEnabledForDomain | src/preferences.cpp:122-125 | membership in it |
| Preferences.DarkIff | src/preferences.cpp:116-125 | on every file a domain is on exactly when it is not empty, has no bar, and stands between bars or ends of the value in the last line that speaks of the list |
| Preferences.PreferencesFile.CompatibilityVideoRendering | src/preferences.cpp:76-85 | the query on the stored value |
| Preferences.VideoIff | src/preferences.cpp:76-85 | compatibility rendering is on exactly when the last line that speaks of it says 1 |
| Preferences.PreferencesFile.SetDarkModeEnabledForDomain | src/preferences.cpp:127-141 | the file after a set |
| Preferences.PreferencesFile.SetCompatibilityVideoRendering | src/preferences.cpp:87-91 | the file after a set |
| Preferences.SetDarkEffect | src/preferences.cpp:127-141 | for a domain without a newline: the query gives the value set if the list can hold the domain, other domains and other keys are unaffected, an accepted set leaves the list sorted and the two old keys gone, a refused one changes nothing |
| Preferences.KeepsOthersIff | src/preferences.cpp:127-141 | sets of a domain leave all other domains alone, for every file, exactly when it is empty, has a bar, or has no newline |
| Preferences.KeepsRestIff | src/preferences.cpp:127-141 | and all entries but the list's own under the same condition |
| Preferences.NewlineSwitchesOther | src/preferences.cpp:127-141 | a concrete domain that switches another one on |
| Preferences.NewlineAddsEntry | src/preferences.cpp:127-141 | a concrete domain that adds a preference |
| Preferences.SetDarkIsSeenIff | src/preferences.cpp:122-141 | turning a domain on is seen exactly when the list can hold it |
| Preferences.SettingsAreRemembered | src/preferences.cpp:76-141 | after any sequence of settings whose domains have no newline, on any file, each query gives the last value set, and every key but the settings' own is as it was |
| Navigation.EncodeQueryLoop | src/navigation.cpp:25-34 | the loop computes the encoding |
| Navigation.EncodedByte | src/navigation.cpp:25-34 | letters, digits and four marks stand for themselves, a blank is a plus, all else a percent sign and two upper case digits |
| Navigation.QueryRoundTrip | src/navigation.cpp:25-34 | form-decoding an encoded query gives every byte string back |
| Navigation.DefaultTemplate | src/navigation.h:19 | the default template is accepted and splits at its query |
| Navigation.TemplateSplits | src/navigation.cpp:39-43 | every template with a place for the query splits at the first one, and no other is accepted |
| Navigation.TrimInvariant | src/navigation.cpp:10-46 | trim characters around the text do not matter |
| Navigation.SchemeDecides | src/navigation.cpp:51-67 | for every text with a colon: a dotted name or localhost before it, without blanks, is a host and port; else the scheme decides in any letter case, and every scheme but the seven is rejected without an address |
| Navigation.NoColonDecides | src/navigation.cpp:69-74 | without a colon: a dotted name or localhost, without blanks, leads to https, anything else to the search address |
| Navigation.BadInputIsRejected | src/navigation.cpp:46-49 | nothing but blanks, a NUL, and more than 8192 bytes are rejected, each with its reason |
| Navigation.KindsHaveSchemes | src/navigation.cpp:45-67 | over all texts, an external result has scheme mailto or tel, an internal one about or vantage, both are the trimmed text, and a rejection has no address |
| Navigation.WebScheme | src/navigation.cpp:54-74 | every web decision leads to an http, https or file address |
| Navigation.ResolveIsIdempotent | src/navigation.cpp:45-75 | resolving an accepted result again gives the same decision exactly when it has at most 8192 bytes |
| Navigation.LongHostIsRefused | src/navigation.cpp:48-49 | a host of 8191 bytes is accepted and its address refused |
| Navigation.SearchesAreDistinct | src/navigation.cpp:72-74 | under every template different searches have different addresses |

## Left out

- Wrap-around of the 64-bit sequence, tab and window counters and of the `int` scan depth; the 32-bit download counter does wrap in the model.
- Sockets, threads, the 30-second wait and the socket-path takeover; the ring's lock makes each ring operation one atomic step, and a poll's `since` and `latest` run together on the main loop.
- Windows and tabs as separate heap objects: the application owns them as values, and the pointers between them are ids. So a pointer to a destroyed tab (for instance one closed while it is dragged) leads to nothing in the model, where the source would read freed memory, and address reuse is not modelled.
- Title and close-button visibility by width, the placeholder's animation, drop positions from pointer coordinates, and all of GTK, WebKit, Soup and Cairo.
- The native list of closed addresses and the `uri` text of the `tab.closed` event.
- Headers, status and the UTF-8 or base64 body encoding in a fetch reply.
- The replacement of over-long and `data:` download names by a name from the MIME type, and real file-system paths: the directory is taken as normalised, its contents as a finite set of names.
- Write failures of the preferences file, and its replacement through a temporary file.
- Locale effects in `isspace`, `isalnum` and `tolower`: they are the ones of the "C" locale.
- `json_param_integer`, `json_param_bool` and `json_value_kind`: thin wrappers around `field` or a plain find.
- JsonFieldLaws.FieldOfMember: the key asked for is printed as itself, is not empty and does not end in a bracket, comma, colon or space, as is so of all keys in the source; other keys can be found between strings.
- SQLite storage, JS++ embedding, launch options, shortcuts, find-bar counters and settings pages.
- BrowserModel.BrowserModel.Find: gives the tab as a value; what a caller writes through the source's mutable pointer is an operation of its own in the runs, and may not change the id or the lifecycle.
- BrowserModel.BrowserModel.Create: the exception for an empty workspace is an absent result.
- Navigation.DefaultTemplate: a policy is kept as its template split at the query; the exception for a template without one is an absent policy.
- Preferences.SettingsAreRemembered: sequences that set a domain with a newline are not covered, because such a set can change any entry of the file.
- Preferences.PreferencesFile.SetDarkModeEnabledForDomain: the sort after the change also drops duplicates; the list has none at that point.
