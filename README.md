# pledge2 request handler, modelled in Dafny

pledge2 is a Slack slash-command backend for a Splitwise group. A request
carries a validation token, a team id, the Slack user id and the command
text. The handler replies through a `respond` closure, which sends at most
once, and a 2.5-second timer sends a fallback message if nothing has been
sent by then. Two commands exist:

- `help` prints a usage text.
- `register <name or id>` finds the Splitwise group member named by the
  arguments. It then binds the Slack user to that member in a mapping, and
  writes the mapping back.

The mapping is stored as `key=value` lines in the `details` field of one
designated Splitwise expense. There is no database.

The model has one module per part of `server.js`:

- `Options` (`options.dfy`): an optional value, for a fetch that fails or a
  search that finds nothing.
- `Strings` (`strings.dfy`): the JavaScript string operations used.
  These are `split` on one character, `join`, ASCII `toLowerCase` and the
  decimal rendering of a number.
- `Tokenizer` (`tokenizer.dfy`): the command word and its arguments.
- `UserMapping` (`user_mapping.dfy`): `R.assoc`, and the mapping codec.
  The codec's save side is `R.toPairs`, `join('=')` and `join('\n')`. Its
  load side is `split`, `R.transpose`, `R.reverse` and `R.zipObj`.
- `Roster` (`roster.dfy`): the predicate given to `R.find`, and `R.find`.
- `Gate` (`gate.dfy`): the `respond` closure. It is a class with the
  captured `responded` flag and the list of messages sent.
- `Handler` (`handler.dfy`): `handleRequest` as an imperative method over
  the inputs of one request. The outside world is a parameter: the fetched
  roster, the fetched mapping text, whether the save succeeds, and whether
  the timer fires before the upstream calls settle.

## Behaviour as written

Three behaviours of the code are easy to misread; the model keeps them:

- **Loading swaps the mapping.** The load side reverses the transposed
  columns, so the right side of each line becomes the key. Saving
  `{U1: "7"}` writes `U1=7`, and loading that gives `{"7": "U1"}`
  (`UserMapping.SwapExample`, `UserMapping.LoadAfterSave`). After a
  registration, a load therefore binds the member id to the user
  (`UserMapping.RegisterThenLoad`), not the user to the id.
- **A first name alone never matches.** The first-name clause compares the
  method `first_name.toLowerCase` itself with a string. That comparison
  sees the method's text, which holds an upper-case `L`, against a
  lower-cased string, so it never holds (`Roster.FirstNameClause`).
  A member is found only by id or by the full `first last` name
  (`Roster.Matches`). So `register Bob` against a roster holding
  Bob Lee replies "Couldn't find that splitwise user."
  (`Roster.BobLeeExample`).
- **Empty input is not help.** Empty text, like any other command except
  `help` and `register`, replies "Sorry, that is not a valid command.". A
  `register` with no arguments still fetches the roster, and then finds
  nobody (`Roster.EmptyArgsFindNobody`), except a member with id 0 (see
  `Roster.IdClause` below).

## Model

| member | source | states |
|---|---|---|
| `Gate.Responder.constructor` | server.js:51-53 | a fresh closure has not responded and has sent nothing |
| `Gate.Responder.Respond` | server.js:54-59 | the first call sends its message and sets the flag; a call after that changes nothing; at most one message is ever sent |
| `Gate.RespondSequence` | server.js:51-60 | over any sequence of `respond` calls, what is sent is exactly the first call's message, or nothing when there was no call |
| `Handler.HandleRequest` | server.js:50-99 | a token or team mismatch sends nothing and writes nothing; otherwise exactly one reply is sent. `help` replies with the usage text. Any other command except `register`, empty text included, replies "not a valid command". For `register`, the timer's fallback wins when it fires first. A failed fetch replies "something went wrong" and writes nothing. No matching member replies "Couldn't find" and writes nothing. Otherwise the text posted is a serialisation of the loaded mapping with the user bound to the member's id, and the reply is "Success!" or "something went wrong" as the save succeeds or fails |
| `Handler.RegisterWriteReloads` | server.js:40-48 | for well-formed fetched text and a user id without `=` or line break, the text `register` posts is well formed again; when no other key of the loaded mapping held the member's id, loading it binds that id to the user |
| `Tokenizer.Command` | server.js:74 | the command holds no space |
| `Tokenizer.Args` | server.js:75 | without a space in the text the arguments are empty; with one, the text is the command, one space and the arguments |
| `Tokenizer.Recombine` | server.js:73-75 | with a space in the text, args is everything after the first space; without one, command = text and args is empty |
| `Tokenizer.FirstWordAndRest` | server.js:73-75 | a space-free word, a space and any rest tokenize to exactly that word and that rest, inner spaces kept |
| `Strings.Split` | server.js:74 | `split` yields at least one piece; no piece holds the separator; there is a single piece exactly when the text has no separator |
| `Strings.SplitKeeps` | server.js:43 | a character absent from the text is absent from every piece of its split |
| `Strings.Join` | server.js:75 | joining one piece gives that piece; joining separator-free pieces yields a separator exactly when there are at least two pieces |
| `Strings.JoinSplit` | server.js:75 | joining the pieces of a split gives back the text |
| `Strings.SplitJoin` | server.js:43-47 | splitting a join of separator-free pieces gives back the pieces |
| `Strings.Lower` | server.js:85-86 | lower-casing keeps the length, turns each upper-case ASCII letter into its lower-case partner and keeps every other character |
| `Strings.LowerEqual` | server.js:86 | two texts lower-case to the same text exactly when they have one length and agree letter by letter up to ASCII case |
| `Strings.NatToString` | server.js:84 | the decimal rendering of an id is a non-empty string of digits without a leading zero |
| `Strings.ValueOfNatToString` | server.js:84 | the rendering of a number denotes that number |
| `Strings.NatToStringOfValue` | server.js:84 | every canonical digit string is the rendering of the number it denotes |
| `Strings.RenderingIff` | server.js:84 | a text is the rendering of `n` exactly when it is a canonical digit string denoting `n`, so distinct ids render differently |
| `Roster.IdClause` | server.js:84 | the id clause holds exactly when the arguments are a canonical digit string denoting the member's id |
| `Roster.FirstNameClause` | server.js:85 | comparing the `toLowerCase` method itself with the lower-cased arguments is false for every member and every argument text |
| `Roster.FullNameClause` | server.js:86 | the full-name clause holds exactly when `first last` and the arguments agree up to ASCII case |
| `Roster.Matches` | server.js:83-86 | a member matches exactly when the id clause or the full-name clause holds; the first name alone never suffices |
| `Roster.Find` | server.js:83-86 | no result exactly when no member matches; otherwise the result is a roster member that matches, and no member before it matches |
| `Roster.EmptyArgsFindNobody` | server.js:75-86 | empty arguments match no member of any roster |
| `Roster.BobLeeExample` | server.js:83-86 | for the roster holding member 7, Bob Lee, "7" and "bob LEE" find the member, and "Bob" finds nobody |
| `UserMapping.Assoc` | server.js:90 | the new mapping has the user's key bound to the member id, keeps every other key's value, and adds no other key |
| `UserMapping.ToPairs` | server.js:47 | the entries list every key of the mapping once, each with its value |
| `UserMapping.Serialise` | server.js:47 | no entries write the empty text; clean entries write a line break exactly when there are at least two of them |
| `UserMapping.Save` | server.js:44-48 | the text posted is the `key=value` lines of some ordering of the mapping's entries, joined by line breaks |
| `UserMapping.SerialisedLines` | server.js:47 | a saved text splits back into exactly one `key=value` line per entry, in order |
| `UserMapping.SerialisedColumns` | server.js:41-47 | a saved non-empty clean mapping is well formed; its left sides are the keys and its right sides the values, in order |
| `UserMapping.SavedWellFormed` | server.js:41-47 | saving a non-empty clean mapping writes text the load side accepts |
| `UserMapping.Rows` | server.js:43 | there is one row per line, and joining a row back with `=` gives its line |
| `UserMapping.Transpose` | server.js:43 | two columns as long as the rows, and row `i` is the `i`-th cell of each column |
| `UserMapping.SidesClean` | server.js:43 | no left or right side of a well-formed line holds `=` or a line break |
| `UserMapping.ZipObj` | server.js:41-43 | the object's keys are exactly the given keys; each key is bound to the value at its last position |
| `UserMapping.Reverse` | server.js:43 | the reversed list has the same length and holds the elements in the opposite order |
| `UserMapping.Parse` | server.js:40-43 | the loaded keys are exactly the right sides of the lines; each is bound to the left side of the last line with that right side; no loaded key or value holds `=` or a line break |
| `UserMapping.OneLine` | server.js:41-43 | well-formed text of one line loads as exactly that line's right side bound to its left side |
| `UserMapping.LoadSerialised` | server.js:41-47 | loading a saved non-empty clean entry list keys the result by the entries' values, each bound to the key of the last entry holding it |
| `UserMapping.SwapOfZip` | server.js:41-43 | zipping the values of a one-to-one mapping's entries with their keys gives back the mapping with keys and values swapped |
| `UserMapping.LoadAfterSave` | server.js:41-47 | loading what saving a non-empty one-to-one mapping wrote gives that mapping with keys and values swapped, in any entry order |
| `UserMapping.LoadBindsSoleHolder` | server.js:41-47 | after saving a clean mapping, a value held by only one key loads bound to that key |
| `UserMapping.RegisterThenLoad` | server.js:41-47 | after binding a user to an id that no other user holds, loading the saved text binds the id to the user |
| `UserMapping.SwapExample` | server.js:41-47 | saving `{U1: "7"}` writes `U1=7`, and loading that text gives `{"7": "U1"}` |

## Left out

- The Express server, body parsing, `app.listen` and the start-up sequence
  (server.js:101-110) are I/O plumbing. The requested client-credentials
  token (server.js:101-102) is not modelled.
- The OAuth2 client and the HTTP calls (server.js:10-39) are foreign
  library calls over the network. `get_group` and the mapping `get_expense`
  are `Upstream` inputs that hold a value or fail. The `update_expense`
  post is the `posted` output plus a success flag.
- `JSON.parse` of response bodies and the `dotenv` configuration are left
  out. The configured token and team id are the `Config` input. The parsed
  roster and the mapping text are given values. A mapping body that fails
  to parse or lacks `expense.details` makes `getUserMapping` reject
  (server.js:41-43), so `Promise.all` rejects and the reply is "Sorry,
  something went wrong." (server.js:94), as for a failed fetch. A group body
  that parses but lacks `group` is different: `getGroup` resolves to
  `undefined` (server.js:37), `group.members` then throws inside the
  fulfilment callback (server.js:86), and the rejection handler at
  server.js:94 does not see it. Only the timer's fallback replies, or no
  reply comes where an unhandled rejection ends the process. That case is
  not modelled.
- The timer and the concurrency: the 2500 ms delay and the `Promise.all`
  join are not modelled. The timer is one more `respond` call, made either
  before the `register` outcome (`deadlineFirst`) or after the reply. For
  `help` and unknown commands, the reply is sent synchronously, before any
  timer can fire.
- Concurrent requests and their read-then-write race on the mapping
  expense are not modelled; each request is handled in isolation.
- `UserMapping.Parse`: modelled only on text where every line holds exactly
  one `=`. Other text includes empty `details`, which is what saving an
  empty mapping writes. On such text `R.transpose` produces ragged columns,
  and `R.apply(R.zipObj, …)` can return a partially applied function. That
  behaviour belongs to the library. `Handler.HandleRequest` therefore
  requires well-formed mapping text when the fetch succeeds.
- `Roster.IdClause`: JavaScript's loose `==` between a number and a string
  converts the string to a number, so `"07"` or `" 7"` also match id 7,
  and the empty or all-space arguments convert to 0 and match a member
  with id 0. The model matches only the plain decimal rendering of the id,
  so `Roster.EmptyArgsFindNobody` holds for every roster, while the
  running program would find a member with id 0.
- `Strings.Lower`: lower-cases ASCII letters only. Unicode case mapping is
  not modelled.
- `UserMapping.ToPairs`: JavaScript's property order is not modelled.
  Each step takes any key not yet listed, so no line order is asserted.
- `UserMapping.Assoc`: in the running program the new entry's value is the
  number `member.id`, and loaded values are strings. The model stores the
  id's decimal rendering, which is what the save writes for it.
- A missing `text` field, which would make `split` throw, is not
  modelled: `text` is always a string.
- `Handler.RegisterWriteReloads`: a Slack user id holding `=` or a line
  break would make the posted text fail to load as written. Slack user ids
  hold neither, so the lemma requires that.
