# Market-state dashboard: the data transformations, in Dafny

The dashboard of the energy bidding competition polls the simulation
server once a second and redraws its cards. Between each fetch and each
redraw, `hack_ui/app.py` reshapes the fetched data. This project models
that reshaping, with every server response taken as an already-decoded
value:

- **Participant names** (`to_participant`). The participant map is applied
  entry by entry, in its iteration order. Each entry replaces every
  occurrence of its actor id in the running string by the participant id
  without its last two characters. Python's `str.replace` is modelled
  exactly (`PyStr.Replace`), including the empty-target case. `split`/`join`
  give it an independent description.
- **Balance table** (`update_accounts`). Python's stable sort by descending
  balance, followed by the loop that appends one row per account.
- **Auction cards** (`visualize_auction_dict`). Every card has four rows.
  For a result card, the awarded agents are collected into a set. An order
  whose agents list does not hold exactly one agent puts a list into that
  set, and Python raises `TypeError` because lists are unhashable.
- **Auction slots** (`update_auction`). Four placeholders are overwritten
  by position in a local array. A fifth slot holding the last result (or
  a placeholder) is appended. A fifth open auction writes past the array
  and raises `IndexError`. The callback's output order decides which card
  shows which slot.
- **Next-step card** (`update_step_time`). `int(float(text))` truncates
  toward zero, so the sentinel `-1` shows as "Pause".

Files: `pystr.dfy` (Python string operations), `widgets.dfy` (cells, rows,
slots, errors), `participants.dfy`, `accounts.dfy`, `auctions.dfy`,
`step_time.dfy`.

Three consequences of the code that are easy to misread:
- `"P1ID"[0:-2]` is `"P1"`, so the map `{"a1": "P1ID"}` renames `"a1"` to
  `"P1"` (`Participants.RenameExample`).
- An awarded order whose agents list does not hold exactly one agent puts
  that list into `set()`, and Python raises `TypeError: unhashable type:
  'list'`. The model returns `Err(UnhashableList(...))`
  (`Auctions.AwardedAgentsError`).
- Renaming replaces the actor id anywhere in the string, not only as a
  whole name, and each map entry acts on the output of the entries before
  it (`Participants.RenameSequential`).

## Model

| member | source | states |
|---|---|---|
| `PyStr.DropLastTwo` | hack_ui/app.py:167 | `pid[0:-2]` is a prefix of `pid` that is two characters shorter, and empty when `pid` has at most two characters |
| `PyStr.Replace` | hack_ui/app.py:167 | `str.replace` as used by `to_participant`; for an empty actor id the result is `repl.join(['', *s, ''])`, the replacement before every character and at the end |
| `PyStr.Split` | hack_ui/app.py:167 | `str.split`, the reference for `replace`: at least one piece, no piece containing the separator, the first piece a prefix of the string that ends where the first separator starts, and no occurrence of the separator starting inside a piece that a separator follows (the cuts are the leftmost occurrences) |
| `PyStr.OverlapExample` | hack_ui/app.py:167 | overlapping occurrences are taken leftmost first: `"aaa".split("aa")` is `["", "a"]` and `"aaa".replace("aa", "X")` is `"Xa"` |
| `PyStr.ReplaceIsJoinOfSplit` | hack_ui/app.py:167 | for a non-empty actor id, `str.replace` equals joining the pieces of `str.split` with the replacement |
| `PyStr.SplitJoinRoundTrip` | hack_ui/app.py:167 | joining the split pieces with the separator gives back the original string |
| `PyStr.ReplaceBySelf` | hack_ui/app.py:167 | replacing a non-empty string by itself leaves any string unchanged |
| `PyStr.ReplaceAbsent` | hack_ui/app.py:167 | a string in which the actor id does not occur is returned unchanged |
| `PyStr.ReplaceWhole` | hack_ui/app.py:167 | a string that is exactly the non-empty actor id becomes the replacement |
| `PyStr.ReplaceEmptyTargetLength` | hack_ui/app.py:167 | an empty actor id yields a string of length `|s| + (|s| + 1) * |repl|`: the input plus `|s| + 1` copies of the replacement |
| `Participants.ToParticipant` | hack_ui/app.py:164-168 | the reassigning loop returns the fold of the map's entries, in iteration order, over the actor string |
| `Participants.RenameSequential` | hack_ui/app.py:166-167 | renaming through a map made of two parts is renaming through the first part and then the second: later entries act on the output of earlier ones |
| `Participants.RenameUntouched` | hack_ui/app.py:164-168 | when no actor id of the map occurs in the string, the string comes back unchanged (an empty map included) |
| `Participants.RenameWholeId` | hack_ui/app.py:164-168 | for a one-entry map, an actor string equal to the non-empty actor id becomes the participant id less its last two characters |
| `Participants.ShortPidDeletes` | hack_ui/app.py:167 | a participant id of at most two characters deletes every occurrence of the actor id: what remains is the text between the occurrences |
| `Participants.RenameExample` | hack_ui/app.py:164-168 | the map `{"a1": "P1ID"}` renames `"a1"` to `"P1"` |
| `Accounts.SortByBalance` | hack_ui/app.py:179 | the sorted balances have the input's length, are a permutation of it, and are non-increasing; for every balance, its entries keep their input order (stability) |
| `Accounts.SortIsTheStableDescendingOrder` | hack_ui/app.py:179 | any non-increasing arrangement that keeps each balance's entries in input order equals the sort's output, so the order is fully determined |
| `Accounts.UpdateAccounts` | hack_ui/app.py:175-190 | header Name/Balance; one row per account; balances non-increasing; every account appears with its renamed name; row `i` is the `i`-th sorted entry renamed |
| `Auctions.AwardedAgents` | hack_ui/app.py:270-281 | the awarded set is built exactly when every awarded order has one agent, and it has at most as many names as there are orders |
| `Auctions.AwardedAgentsMembers` | hack_ui/app.py:270-281 | a name is awarded if and only if it is the renamed single agent of some awarded order |
| `Auctions.AwardedAgentsError` | hack_ui/app.py:270-281 | an order whose agents list does not hold exactly one agent makes the build fail as an unhashable list; the model's error carries the first such order, the first list `set()` would try to hash |
| `Auctions.VisualizeAuction` | hack_ui/app.py:238-290 | the card fails only for a result with a non-single-agent order; otherwise it has four rows: Amount (tender amount) first, Supply (supply start) last, and Minimum/Closure in between for an open auction or Awarded/Clearing Price for a result |
| `Auctions.OpenCard` | hack_ui/app.py:312 | an open auction always gives a well-formed card whose second row is Minimum |
| `Auctions.UpdateAuction` | hack_ui/app.py:301-329 | the array-and-append procedure returns the slot layout of `AuctionSlots`, raising on a fifth open auction before the result is examined |
| `Auctions.SlotLayout` | hack_ui/app.py:310-329 | more than four open auctions raise an index error at index 4. Otherwise the output fails only for a bad last result, and it has five slots: the open auctions in response order, then "No auction yet" up to slot 4, then the card of `results[-1]` or "No result yet." |
| `Auctions.PanelShowsAuctionsInOrder` | hack_ui/app.py:293-298 | card "Auction k" shows the k-th open auction, or the placeholder when there are fewer than k; "Last Auction Result" shows the fifth slot |
| `StepTime.Truncate` | hack_ui/app.py:148 | `int(float(...))` rounds toward zero: the result lies within one of the value, on the value's side of zero |
| `StepTime.StepTimeText` | hack_ui/app.py:147-151 | "Pause" is shown if and only if the value is in (-2, -1], which is exactly when it truncates to -1; otherwise the shown integer is the value truncated toward zero, which is not -1 |
| `StepTime.IntegerShownUnchanged` | hack_ui/app.py:149-151 | an integral value other than -1 is shown as that integer |

## Left out

- HTTP requests, the host constant and JSON decoding are network I/O. Every payload is an input value of the right shape. A missing field, a wrong type or an unreachable host (all unhandled in the code) is not modelled.
- Python dicts are sequences in iteration order (`seq<Binding>`, `seq<Entry>`). The decoder always produces distinct keys, and nothing in the model depends on that.
- Balances, amounts and prices are `real`. Float rounding, NaN and infinity are not modelled. The step-time text is taken as the real number `float()` would parse.
- `format_simulation_time` is float parsing, float division and float formatting. Its result is kept symbolic as `SimTime(raw)`. `update_cst`, which only applies it, is not modelled. A malformed gate-closure time, which raises even on a result card, is not modelled either.
- The order in which `list(set(...))` lists the awarded agents is unspecified in Python. The awarded agents are a `set<string>`, and `str()` of that list is not modelled.
- The page layout and `create_card` (hack_ui/app.py:11-136), the `html.Div`/`html.Tr`/`dbc.Table` wrappers and their CSS classes: only their content (titles, values, placeholders) is kept.
- The `dcc.Interval` timer and callback scheduling are framework-driven and concurrent. Every modelled callback is a function of its inputs, so redrawing with the same data gives the same output.
- `update_demand` (hack_ui/app.py:197-235) only hands decoded data to pandas and plotly charts.
- The commented-out callbacks (hack_ui/app.py:332-362) and `app.run`.
- `visualize_auction_dict` called with `is_result=True` but without awarded orders cannot happen from `update_auction`, so the model has no case for it.
